# Clinic booking core in Dafny

This project models the booking core of a clinic back end. In that system
patients book appointments with doctors for a clinic service. Doctors publish
their working shifts as minute intervals of a day. Clinic admins create
services and assign doctors to them.

The model covers:

- **Free-interval subtraction** (`getAvailableIntervals`): a doctor's shifts
  minus that day's booked appointments.
- **Booking** (`bookAppointment`): the lookups, the actor check, the
  assignment check, and the slot search with its suggestion list.
- **Availability query** (`getDoctorAvailability`).
- **Reading one appointment** (`getById`): who may read it.
- **Shift update** (`updateShifts`): sort by start, then the pairwise
  conflict check.
- **Interval validator**: each end is an integer in [0, 1440].
- **Services**: creating a clinic service, and assigning or unassigning a
  doctor. An assignment is recorded both in the service and in the doctor.

Modules, one file each:

| module | file | what it holds |
|---|---|---|
| `Intervals` | intervals.dfy | the interval value, its validator, overlap and containment |
| `Domain` | domain.dfy | users, clinics, services, appointments, the store, errors and their HTTP codes |
| `Availability` | availability.dfy | the subtraction loop and what it guarantees |
| `ShiftRules` | shift_rules.dfy | the stable sort by start and the pairwise shift check |
| `UsersService` | users_service.dfy | `updateShifts` |
| `Booking` | booking.dfy | `bookAppointment`, `getDoctorAvailability`, `getById` |
| `ClinicServices` | clinic_services.dfy | `create`, `assignDoctor`, `unassignDoctor` |
| `Scenarios` | scenarios.dfy | end-to-end runs on small concrete stores |

How the model represents the system:

- **Store.** The database is one immutable `Store` value. Users, clinics and
  services are maps keyed by id. Appointments are a sequence in insertion
  order.
- **Writes.** Each operation returns either a new store or an `Error`. A
  transaction that commits becomes one store update. Every thrown exception
  becomes an `Err`.
- **Dates.** A calendar day is an integer key, so "same doctor, same day"
  means equal `doctorId` and equal `date`.
- **New ids.** Database-generated ids are a parameter (`newId`).
- **Missing references.** Calling `.toString()` on a missing clinic reference
  throws a `TypeError` in the source. The model reports it as the `TypeError`
  error.

Three behaviours of the subtraction are easy to get wrong:

- **Several bookings in one shift.** The subtraction handles several
  bookings inside one shift, because each remainder goes back into the
  working list. `Availability.AllApplied` proves that every booking is taken
  out when the bookings are disjoint and lie inside the shifts.
- **Free-list order.** The free list is not sorted. A shift is removed from
  its position and its remainders are appended at the end of the list.
- **Skipped bookings.** A booking that no remaining interval contains is
  skipped silently. It is not reported as a conflict.

## Model

| member | source | states |
|---|---|---|
| Intervals.AllValidDto | src/users/dto/time-interval.dto.ts:16-20 | the nested validation accepts a list exactly when every element has both ends in [0, 1440] |
| Intervals.DtoAllowsInverted | src/users/dto/time-interval.dto.ts:4-14 | the validator relates neither end to the other: an interval ending before it starts passes |
| Intervals.DtoBounds | src/users/dto/time-interval.dto.ts:4-14 | 0 and 1440 are legal endpoints; -1 and 1441 are rejected |
| Intervals.AdjacentImpliesPairwise | src/users/users.service.ts:230-250 | if each shift of a start-sorted list is non-empty and ends no later than the next one starts, then no two shifts overlap and every earlier shift ends before every later one starts |
| Domain.Status | src/appointment/appointment.service.ts:171-179 | every failure maps to a 4xx/5xx code, and code 412 (precondition failed) is used exactly for "doctor not assigned" and "slot unavailable" |
| Domain.SameRef | src/users/users.service.ts:217-218 | comparing two references with `toString()` throws exactly when either is missing; otherwise it is their equality |
| Availability.FindContainingFrom | src/appointment/appointment.service.ts:285-288 | the first index at or after the start whose interval contains the booking, or -1 exactly when none from there on does |
| Availability.FindContaining | src/appointment/appointment.service.ts:285-288 | `findIndex`: the first containing interval, with none before it; -1 exactly when no interval contains the booking |
| Availability.Pieces | src/appointment/appointment.service.ts:292-303 | a left piece exists exactly when the shift starts before the booking, a right piece exactly when it ends after it; the pieces are non-empty, inside the shift, clear of the booking and of each other |
| Availability.SubtractOne | src/appointment/appointment.service.ts:285-304 | a booking no interval contains leaves the list unchanged; otherwise the first containing interval is removed, the rest keep their order, and up to two remainders are appended, each inside the removed interval and clear of the booking |
| Availability.AvailableIntervals | src/appointment/appointment.service.ts:278-307 | one subtraction per booking, in the given order; each step adds at most one interval |
| Availability.Applied | src/appointment/appointment.service.ts:290 | the bookings that were actually cut out: each is one of the bookings, and there are no more of them than bookings |
| Availability.AppliedSubMultiset | src/appointment/appointment.service.ts:284-305 | each booking is cut out at most as often as it occurs: the applied bookings are a sub-multiset of the bookings |
| Availability.SubtractOneLength | src/appointment/appointment.service.ts:290-304 | one step lowers the total free length by the booking's length when it applies, and by nothing otherwise |
| Availability.SubtractOneWithin | src/appointment/appointment.service.ts:291-303 | after one step every free interval lies inside an interval from before the step |
| Availability.SubtractOneKeepsMiss | src/appointment/appointment.service.ts:291-303 | an interval that no free interval overlapped is still overlapped by none after a step |
| Availability.SubtractOneDisjoint | src/appointment/appointment.service.ts:291-303 | a step keeps the free list pairwise non-overlapping, and an applied booking overlaps no remaining interval |
| Availability.SubtractOneKeepsRoom | src/appointment/appointment.service.ts:285-303 | a later booking that fits inside some free interval and does not overlap the current booking still fits after the step |
| Availability.AvailableLength | src/appointment/appointment.service.ts:278-307 | total free length = total shift length minus the total length of the bookings actually applied |
| Availability.AvailableWithinShifts | src/appointment/appointment.service.ts:278-307 | every free interval lies inside one of the shifts |
| Availability.AvailableDisjoint | src/appointment/appointment.service.ts:278-307 | non-overlapping shifts give non-overlapping free intervals |
| Availability.AvailableMissesApplied | src/appointment/appointment.service.ts:278-307 | with non-overlapping shifts, no free interval overlaps a booking that was applied |
| Availability.AvailableMissesHit | src/appointment/appointment.service.ts:284-305 | an interval clear of every free interval stays clear through any further subtractions |
| Availability.NoEmptyPieces | src/appointment/appointment.service.ts:292-303 | every free interval is either an original shift or non-empty |
| Availability.AllApplied | src/appointment/appointment.service.ts:284-305 | if the bookings are non-empty, mutually non-overlapping and each inside some shift, then none is skipped |
| Availability.FreeIntervalsTheorem | src/appointment/appointment.service.ts:278-307 | for well-formed inputs the free list is exactly the shifts minus the bookings: its total length, disjointness, containment in the shifts, and no overlap with any booking |
| Availability.PiecesAppendedAtEnd | src/appointment/appointment.service.ts:291-303 | remainders go after the untouched shifts, so the free list is not in start order |
| Availability.UncontainedBookingSkipped | src/appointment/appointment.service.ts:290 | a booking that sticks out of every shift leaves the free list unchanged |
| Availability.FirstCut | src/appointment/appointment.service.ts:291-303 | cutting 10-20 from 0-100 leaves 0-10 and 20-100 |
| Availability.SecondCut | src/appointment/appointment.service.ts:285-303 | cutting 50-60 then finds the second remainder and leaves 0-10, 20-50, 60-100 |
| Availability.TwoBookingsOneShift | src/appointment/appointment.service.ts:284-305 | two bookings inside one shift both come out, leaving three free intervals |
| ShiftRules.InsertByStart | src/users/users.service.ts:228 | insertion into a start-sorted list keeps it sorted and adds exactly that element |
| ShiftRules.SortByStart | src/users/users.service.ts:228 | the comparator sort gives a start-sorted permutation of the input |
| ShiftRules.SortSortedIsIdentity | src/users/users.service.ts:228 | a list already in start order is returned unchanged |
| ShiftRules.CheckShifts | src/users/users.service.ts:230-250 | the loop over adjacent pairs, followed by the last-shift test, accepts exactly the lists whose shifts are all non-empty and each end no later than the next one starts |
| ShiftRules.ConsistentIffAcceptable | src/users/users.service.ts:227-250 | for a sorted list the pairwise check accepts exactly the collections of non-empty shifts in which no two (or a repeated copy) overlap; the accepted set does not depend on input order |
| ShiftRules.NormalizeShifts | src/users/users.service.ts:227-251 | zero or one shift passes unchanged; a longer list fails with 400 exactly when some shift is empty or two overlap, and otherwise becomes a sorted, non-overlapping permutation of itself |
| ShiftRules.TouchingAcceptedOverlapRejected | src/users/users.service.ts:233 | shifts that meet at one minute are accepted; shifts that overlap are rejected |
| ShiftRules.UnsortedInputIsSorted | src/users/users.service.ts:227-228 | an out-of-order pair is stored in start order |
| UsersService.Authorize | src/users/users.service.ts:215-225 | an admin of the doctor's clinic or the doctor themself may update the shifts; for an admin, a missing clinic reference throws before the identity check |
| UsersService.UpdateShifts | src/users/users.service.ts:207-255 | the errors in source order (404 unknown user, 406 not a doctor, the clinic-comparison throw, 403); success exactly when the shift list is acceptable; only that doctor's shifts change, and they become a sorted permutation of the input |
| UsersService.UpdateShiftsRequest | src/users/dto/time-interval.dto.ts:16-20 | a body whose intervals fail validation is a 400 before the service runs; otherwise it is the service call, and stored shifts always have both ends in the day |
| UsersService.SingleInvertedShiftStored | src/users/users.service.ts:227-253 | a lone inverted shift skips the check and is stored as given |
| Booking.SameDayBooked | src/appointment/appointment.service.ts:139-152 | the day's booked intervals are exactly those of the stored appointments with that doctor and date |
| Booking.LongEnough | src/appointment/appointment.service.ts:270-273 | keeps exactly the free intervals at least as long as the service; if all qualify, the list is unchanged |
| Booking.LongEnoughSingle | src/appointment/appointment.service.ts:270-273 | on a one-interval list the filter keeps the interval exactly when it is long enough |
| Booking.LongEnoughConcat | src/appointment/appointment.service.ts:270-273 | filtering a concatenation is concatenating the filtered parts, so the kept intervals stay in free-list order with their multiplicity |
| Booking.LongEnoughKeepsOrder | src/appointment/appointment.service.ts:270-273 | from 0-50, 60-65, 100-200 with 30 minutes, the filter gives 0-50 then 100-200 |
| Booking.BookAppointment | src/appointment/appointment.service.ts:125-225 | the errors in source order (service, patient, doctor not found; 403 for another user; 412 not assigned; 412 slot unavailable); on success the appointment ends `duration` after it starts, lies inside a free interval, and is the only record added; once every check passes, the booking succeeds exactly when a free interval holds the slot, and is otherwise refused with 412 listing the long-enough free intervals |
| Booking.GetDoctorAvailability | src/appointment/appointment.service.ts:227-275 | the lookups and the assignment check in source order; the result is the free list filtered to the intervals at least as long as the service, in free-list order |
| Booking.SuggestionsAreAvailability | src/appointment/appointment.service.ts:193-207 | the suggestions of a refused booking equal what the availability query returns for that doctor, service and day |
| Booking.BookingIffListedSlot | src/appointment/appointment.service.ts:181-208 | once the checks pass, booking succeeds exactly when some interval the availability query lists contains the requested slot |
| Booking.FreeSlotIsClear | src/appointment/appointment.service.ts:181-193 | with non-overlapping shifts, a slot inside a free interval lies inside a shift and overlaps no booking the subtraction applied |
| Booking.BookedSlotIsFree | src/appointment/appointment.service.ts:181-213 | with non-overlapping shifts, a booked slot lies inside a shift and overlaps no appointment the subtraction took out |
| Booking.BookingKeepsDayFree | src/appointment/appointment.service.ts:181-213 | no double booking: if the day's appointments are non-empty, mutually clear and inside the shifts, a new appointment overlaps none of them and lies inside a shift |
| Booking.SameDayBookedAppend | src/appointment/appointment.service.ts:139-152 | a saved appointment joins its doctor's day listing, at the end, and no other doctor's or day's listing |
| Booking.BookingKeepsDaySound | src/appointment/appointment.service.ts:181-216 | booking a service of positive duration keeps the doctor's day sound: shifts still disjoint, and the day's appointments still non-empty, mutually clear and inside shifts |
| Booking.FreeSlotInDay | src/appointment/appointment.service.ts:181-193 | a slot inside a free interval of validated shifts starts at or after minute 0 and ends by minute 1440 |
| Booking.BookingStaysInDay | src/appointment/appointment.service.ts:181 | with validated shifts a booked appointment starts at or after minute 0 and ends by minute 1440 |
| Booking.FindAppointment | src/appointment/appointment.service.ts:96-110 | the first stored appointment with that id (none before it has the id), or -1 exactly when there is none |
| Booking.AccessCheckIsMayView | src/appointment/appointment.service.ts:111-120 | on the populated references, the permission test throws exactly when the role's comparison reads a missing one, and otherwise approves exactly the appointment's patient, its doctor, or an admin of the doctor's clinic |
| Booking.GetById | src/appointment/appointment.service.ts:95-123 | 404 when no appointment has the id; for the first appointment with the id, a missing reference throws, a permitted viewer gets the appointment, and anyone else gets 403 |
| Booking.MayViewDoesNotThrow | src/appointment/appointment.service.ts:111-120 | a permitted viewer never reaches a missing reference |
| Booking.GetByIdIffMayView | src/appointment/appointment.service.ts:95-123 | for an existing id, reading succeeds exactly for its patient, its doctor or an admin of the doctor's clinic, and returns the first appointment with that id |
| Booking.PopulateMany | src/appointment/appointment.schema.ts:81-91 | a virtual populate without `justOne` gives a list: empty exactly when the user is missing, otherwise holding just that user |
| Booking.GetByIdAsWritten | src/appointment/appointment.service.ts:95-123 | with list-valued `patient`/`doctor`, every existing appointment gives the `toString()` throw for every role; a missing id is 404 |
| Booking.OwnPatientRefusedAsWritten | src/appointment/appointment.service.ts:113-114 | an appointment's own patient gets the throw from the as-written read but the appointment from the corrected one |
| Booking.BookAppointmentAsWritten | src/appointment/appointment.schema.ts:73 | with the unique index on `name` and `clinicId` in force, a booking that passes every check is saved only into an empty appointment store; otherwise the save fails with a duplicate key, reported as 500; every earlier outcome is unchanged |
| Booking.SuggestionMessage | src/appointment/appointment.service.ts:202-206 | the text is "Pick another day." exactly when no interval is suggested |
| ClinicServices.IndexOf | src/clinic-services/clinic-service.service.ts:184 | `findIndex`: the first position of the id, or -1 exactly when it is absent |
| ClinicServices.SpliceOne | src/clinic-services/clinic-service.service.ts:189-193 | `splice(i, 1)` removes position i and exactly one copy of its element; `splice(-1, 1)` removes the last element |
| ClinicServices.RemoveOnly | src/clinic-services/clinic-service.service.ts:189-193 | removing an element that occurs once takes out that element and keeps every other one |
| ClinicServices.AppendThenRemove | src/clinic-services/clinic-service.service.ts:144-145 | an element pushed onto a list it was absent from is found at the end and splicing it out restores the list |
| ClinicServices.CreateService | src/clinic-services/clinic-service.service.ts:88-112 | checks in order: duration, 404 unknown clinic, 403 not its admin, 400 unknown category, 409 same name in the clinic; once the first four pass, success exactly when the name is free in the clinic; success adds exactly one service under the fresh id, with no doctors |
| ClinicServices.CreateKeepsInvariants | src/clinic-services/clinic-service.service.ts:88-112 | creating keeps records under their own ids, one service per name in a clinic, and the assignment lists in agreement |
| ClinicServices.ClinicGuard | src/clinic-services/clinic-service.service.ts:132-138 | passes exactly when the service and the doctor both belong to the actor's clinic; throws when the actor's clinic reference is missing, or when the doctor's is and the service matches |
| ClinicServices.LoadPair | src/clinic-services/clinic-service.service.ts:163-182 | doctor lookup (404 "User"), then service lookup (404), then the clinic guard |
| ClinicServices.AssignDoctor | src/clinic-services/clinic-service.service.ts:114-156 | 409 exactly when the doctor is already on the service; once the lookups and the clinic guard pass and the doctor is not yet on it, the assignment succeeds and each side gets the other's id appended |
| ClinicServices.UnassignDoctorAsWritten | src/clinic-services/clinic-service.service.ts:158-204 | 409 exactly when the doctor is not on the service; once the lookups and the clinic guard pass and the doctor is on it, the unassignment succeeds; when the doctor's list lacks the service, the doctor's last service is dropped |
| ClinicServices.UnassignDoctor | src/clinic-services/clinic-service.service.ts:158-204 | 409 exactly when the doctor is not on the service; once the lookups and the clinic guard pass and the doctor is on it, the unassignment succeeds; the doctor leaves the service's list; if the doctor's list holds the service, its first occurrence is spliced out (one copy fewer), else the list is unchanged; nothing else changes |
| ClinicServices.AsWrittenAgreesWhenConsistent | src/clinic-services/clinic-service.service.ts:190-193 | while the two assignment lists agree, the guard as written behaves like the intended one |
| ClinicServices.AsWrittenDropsUnrelatedService | src/clinic-services/clinic-service.service.ts:193 | a doctor listed on s1 whose own list holds only s2 loses s2 when unassigned from s1 |
| ClinicServices.AssignKeepsConsistent | src/clinic-services/clinic-service.service.ts:143-148 | assigning keeps the two lists in agreement and free of duplicates |
| ClinicServices.UnassignShape | src/clinic-services/clinic-service.service.ts:188-193 | the two splices a successful unassign performs |
| ClinicServices.RemovePairKeepsConsistent | src/clinic-services/clinic-service.service.ts:188-196 | taking a doctor out of a service's list and that service out of the doctor's list keeps agreeing, duplicate-free lists in agreement |
| ClinicServices.UnassignKeepsConsistent | src/clinic-services/clinic-service.service.ts:188-196 | unassigning keeps the two lists in agreement and free of duplicates |
| ClinicServices.AssignUnassignRoundTrip | src/clinic-services/clinic-service.service.ts:114-204 | assigning then unassigning the same pair gives back the original store |
| Scenarios.OneBookedInterval | src/appointment/appointment.service.ts:139-152 | a single stored appointment lists exactly its own interval for its doctor and day |
| Scenarios.OneSubtraction | src/appointment/appointment.service.ts:284-305 | with one booking the loop runs once |
| Scenarios.FirstBookingTaken | src/appointment/appointment.service.ts:181-224 | with one 0-120 shift and a 30-minute service, the whole shift is listed and a booking at 0 creates 0-30 |
| Scenarios.SecondBookingRefused | src/appointment/appointment.service.ts:193-207 | after that, the listing is 30-120 and a second booking at 0 is refused with 30-120 suggested |
| Scenarios.SecondBookingRejectedAsWritten | src/appointment/appointment.service.ts:210-220 | after a 0-30 booking, a 30-60 booking fits the free list, yet with the unique index in force its save is refused as a duplicate key |
| Scenarios.NoRoomThatDay | src/appointment/appointment.service.ts:193-207 | with 20-40 booked in a 0-60 shift, no remainder fits 30 minutes, so the refusal suggests nothing and says "Pick another day." |
| Scenarios.DoubleBookingAfterShiftChange | src/appointment/appointment.service.ts:290 | after a shift is shortened below an existing appointment, that appointment is skipped and, without the appointments' unique index, an overlapping booking is accepted |

## Left out

- Persistence, sessions and transactions. A committed transaction is one
  store update, and an aborted one is an `Err` with the store unchanged.
- Calendar arithmetic on dates (`moment` start and end of day). A day is an
  integer key.
- Database id generation. The new id is a parameter.
- The populated records returned by `getById` and `assignDoctor`. These
  functions return the stored records.
- Populate semantics of the read path beyond the list-or-single distinction
  of the Findings row. The corrected `Booking.GetById` treats `patient` and
  `doctor` as single-document lookups that are absent when the user does not
  exist.
- `getAll`/`findAll` listings, text search and filters. They are outside the
  booking core.
- The `src/ap` copy of the services module, clinics, scheduled tasks,
  authentication, role guards, controllers and password rules. They are not
  part of the core.
- The appointment controller's create route. It calls a `create` method the
  appointment service does not define. Booking is modelled as
  `bookAppointment`.
- The unique index on appointments (src/appointment/appointment.schema.ts:73)
  appears only in `Booking.BookAppointmentAsWritten` and the Findings row.
  Every other booking member models the store without it, as evidently
  intended.
- ClinicServices.CreateService: the 20-120 minute duration bounds come from
  src/ap/dto/create-service.dto.ts:23-26. The clinic-services request DTO is
  not part of this model. The name-and-clinic uniqueness comes from the unique
  index at src/clinic-services/clinic-service.schema.ts:58, and is checked
  before the write rather than reported by the database.
- Booking.BookedSlotIsFree: stated only for appointments the subtraction
  applied. An appointment that no longer fits any shift is skipped, so a new
  booking may overlap it (Scenarios.DoubleBookingAfterShiftChange).
- Booking.BookingKeepsDayFree: holds only when the day's appointments lie
  inside the current shifts and do not overlap each other. The source
  re-checks neither when shifts change.
- Booking.BookingKeepsDayFree: bookings are applied one after another.
  Concurrent bookings are not modelled. In the source each booking
  transaction reads the day's appointments and then inserts a new document.
  With the appointment unique index built, the second of two such inserts
  fails on a duplicate key, as every insert after the first does. Without
  that index nothing in the source makes two such transactions for the same
  doctor and day conflict.
- Booking.SuggestionMessage: the comma-joined suggestion text is modelled,
  but only its empty/non-empty distinction is stated.

## Findings

| source | as written | input that shows it | evidently intended | confidence | as-written member | corrected member |
|---|---|---|---|---|---|---|
| src/clinic-services/clinic-service.service.ts:193 | `if (idx > -1) doctor.serviceIds.splice(serviceIdx, 1)`. This tests the service-side index, which is always found at that point. | The doctor is listed on service s1. The doctor's own list is `["s2"]`. Unassigning from s1 gives `serviceIdx = -1`, so `splice(-1, 1)` removes s2. | `if (serviceIdx > -1)`: remove the back-reference only when it exists. | not executed | ClinicServices.AsWrittenDropsUnrelatedService | ClinicServices.UnassignKeepsConsistent |
| src/appointment/appointment.schema.ts:81-91 | The `doctor` and `patient` virtuals are declared without `justOne: true`, unlike src/users/user.schema.ts:91. Populating them therefore gives arrays, and `appointment.patient._id`, `appointment.doctor._id` and `appointment.doctor.clinicId` at src/appointment/appointment.service.ts:114-118 are undefined. | Any existing appointment, read by its own patient: `appointment.patient._id.toString()` throws. | `justOne: true` on both virtuals, so the patient, the doctor and the doctor's clinic admin can read the appointment. | not executed; follows the library's documented default for virtual populate | Booking.OwnPatientRefusedAsWritten | Booking.GetByIdIffMayView |
| src/appointment/appointment.schema.ts:73 | `AppointmentSchema.index({ name: 1, clinicId: 1 }, { unique: true })`. Appointments have neither field. MongoDB indexes a missing field as null, so every appointment has the same key. Mongoose builds declared indexes by default, and src/app.module.ts does not turn that off. | A 0-30 appointment is stored. A booking of 30-60 for the same doctor and day fits the free list, but its `save` at src/appointment/appointment.service.ts:216 is refused as a duplicate key. The service rethrows the error unmapped, so the client gets 500. | No unique index on appointments, so any booking that passes the checks is saved. | not executed; follows MongoDB's documented handling of missing fields in a non-sparse unique index | Scenarios.SecondBookingRejectedAsWritten | Booking.BookingIffListedSlot |
