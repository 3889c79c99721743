/** Booking an appointment, listing a doctor's availability, and reading one
    appointment back. The free intervals are recomputed from the doctor's
    current shifts and that day's stored appointments on every request. */
module Booking {
  import opened Intervals
  import opened Domain
  import opened Availability

  datatype BookingRequest = BookingRequest(
    startsAt: int,
    date: Day,
    serviceId: Id,
    doctorId: Id,
    patientId: Id)

  /** The doctor's appointments on `date`, in store order, as intervals. */
  function SameDayBooked(apps: seq<Appointment>, doctorId: Id, date: Day): (r: seq<TimeInterval>)
    ensures |r| <= |apps|
    ensures forall t | t in r :: exists a | a in apps ::
              a.doctorId == doctorId && a.date == date && AppointmentInterval(a) == t
    ensures forall a | a in apps && a.doctorId == doctorId && a.date == date :: AppointmentInterval(a) in r
  {
    if apps == [] then []
    else
      var rest := SameDayBooked(apps[1..], doctorId, date);
      assert forall a | a in apps[1..] :: a in apps;
      assert apps == [apps[0]] + apps[1..];
      if apps[0].doctorId == doctorId && apps[0].date == date then
        [AppointmentInterval(apps[0])] + rest
      else
        rest
  }

  /** Free intervals of `doctor` (stored under `doctorId`) on `date`. */
  function FreeIntervals(st: Store, doctor: User, doctorId: Id, date: Day): seq<TimeInterval> {
    AvailableIntervals(doctor.shifts, SameDayBooked(st.appointments, doctorId, date))
  }

  /** The free intervals at least `duration` long, in free-list order. */
  function LongEnough(free: seq<TimeInterval>, duration: int): (r: seq<TimeInterval>)
    ensures |r| <= |free|
    ensures forall x | x in r :: x in free && Length(x) >= duration
    ensures forall x | x in free && Length(x) >= duration :: x in r
    ensures (forall x | x in free :: Length(x) >= duration) ==> r == free
  {
    if free == [] then []
    else
      var rest := LongEnough(free[1..], duration);
      assert free == [free[0]] + free[1..];
      if Length(free[0]) >= duration then [free[0]] + rest else rest
  }

  /** On one interval the filter keeps it exactly when it is long enough. */
  lemma LongEnoughSingle(x: TimeInterval, duration: int)
    ensures LongEnough([x], duration) == if Length(x) >= duration then [x] else []
  {
    assert [x][1..] == [];
  }

  /** The filter distributes over concatenation, so together with
      `LongEnoughSingle` it keeps the long-enough intervals in free-list
      order and with their multiplicity. */
  lemma {:induction false} LongEnoughConcat(a: seq<TimeInterval>, b: seq<TimeInterval>, duration: int)
    ensures LongEnough(a + b, duration) == LongEnough(a, duration) + LongEnough(b, duration)
  {
    if a == [] {
      assert a + b == b;
    } else {
      assert (a + b)[0] == a[0] && (a + b)[1..] == a[1..] + b;
      LongEnoughConcat(a[1..], b, duration);
    }
  }

  /** A short interval between two long ones drops out; the others stay in order. */
  lemma LongEnoughKeepsOrder()
    ensures LongEnough([TimeInterval(0, 50), TimeInterval(60, 65), TimeInterval(100, 200)], 30)
         == [TimeInterval(0, 50), TimeInterval(100, 200)]
  {
    var x, y, z := TimeInterval(0, 50), TimeInterval(60, 65), TimeInterval(100, 200);
    assert [x, y, z] == [x] + [y] + [z];
    LongEnoughConcat([x] + [y], [z], 30);
    LongEnoughConcat([x], [y], 30);
    LongEnoughSingle(x, 30);
    LongEnoughSingle(y, 30);
    LongEnoughSingle(z, 30);
  }

  /** The interval a request asks for. */
  function Slot(startsAt: int, duration: int): TimeInterval {
    TimeInterval(startsAt, startsAt + duration)
  }

  /** `bookAppointment`: the lookups, then the actor check, then the
      assignment check, then the slot search. The created appointment is
      appended to the store as one write. */
  function BookAppointment(st: Store, actor: User, req: BookingRequest, newId: Id): (r: Result<(Store, Appointment)>)
    ensures req.serviceId !in st.services ==> r == Err(NotFound("Clinic Service"))
    ensures req.serviceId in st.services && req.patientId !in st.users ==>
              r == Err(NotFound("User \"patient\""))
    ensures req.serviceId in st.services && req.patientId in st.users && req.doctorId !in st.users ==>
              r == Err(NotFound("User \"doctor\""))
    ensures req.serviceId in st.services && req.patientId in st.users && req.doctorId in st.users ==>
              && (actor.id != req.patientId ==> r == Err(Forbidden))
              && (actor.id == req.patientId && req.doctorId !in st.services[req.serviceId].doctorIds ==>
                    r == Err(NotAssigned))
    ensures r.Ok? ==>
              && req.serviceId in st.services && req.doctorId in st.users
              && var service := st.services[req.serviceId];
              && var free := FreeIntervals(st, st.users[req.doctorId], req.doctorId, req.date);
              && var a := r.value.1;
              && actor.id == req.patientId
              && req.doctorId in service.doctorIds
              && a == Appointment(newId, req.startsAt, req.startsAt + service.duration, req.date,
                                  req.serviceId, req.doctorId, req.patientId)
              && (exists f | f in free :: Contains(f, AppointmentInterval(a)))
              && r.value.0 == st.(appointments := st.appointments + [a])
    ensures r.Err? && r.error.SlotUnavailable? ==>
              && req.serviceId in st.services && req.doctorId in st.users
              && var service := st.services[req.serviceId];
              && var free := FreeIntervals(st, st.users[req.doctorId], req.doctorId, req.date);
              && actor.id == req.patientId
              && req.doctorId in service.doctorIds
              && (forall f | f in free :: !Contains(f, Slot(req.startsAt, service.duration)))
              && r.error.suggestions == LongEnough(free, service.duration)
    ensures req.serviceId in st.services && req.patientId in st.users && req.doctorId in st.users
            && actor.id == req.patientId && req.doctorId in st.services[req.serviceId].doctorIds ==>
              var service := st.services[req.serviceId];
              var free := FreeIntervals(st, st.users[req.doctorId], req.doctorId, req.date);
              && ((forall f | f in free :: !Contains(f, Slot(req.startsAt, service.duration))) ==>
                    r == Err(SlotUnavailable(LongEnough(free, service.duration))))
              && ((exists f | f in free :: Contains(f, Slot(req.startsAt, service.duration))) ==> r.Ok?)
  {
    if req.serviceId !in st.services then Err(NotFound("Clinic Service"))
    else if req.patientId !in st.users then Err(NotFound("User \"patient\""))
    else if req.doctorId !in st.users then Err(NotFound("User \"doctor\""))
    else if actor.id != req.patientId then Err(Forbidden)
    else
      var service := st.services[req.serviceId];
      if req.doctorId !in service.doctorIds then Err(NotAssigned)
      else
        var endsAt := req.startsAt + service.duration;
        var free := FreeIntervals(st, st.users[req.doctorId], req.doctorId, req.date);
        var k := FindContaining(free, TimeInterval(req.startsAt, endsAt));
        if k < 0 then
          Err(SlotUnavailable(LongEnough(free, service.duration)))
        else
          var a := Appointment(newId, req.startsAt, endsAt, req.date, req.serviceId, req.doctorId, req.patientId);
          assert free[k] in free;
          Ok((st.(appointments := st.appointments + [a]), a))
  }

  /** `getDoctorAvailability`: the same lookups and assignment check without
      a patient or actor, returning the long-enough free intervals. */
  function GetDoctorAvailability(st: Store, serviceId: Id, doctorId: Id, date: Day): (r: Result<seq<TimeInterval>>)
    ensures serviceId !in st.services ==> r == Err(NotFound("Clinic Service"))
    ensures serviceId in st.services && doctorId !in st.users ==> r == Err(NotFound("User \"doctor\""))
    ensures serviceId in st.services && doctorId in st.users && doctorId !in st.services[serviceId].doctorIds ==>
              r == Err(NotAssigned)
    ensures r.Ok? ==>
              && serviceId in st.services && doctorId in st.users
              && doctorId in st.services[serviceId].doctorIds
              && var free := FreeIntervals(st, st.users[doctorId], doctorId, date);
              && (forall x | x in r.value :: x in free && Length(x) >= st.services[serviceId].duration)
              && (forall x | x in free && Length(x) >= st.services[serviceId].duration :: x in r.value)
              && r.value == LongEnough(free, st.services[serviceId].duration)
  {
    if serviceId !in st.services then Err(NotFound("Clinic Service"))
    else if doctorId !in st.users then Err(NotFound("User \"doctor\""))
    else
      var service := st.services[serviceId];
      if doctorId !in service.doctorIds then Err(NotAssigned)
      else Ok(LongEnough(FreeIntervals(st, st.users[doctorId], doctorId, date), service.duration))
  }

  // ---------------------------------------------------------------------------
  // Relating booking to availability

  /** A failed slot search reports exactly what the availability query lists. */
  lemma SuggestionsAreAvailability(st: Store, actor: User, req: BookingRequest, newId: Id)
    requires BookAppointment(st, actor, req, newId).Err?
    requires BookAppointment(st, actor, req, newId).error.SlotUnavailable?
    ensures GetDoctorAvailability(st, req.serviceId, req.doctorId, req.date)
         == Ok(BookAppointment(st, actor, req, newId).error.suggestions)
  {
  }

  /** Once the lookups and the actor check pass, booking succeeds exactly when
      some interval the availability query lists contains the requested slot. */
  lemma BookingIffListedSlot(st: Store, actor: User, req: BookingRequest, newId: Id)
    requires req.serviceId in st.services && req.patientId in st.users && req.doctorId in st.users
    requires actor.id == req.patientId
    requires req.doctorId in st.services[req.serviceId].doctorIds
    ensures GetDoctorAvailability(st, req.serviceId, req.doctorId, req.date).Ok?
    ensures var listed := GetDoctorAvailability(st, req.serviceId, req.doctorId, req.date).value;
            var slot := Slot(req.startsAt, st.services[req.serviceId].duration);
            BookAppointment(st, actor, req, newId).Ok? <==> exists f | f in listed :: Contains(f, slot)
  {
    var service := st.services[req.serviceId];
    var free := FreeIntervals(st, st.users[req.doctorId], req.doctorId, req.date);
    var listed := GetDoctorAvailability(st, req.serviceId, req.doctorId, req.date).value;
    var slot := Slot(req.startsAt, service.duration);
    if BookAppointment(st, actor, req, newId).Ok? {
      var f :| f in free && Contains(f, slot);
      assert Length(f) >= service.duration;
      assert f in listed;
    } else {
      assert BookAppointment(st, actor, req, newId).error.SlotUnavailable?;
      forall f | f in listed
        ensures !Contains(f, slot)
      {
        assert f in free;
      }
    }
  }

  /** What a successful booking guarantees about its slot when the day's
      stored appointments are well ordered and the doctor's shifts do not
      overlap: the slot lies inside one of the doctor's shifts and overlaps
      none of the appointments the subtraction took out. */
  lemma BookedSlotIsFree(st: Store, actor: User, req: BookingRequest, newId: Id)
    requires BookAppointment(st, actor, req, newId).Ok?
    requires req.doctorId in st.users
    requires PairwiseDisjoint(st.users[req.doctorId].shifts)
    requires forall b | b in SameDayBooked(st.appointments, req.doctorId, req.date) :: Ordered(b)
    ensures var doctor := st.users[req.doctorId];
            var slot := AppointmentInterval(BookAppointment(st, actor, req, newId).value.1);
            var booked := SameDayBooked(st.appointments, req.doctorId, req.date);
            && (exists s | s in doctor.shifts :: Contains(s, slot))
            && (forall b | b in Applied(doctor.shifts, booked) :: !Overlaps(slot, b))
  {
    var a := BookAppointment(st, actor, req, newId).value.1;
    FreeSlotIsClear(st.users[req.doctorId].shifts, SameDayBooked(st.appointments, req.doctorId, req.date),
                    AppointmentInterval(a));
  }

  /** A slot inside a free interval lies inside a shift and, when the shifts
      do not overlap, clear of every booking the subtraction applied. */
  lemma FreeSlotIsClear(shifts: seq<TimeInterval>, booked: seq<TimeInterval>, slot: TimeInterval)
    requires PairwiseDisjoint(shifts)
    requires forall b | b in booked :: Ordered(b)
    requires exists f | f in AvailableIntervals(shifts, booked) :: Contains(f, slot)
    ensures exists s | s in shifts :: Contains(s, slot)
    ensures forall b | b in Applied(shifts, booked) :: !Overlaps(slot, b)
  {
    var f :| f in AvailableIntervals(shifts, booked) && Contains(f, slot);
    AvailableWithinShifts(shifts, booked);
    var s :| s in shifts && Contains(s, f);
    assert Contains(s, slot);
    AvailableMissesApplied(shifts, booked);
    forall b | b in Applied(shifts, booked)
      ensures !Overlaps(slot, b)
    {
      ContainedMisses(f, slot, b);
    }
  }

  /** A doctor's day is sound when the shifts do not overlap and the day's
      appointments are non-empty, overlap no other and each lie inside a
      shift. */
  predicate DaySound(st: Store, doctorId: Id, date: Day) {
    && doctorId in st.users
    && PairwiseDisjoint(st.users[doctorId].shifts)
    && var booked := SameDayBooked(st.appointments, doctorId, date);
    && (forall b | b in booked :: NonEmpty(b))
    && PairwiseDisjoint(booked)
    && CoveredBy(booked, st.users[doctorId].shifts)
  }

  /** The no-double-booking guarantee, under the condition that makes it hold:
      every stored appointment of that doctor and day is non-empty, lies inside
      a current shift, and overlaps no other. Then the new appointment overlaps
      none of them and lies inside a shift, so the condition is kept for the
      day's list with the new appointment added. */
  lemma BookingKeepsDayFree(st: Store, actor: User, req: BookingRequest, newId: Id)
    requires BookAppointment(st, actor, req, newId).Ok?
    requires DaySound(st, req.doctorId, req.date)
    ensures var slot := AppointmentInterval(BookAppointment(st, actor, req, newId).value.1);
            && (exists s | s in st.users[req.doctorId].shifts :: Contains(s, slot))
            && forall b | b in SameDayBooked(st.appointments, req.doctorId, req.date) :: !Overlaps(slot, b)
  {
    var booked := SameDayBooked(st.appointments, req.doctorId, req.date);
    AllApplied(st.users[req.doctorId].shifts, booked);
    BookedSlotIsFree(st, actor, req, newId);
  }

  /** Appending an appointment extends that doctor's day listing by its
      interval exactly when it is for that doctor and day. */
  lemma {:induction false} SameDayBookedAppend(apps: seq<Appointment>, a: Appointment, doctorId: Id, date: Day)
    ensures SameDayBooked(apps + [a], doctorId, date)
         == SameDayBooked(apps, doctorId, date)
            + (if a.doctorId == doctorId && a.date == date then [AppointmentInterval(a)] else [])
  {
    if apps == [] {
      assert [] + [a] == [a] && [a][1..] == [];
    } else {
      assert (apps + [a])[1..] == apps[1..] + [a];
      SameDayBookedAppend(apps[1..], a, doctorId, date);
    }
  }

  /** Soundness of a doctor's day is an invariant of booking with a service
      of positive duration: the new appointment joins the day's listing
      without breaking any of its conditions. */
  lemma BookingKeepsDaySound(st: Store, actor: User, req: BookingRequest, newId: Id)
    requires BookAppointment(st, actor, req, newId).Ok?
    requires DaySound(st, req.doctorId, req.date)
    ensures st.services[req.serviceId].duration > 0 ==>
              DaySound(BookAppointment(st, actor, req, newId).value.0, req.doctorId, req.date)
  {
    var (st', a) := BookAppointment(st, actor, req, newId).value;
    var shifts := st.users[req.doctorId].shifts;
    var booked := SameDayBooked(st.appointments, req.doctorId, req.date);
    var slot := AppointmentInterval(a);
    BookingKeepsDayFree(st, actor, req, newId);
    SameDayBookedAppend(st.appointments, a, req.doctorId, req.date);
    assert SameDayBooked(st'.appointments, req.doctorId, req.date) == booked + [slot];
    assert st'.users == st.users;
    DisjointAppend(booked, [slot]);
  }

  /** A slot inside a free interval of validated shifts lies within the day. */
  lemma FreeSlotInDay(shifts: seq<TimeInterval>, booked: seq<TimeInterval>, slot: TimeInterval)
    requires forall s | s in shifts :: IsValidDto(s)
    requires forall b | b in booked :: Ordered(b)
    requires exists f | f in AvailableIntervals(shifts, booked) :: Contains(f, slot)
    ensures 0 <= slot.startsAt && slot.endsAt <= MinutesPerDay
  {
    var f :| f in AvailableIntervals(shifts, booked) && Contains(f, slot);
    AvailableWithinShifts(shifts, booked);
    var s :| s in shifts && Contains(s, f);
    assert IsValidDto(s);
  }

  /** With request-validated shifts the booked slot can never run past the
      end of the day, even though the end minute itself is not validated. */
  lemma BookingStaysInDay(st: Store, actor: User, req: BookingRequest, newId: Id)
    requires BookAppointment(st, actor, req, newId).Ok?
    requires req.doctorId in st.users
    requires forall s | s in st.users[req.doctorId].shifts :: IsValidDto(s)
    requires forall b | b in SameDayBooked(st.appointments, req.doctorId, req.date) :: Ordered(b)
    ensures var a := BookAppointment(st, actor, req, newId).value.1;
            0 <= a.startsAt && a.endsAt <= MinutesPerDay
  {
    var a := BookAppointment(st, actor, req, newId).value.1;
    FreeSlotInDay(st.users[req.doctorId].shifts, SameDayBooked(st.appointments, req.doctorId, req.date),
                  AppointmentInterval(a));
  }

  // ---------------------------------------------------------------------------
  // Reading an appointment

  /** Index of the first stored appointment with `id`, or -1. */
  function FindAppointment(apps: seq<Appointment>, id: Id): (k: int)
    ensures -1 <= k < |apps|
    ensures k >= 0 ==> apps[k].id == id && forall j :: 0 <= j < k ==> apps[j].id != id
    ensures k == -1 <==> forall i :: 0 <= i < |apps| ==> apps[i].id != id
    decreases |apps|
  {
    if apps == [] then -1
    else if apps[0].id == id then 0
    else
      var k := FindAppointment(apps[1..], id);
      if k < 0 then -1 else k + 1
  }

  /** Whether the populated patient/doctor records are present. The role's
      own comparison dereferences one of them; a missing one throws. */
  predicate ViewThrows(st: Store, actor: User, a: Appointment) {
    || (actor.role == Patient && a.patientId !in st.users)
    || (actor.role == Doctor && a.doctorId !in st.users)
    || (actor.role == ClinicAdmin &&
          (a.doctorId !in st.users || st.users[a.doctorId].clinicId.None? || actor.clinicId.None?))
  }

  /** Who may read an appointment: its patient, its doctor, or an admin of
      the doctor's clinic. */
  predicate MayView(st: Store, actor: User, a: Appointment) {
    || (actor.role == Patient && a.patientId in st.users && st.users[a.patientId].id == actor.id)
    || (actor.role == Doctor && a.doctorId in st.users && st.users[a.doctorId].id == actor.id)
    || (actor.role == ClinicAdmin && a.doctorId in st.users && actor.clinicId.Some?
          && st.users[a.doctorId].clinicId == actor.clinicId)
  }

  /** The permission test of the read path, on the three values it reads:
      the populated patient's `_id`, the populated doctor's `_id` and the
      populated doctor's `clinicId`. Each comparison calls `toString()` on
      both sides, so an undefined value throws. */
  function AccessCheck(actor: User, patientRef: Option<Id>, doctorRef: Option<Id>, doctorClinic: Option<Id>)
    : (r: Result<bool>)
    ensures actor.role == Patient ==> r == SameRef(patientRef, Some(actor.id))
    ensures actor.role == Doctor ==> r == SameRef(doctorRef, Some(actor.id))
    ensures actor.role == ClinicAdmin ==> r == SameRef(doctorClinic, actor.clinicId)
  {
    match actor.role
    case Patient => SameRef(patientRef, Some(actor.id))
    case Doctor => SameRef(doctorRef, Some(actor.id))
    case ClinicAdmin => SameRef(doctorClinic, actor.clinicId)
  }

  /** The response to a permission outcome: a throw propagates, a refusal is
      403, an approval returns the appointment. */
  function Decide(a: Appointment, allowed: Result<bool>): (r: Result<Appointment>)
    ensures allowed.Err? ==> r == Err(allowed.error)
    ensures allowed == Ok(true) <==> r == Ok(a)
    ensures allowed == Ok(false) ==> r == Err(Forbidden)
  {
    match allowed
    case Err(e) => Err(e)
    case Ok(b) => if b then Ok(a) else Err(Forbidden)
  }

  /** A single-document populate: the matching user, or nothing. */
  function PopulateOne(st: Store, userId: Id): Option<User> {
    if userId in st.users then Some(st.users[userId]) else None
  }

  function RefId(u: Option<User>): Option<Id> {
    if u.Some? then Some(u.value.id) else None
  }

  function RefClinic(u: Option<User>): Option<Id> {
    if u.Some? then u.value.clinicId else None
  }

  function GetById(st: Store, actor: User, id: Id): (r: Result<Appointment>)
    ensures (forall a | a in st.appointments :: a.id != id) ==> r == Err(NotFound("Appointment"))
    ensures r.Ok? ==> r.value in st.appointments && r.value.id == id && MayView(st, actor, r.value)
    ensures r.Err? && r.error == Forbidden ==>
              exists a | a in st.appointments :: a.id == id && !MayView(st, actor, a) && !ViewThrows(st, actor, a)
    ensures r.Err? && r.error == TypeError ==>
              exists a | a in st.appointments :: a.id == id && ViewThrows(st, actor, a)
    ensures (exists a | a in st.appointments :: a.id == id) ==> r.Ok? || r.error != NotFound("Appointment")
    ensures var k := FindAppointment(st.appointments, id);
            k >= 0 ==>
              var a := st.appointments[k];
              && (ViewThrows(st, actor, a) ==> r == Err(TypeError))
              && (!ViewThrows(st, actor, a) && MayView(st, actor, a) ==> r == Ok(a))
              && (!ViewThrows(st, actor, a) && !MayView(st, actor, a) ==> r == Err(Forbidden))
  {
    var k := FindAppointment(st.appointments, id);
    if k < 0 then Err(NotFound("Appointment"))
    else
      var a := st.appointments[k];
      Decide(a, AccessCheck(actor, RefId(PopulateOne(st, a.patientId)), RefId(PopulateOne(st, a.doctorId)),
                            RefClinic(PopulateOne(st, a.doctorId))))
  }

  /** On the references a single-document populate yields, the permission
      test throws exactly when `ViewThrows` holds and otherwise approves
      exactly the viewers `MayView` admits. */
  lemma AccessCheckIsMayView(st: Store, actor: User, a: Appointment)
    ensures var doctor := PopulateOne(st, a.doctorId);
            var r := AccessCheck(actor, RefId(PopulateOne(st, a.patientId)), RefId(doctor), RefClinic(doctor));
            && (r.Err? <==> ViewThrows(st, actor, a))
            && (r.Ok? ==> (r.value <==> MayView(st, actor, a)))
  {
  }

  /** Whoever may view an appointment never hits a missing reference. */
  lemma MayViewDoesNotThrow(st: Store, actor: User, a: Appointment)
    requires MayView(st, actor, a)
    ensures !ViewThrows(st, actor, a)
  {
  }

  /** For an id that exists, reading succeeds exactly for the viewers
      `MayView` admits, and then returns the first appointment with that id. */
  lemma GetByIdIffMayView(st: Store, actor: User, id: Id)
    requires exists a | a in st.appointments :: a.id == id
    ensures var a := st.appointments[FindAppointment(st.appointments, id)];
            && (GetById(st, actor, id).Ok? <==> MayView(st, actor, a))
            && (GetById(st, actor, id).Ok? ==> GetById(st, actor, id).value == a)
  {
    var k := FindAppointment(st.appointments, id);
    var a :| a in st.appointments && a.id == id;
    var i :| 0 <= i < |st.appointments| && st.appointments[i] == a;
    assert k >= 0;
    if MayView(st, actor, st.appointments[k]) {
      MayViewDoesNotThrow(st, actor, st.appointments[k]);
    }
  }

  /** The users a virtual populate without `justOne` yields: a list holding
      the matching user, if any. */
  function PopulateMany(st: Store, userId: Id): (us: seq<User>)
    ensures |us| <= 1
    ensures us == [] <==> userId !in st.users
    ensures forall u | u in us :: u == st.users[userId]
  {
    if userId in st.users then [st.users[userId]] else []
  }

  /** A user field (`_id`, `clinicId`) read off such a list: a list has
      neither, so the read is undefined whatever the list holds. */
  function UserFieldOfList(us: seq<User>): Option<Id> {
    None
  }

  /** `getById` as written: the appointment's `patient` and `doctor` virtuals
      are declared without `justOne`, so populating them gives lists, and the
      permission check's `_id`/`clinicId` reads are undefined. Every role
      reaches a `toString()` on one of them and throws. */
  function GetByIdAsWritten(st: Store, actor: User, id: Id): (r: Result<Appointment>)
    ensures FindAppointment(st.appointments, id) < 0 ==> r == Err(NotFound("Appointment"))
    ensures FindAppointment(st.appointments, id) >= 0 ==> r == Err(TypeError)
  {
    var k := FindAppointment(st.appointments, id);
    if k < 0 then Err(NotFound("Appointment"))
    else
      var a := st.appointments[k];
      var patients := PopulateMany(st, a.patientId);
      var doctors := PopulateMany(st, a.doctorId);
      Decide(a, AccessCheck(actor, UserFieldOfList(patients), UserFieldOfList(doctors),
                            UserFieldOfList(doctors)))
  }

  /** The appointment's own patient is refused by the as-written read, while
      the corrected read returns the appointment. */
  lemma OwnPatientRefusedAsWritten()
    ensures var p := User("p", Patient, None, [], []);
            var a := Appointment("a1", 0, 30, 1, "s", "d", "p");
            var st := Store(map["p" := p], map[], map[], [a]);
            && GetByIdAsWritten(st, p, "a1") == Err(TypeError)
            && GetById(st, p, "a1") == Ok(a)
  {
    var a := Appointment("a1", 0, 30, 1, "s", "d", "p");
    assert FindAppointment([a], "a1") == 0;
  }

  // ---------------------------------------------------------------------------
  // The appointments' unique index

  /** The key of the unique index declared on appointments, over `name` and
      `clinicId`. An appointment has neither field, and the database indexes
      a missing field as null, so every appointment has the same key. */
  function IndexKey(a: Appointment): (Option<string>, Option<Id>) {
    (None, None)
  }

  /** `bookAppointment` with that index in force: after every check passes,
      the save is refused as a duplicate key when a stored appointment has
      the new one's key, and the error escapes unmapped. */
  function BookAppointmentAsWritten(st: Store, actor: User, req: BookingRequest, newId: Id)
    : (r: Result<(Store, Appointment)>)
    ensures BookAppointment(st, actor, req, newId).Err? ==> r == BookAppointment(st, actor, req, newId)
    ensures BookAppointment(st, actor, req, newId).Ok? ==>
              && (r.Ok? <==> st.appointments == [])
              && (r.Err? ==> r.error == DuplicateKey)
    ensures r.Ok? ==> r == BookAppointment(st, actor, req, newId)
  {
    var (st', a) :- BookAppointment(st, actor, req, newId);
    assert st.appointments != [] ==> IndexKey(st.appointments[0]) == IndexKey(a);
    if exists b | b in st.appointments :: IndexKey(b) == IndexKey(a) then Err(DuplicateKey)
    else Ok((st', a))
  }

  // ---------------------------------------------------------------------------
  // Concrete behaviour

  /** The failure text for a slot that does not fit. */
  function SuggestionMessage(suggestions: seq<TimeInterval>): (m: string)
    ensures m == "Pick another day." <==> suggestions == []
  {
    if suggestions == [] then "Pick another day."
    else "available time intervals : " + JoinIntervals(suggestions)
  }

  function JoinIntervals(ts: seq<TimeInterval>): string
    requires ts != []
    decreases |ts|
  {
    if |ts| == 1 then FormatInterval(ts[0])
    else FormatInterval(ts[0]) + "," + JoinIntervals(ts[1..])
  }

  function FormatInterval(t: TimeInterval): string {
    "(" + IntToString(t.startsAt) + "," + IntToString(t.endsAt) + ")"
  }

  function IntToString(n: int): string {
    if n < 0 then "-" + NatToString(-n) else NatToString(n)
  }

  function NatToString(n: nat): string
    decreases n
  {
    if n < 10 then [DigitChar(n)] else NatToString(n / 10) + [DigitChar(n % 10)]
  }

  function DigitChar(d: nat): char
    requires d < 10
  {
    "0123456789"[d]
  }
}
