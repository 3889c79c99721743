/** End-to-end behaviour of the booking flow on small concrete stores. */
module Scenarios {
  import opened Intervals
  import opened Domain
  import opened Availability
  import opened Booking
  import opened UsersService

  function DoctorUser(shifts: seq<TimeInterval>): User {
    User("d", Doctor, Some("c"), ["s"], shifts)
  }

  function PatientUser(): User {
    User("p", Patient, None, [], [])
  }

  function Service(duration: int): ClinicService {
    ClinicService("s", "checkup", "general", duration, "c", ["d"])
  }

  function StoreWith(shifts: seq<TimeInterval>, duration: int, apps: seq<Appointment>): Store {
    Store(map["d" := DoctorUser(shifts), "p" := PatientUser()], map[], map["s" := Service(duration)], apps)
  }

  function Request(startsAt: int): BookingRequest {
    BookingRequest(startsAt, 1, "s", "d", "p")
  }

  /** A store holding one appointment lists exactly its interval for its
      doctor and day. */
  lemma OneBookedInterval(a: Appointment)
    ensures SameDayBooked([a], a.doctorId, a.date) == [AppointmentInterval(a)]
  {
    assert [a][1..] == [];
  }

  /** With one booked interval the fold is a single subtraction step. */
  lemma OneSubtraction(shifts: seq<TimeInterval>, b: TimeInterval)
    ensures AvailableIntervals(shifts, [b]) == SubtractOne(shifts, b)
  {
    assert [b][1..] == [];
  }

  /** One 0-120 shift, a 30-minute service: the whole shift is listed and a
      booking at 0 creates the 0-30 appointment. */
  lemma FirstBookingTaken()
    ensures GetDoctorAvailability(StoreWith([TimeInterval(0, 120)], 30, []), "s", "d", 1)
         == Ok([TimeInterval(0, 120)])
    ensures var a := Appointment("a1", 0, 30, 1, "s", "d", "p");
            BookAppointment(StoreWith([TimeInterval(0, 120)], 30, []), PatientUser(), Request(0), "a1")
              == Ok((StoreWith([TimeInterval(0, 120)], 30, [a]), a))
  {
    var st0 := StoreWith([TimeInterval(0, 120)], 30, []);
    assert FreeIntervals(st0, st0.users["d"], "d", 1) == [TimeInterval(0, 120)];
    assert FindContaining([TimeInterval(0, 120)], TimeInterval(0, 30)) == 0;
    var a := Appointment("a1", 0, 30, 1, "s", "d", "p");
    assert st0.appointments + [a] == [a];
    assert st0.(appointments := [a]) == StoreWith([TimeInterval(0, 120)], 30, [a]);
  }

  /** After the 0-30 booking the listing shrinks to 30-120, and a second
      booking at 0 is refused with 30-120 as the suggestion. */
  lemma SecondBookingRefused()
    ensures var st1 := StoreWith([TimeInterval(0, 120)], 30, [Appointment("a1", 0, 30, 1, "s", "d", "p")]);
            && GetDoctorAvailability(st1, "s", "d", 1) == Ok([TimeInterval(30, 120)])
            && BookAppointment(st1, PatientUser(), Request(0), "a2") == Err(SlotUnavailable([TimeInterval(30, 120)]))
  {
    var a := Appointment("a1", 0, 30, 1, "s", "d", "p");
    var st1 := StoreWith([TimeInterval(0, 120)], 30, [a]);
    OneBookedInterval(a);
    OneSubtraction([TimeInterval(0, 120)], TimeInterval(0, 30));
    assert FindContaining([TimeInterval(0, 120)], TimeInterval(0, 30)) == 0;
    assert SubtractOne([TimeInterval(0, 120)], TimeInterval(0, 30)) == [TimeInterval(30, 120)];
    assert FreeIntervals(st1, st1.users["d"], "d", 1) == [TimeInterval(30, 120)];
    assert FindContaining([TimeInterval(30, 120)], TimeInterval(0, 30)) == -1;
  }

  /** With the appointments' unique index in force, the 30-60 booking that
      fits after the 0-30 one is refused as a duplicate key, because the
      stored appointment has the same (missing) index key. */
  lemma SecondBookingRejectedAsWritten()
    ensures var st1 := StoreWith([TimeInterval(0, 120)], 30, [Appointment("a1", 0, 30, 1, "s", "d", "p")]);
            && BookAppointment(st1, PatientUser(), Request(30), "a2").Ok?
            && BookAppointmentAsWritten(st1, PatientUser(), Request(30), "a2") == Err(DuplicateKey)
  {
    var a := Appointment("a1", 0, 30, 1, "s", "d", "p");
    var st1 := StoreWith([TimeInterval(0, 120)], 30, [a]);
    OneBookedInterval(a);
    OneSubtraction([TimeInterval(0, 120)], TimeInterval(0, 30));
    assert FindContaining([TimeInterval(0, 120)], TimeInterval(0, 30)) == 0;
    assert SubtractOne([TimeInterval(0, 120)], TimeInterval(0, 30)) == [TimeInterval(30, 120)];
    assert FreeIntervals(st1, st1.users["d"], "d", 1) == [TimeInterval(30, 120)];
    assert FindContaining([TimeInterval(30, 120)], TimeInterval(30, 60)) == 0;
  }

  /** One 0-60 shift with 20-40 booked and a 30-minute service: neither
      remainder is long enough, so the refusal carries no suggestion. */
  lemma NoRoomThatDay()
    ensures var st := StoreWith([TimeInterval(0, 60)], 30, [Appointment("a1", 20, 40, 1, "s", "d", "p")]);
            && FreeIntervals(st, st.users["d"], "d", 1) == [TimeInterval(0, 20), TimeInterval(40, 60)]
            && BookAppointment(st, PatientUser(), Request(10), "a2") == Err(SlotUnavailable([]))
            && SuggestionMessage([]) == "Pick another day."
  {
    var a := Appointment("a1", 20, 40, 1, "s", "d", "p");
    var st := StoreWith([TimeInterval(0, 60)], 30, [a]);
    OneBookedInterval(a);
    OneSubtraction([TimeInterval(0, 60)], TimeInterval(20, 40));
    assert FindContaining([TimeInterval(0, 60)], TimeInterval(20, 40)) == 0;
    var free := [TimeInterval(0, 20), TimeInterval(40, 60)];
    assert SubtractOne([TimeInterval(0, 60)], TimeInterval(20, 40)) == free;
    assert FreeIntervals(st, st.users["d"], "d", 1) == free;
    assert !Contains(free[0], TimeInterval(10, 40)) && !Contains(free[1], TimeInterval(10, 40));
    assert FindContaining(free, TimeInterval(10, 40)) == -1;
    assert free[1..][1..] == [];
    assert LongEnough(free, 30) == [];
  }

  /** Shortening a shift below an existing appointment makes the subtraction
      skip that appointment, after which an overlapping booking is accepted
      by the booking without the appointments' unique index: the 60-90
      appointment survives the update to a 0-80 shift and a booking of 50-80
      then succeeds on the same day. */
  lemma DoubleBookingAfterShiftChange()
    ensures var prior := Appointment("a1", 60, 90, 1, "s", "d", "p");
            var st := StoreWith([TimeInterval(0, 120)], 30, [prior]);
            var r := UpdateShiftsRequest(st, DoctorUser([TimeInterval(0, 120)]), "d", [TimeInterval(0, 80)]);
            && r == Ok(StoreWith([TimeInterval(0, 80)], 30, [prior]))
            && var b := BookAppointment(r.value, PatientUser(), Request(50), "a2");
            && b.Ok?
            && Overlaps(AppointmentInterval(b.value.1), AppointmentInterval(prior))
  {
    var prior := Appointment("a1", 60, 90, 1, "s", "d", "p");
    var st := StoreWith([TimeInterval(0, 120)], 30, [prior]);
    assert AllValidDto([TimeInterval(0, 80)]);
    var st1 := StoreWith([TimeInterval(0, 80)], 30, [prior]);
    assert st.users["d" := DoctorUser([TimeInterval(0, 80)])] == st1.users;
    OneBookedInterval(prior);
    OneSubtraction([TimeInterval(0, 80)], TimeInterval(60, 90));
    assert FindContaining([TimeInterval(0, 80)], TimeInterval(60, 90)) == -1;
    assert FreeIntervals(st1, st1.users["d"], "d", 1) == [TimeInterval(0, 80)];
    assert FindContaining([TimeInterval(0, 80)], TimeInterval(50, 80)) == 0;
  }
}
