/** Updating a doctor's shifts: look the doctor up, check the actor may manage
    them, normalise the shift list, and store it as one write. */
module UsersService {
  import opened Intervals
  import opened Domain
  import opened ShiftRules

  /** The role/ownership rule for shift updates, for actors whose clinic
      comparison can be evaluated: a clinic admin of the doctor's clinic, or
      the doctor themself. */
  predicate MayManageShifts(actor: User, doctor: User, userId: Id) {
    || (actor.role == ClinicAdmin && actor.clinicId.Some? && actor.clinicId == doctor.clinicId)
    || actor.id == userId
  }

  /** The clinic comparison is evaluated first for an admin, so a missing
      clinic reference on either side throws before the identity test. */
  predicate ClinicCompareThrows(actor: User, doctor: User) {
    actor.role == ClinicAdmin && (actor.clinicId.None? || doctor.clinicId.None?)
  }

  function Authorize(actor: User, doctor: User, userId: Id): (r: Result<bool>)
    ensures r.Err? <==> ClinicCompareThrows(actor, doctor)
    ensures r.Err? ==> r.error == TypeError
    ensures r.Ok? ==> (r.value <==> MayManageShifts(actor, doctor, userId))
  {
    if actor.role == ClinicAdmin then
      var same :- SameRef(actor.clinicId, doctor.clinicId);
      Ok(same || actor.id == userId)
    else
      Ok(actor.id == userId)
  }

  /** The service operation, on shifts that already passed request validation. */
  function UpdateShifts(st: Store, actor: User, userId: Id, shifts: seq<TimeInterval>): (r: Result<Store>)
    ensures userId !in st.users ==> r == Err(NotFound("User"))
    ensures userId in st.users && st.users[userId].role != Doctor ==> r == Err(NotAcceptable)
    ensures userId in st.users && st.users[userId].role == Doctor ==>
              var doctor := st.users[userId];
              && (ClinicCompareThrows(actor, doctor) ==> r == Err(TypeError))
              && (!ClinicCompareThrows(actor, doctor) && !MayManageShifts(actor, doctor, userId) ==>
                    r == Err(Forbidden))
              && (!ClinicCompareThrows(actor, doctor) && MayManageShifts(actor, doctor, userId) ==>
                    (r.Ok? <==> |shifts| <= 1 || AcceptableShiftSet(multiset(shifts))))
    ensures r.Err? && r.error == BadRequest ==> |shifts| > 1
    ensures r.Ok? ==>
              && userId in st.users
              && userId in r.value.users
              && var stored := r.value.users[userId].shifts;
              && r.value.users == st.users[userId := st.users[userId].(shifts := stored)]
              && r.value.(users := st.users) == st
              && multiset(stored) == multiset(shifts)
              && SortedByStart(stored)
              && (|shifts| <= 1 ==> stored == shifts)
              && (|shifts| > 1 ==> PairwiseDisjoint(stored) &&
                                   forall i :: 0 <= i < |stored| ==> NonEmpty(stored[i]))
  {
    if userId !in st.users then Err(NotFound("User"))
    else
      var doctor := st.users[userId];
      if doctor.role != Doctor then Err(NotAcceptable)
      else
        var allowed :- Authorize(actor, doctor, userId);
        if !allowed then Err(Forbidden)
        else
          var stored :- NormalizeShifts(shifts);
          Ok(st.(users := st.users[userId := doctor.(shifts := stored)]))
  }

  /** The request as a whole: the body's intervals are validated before the
      service runs, so whatever is stored is inside the day. */
  function UpdateShiftsRequest(st: Store, actor: User, userId: Id, shifts: seq<TimeInterval>): (r: Result<Store>)
    ensures !AllValidDto(shifts) ==> r == Err(BadRequest)
    ensures AllValidDto(shifts) ==> r == UpdateShifts(st, actor, userId, shifts)
    ensures r.Ok? ==> forall t | t in r.value.users[userId].shifts :: IsValidDto(t)
  {
    if !AllValidDto(shifts) then Err(BadRequest)
    else
      var r := UpdateShifts(st, actor, userId, shifts);
      if r.Ok? then
        var stored := r.value.users[userId].shifts;
        assert forall t | t in stored :: t in multiset(shifts);
        r
      else r
  }

  /** A single shift skips validation entirely, so an inverted one is stored. */
  lemma SingleInvertedShiftStored(st: Store, doctor: User)
    requires doctor.id in st.users && st.users[doctor.id] == doctor && doctor.role == Doctor
    ensures UpdateShiftsRequest(st, doctor, doctor.id, [TimeInterval(600, 540)]).Ok?
    ensures UpdateShiftsRequest(st, doctor, doctor.id, [TimeInterval(600, 540)]).value.users[doctor.id].shifts
         == [TimeInterval(600, 540)]
  {
    assert AllValidDto([TimeInterval(600, 540)]);
  }
}
