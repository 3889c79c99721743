/** Creating clinic services and assigning doctors to them. An assignment is
    recorded twice, in `service.doctorIds` and in `doctor.serviceIds`, and both
    records are written in one transaction. */
module ClinicServices {
  import opened Domain

  /** Every record is stored under its own id. */
  predicate WellKeyed(st: Store) {
    && (forall k | k in st.users :: st.users[k].id == k)
    && (forall k | k in st.services :: st.services[k].id == k)
  }

  predicate NoDuplicates(s: seq<Id>) {
    forall i, j :: 0 <= i < j < |s| ==> s[i] != s[j]
  }

  /** The two assignment lists agree and neither repeats an entry. */
  predicate AssignmentsConsistent(st: Store) {
    && (forall sid, did | sid in st.services && did in st.users ::
          did in st.services[sid].doctorIds <==> sid in st.users[did].serviceIds)
    && (forall sid | sid in st.services :: NoDuplicates(st.services[sid].doctorIds))
    && (forall did | did in st.users :: NoDuplicates(st.users[did].serviceIds))
  }

  // ---------------------------------------------------------------------------
  // Array helpers with JavaScript semantics

  /** `findIndex` by equality: first position of `x`, or -1. */
  function IndexOf(s: seq<Id>, x: Id): (k: int)
    ensures -1 <= k < |s|
    ensures k >= 0 ==> s[k] == x && forall j :: 0 <= j < k ==> s[j] != x
    ensures k == -1 <==> x !in s
    decreases |s|
  {
    if s == [] then -1
    else if s[0] == x then 0
    else
      var k := IndexOf(s[1..], x);
      assert forall j :: 0 < j < |s| ==> s[j] == s[1..][j - 1];
      if k < 0 then -1 else k + 1
  }

  /** `splice(start, 1)` for a start of -1 or an index: a negative start
      counts from the end, so -1 removes the last element (if any). */
  function SpliceOne(s: seq<Id>, start: int): (r: seq<Id>)
    requires -1 <= start < |s|
    ensures start >= 0 ==> r == s[..start] + s[start + 1..]
    ensures start == -1 && s != [] ==> r == s[..|s| - 1]
    ensures start == -1 && s == [] ==> r == []
    ensures multiset(r) <= multiset(s)
    ensures start >= 0 ==> multiset(r) == multiset(s) - multiset{s[start]}
  {
    if start >= 0 then
      assert s == s[..start] + [s[start]] + s[start + 1..];
      s[..start] + s[start + 1..]
    else if s == [] then s
    else
      assert s == s[..|s| - 1] + [s[|s| - 1]];
      s[..|s| - 1]
  }

  /** Removing the first occurrence of an element that occurs once leaves
      every other element, in order. */
  lemma RemoveOnly(s: seq<Id>, x: Id)
    requires x in s && NoDuplicates(s)
    ensures var r := SpliceOne(s, IndexOf(s, x));
            && x !in r
            && NoDuplicates(r)
            && (forall y | y != x :: y in r <==> y in s)
  {
    var k := IndexOf(s, x);
    var r := SpliceOne(s, k);
    assert forall i :: 0 <= i < |r| ==> r[i] == s[if i < k then i else i + 1];
    assert forall y | y in s && y != x :: y in r by {
      forall y | y in s && y != x ensures y in r {
        var i :| 0 <= i < |s| && s[i] == y;
        assert r[if i < k then i else i - 1] == y;
      }
    }
  }

  lemma AppendThenRemove(s: seq<Id>, x: Id)
    requires x !in s
    ensures IndexOf(s + [x], x) == |s|
    ensures SpliceOne(s + [x], |s|) == s
  {
    assert (s + [x])[..|s|] == s;
  }

  // ---------------------------------------------------------------------------
  // create

  datatype ServiceRequest = ServiceRequest(
    name: string,
    category: string,
    duration: int,
    clinicId: Id)

  /** Duration bounds the request validator enforces: 20 to 120 minutes. */
  predicate ValidDuration(d: int) {
    20 <= d <= 120
  }

  /** One service per name within a clinic, as the unique index on
      (name, clinicId) enforces. */
  predicate UniqueNames(st: Store) {
    forall k1, k2 | k1 in st.services && k2 in st.services ::
      st.services[k1].name == st.services[k2].name && st.services[k1].clinicId == st.services[k2].clinicId ==>
        k1 == k2
  }

  /** Whether a service with this name already exists in this clinic. */
  predicate NameTaken(st: Store, name: string, clinicId: Id) {
    exists s | s in st.services.Values :: s.name == name && s.clinicId == clinicId
  }

  /** `create`. The new id is generated by the database, so it is fresh. */
  function CreateService(st: Store, actor: User, req: ServiceRequest, newId: Id): (r: Result<Store>)
    requires newId !in st.services
    ensures !ValidDuration(req.duration) ==> r == Err(BadRequest)
    ensures ValidDuration(req.duration) && req.clinicId !in st.clinics ==> r == Err(NotFound("Clinic"))
    ensures ValidDuration(req.duration) && req.clinicId in st.clinics ==>
              var clinic := st.clinics[req.clinicId];
              && (clinic.adminId != actor.id ==> r == Err(Forbidden))
              && (clinic.adminId == actor.id && req.category !in clinic.serviceCategories ==> r == Err(BadRequest))
    ensures r.Ok? ==>
              && req.clinicId in st.clinics
              && st.clinics[req.clinicId].adminId == actor.id
              && req.category in st.clinics[req.clinicId].serviceCategories
              && (forall s | s in st.services.Values :: !(s.name == req.name && s.clinicId == req.clinicId))
              && r.value == st.(services := st.services[newId :=
                   ClinicService(newId, req.name, req.category, req.duration, req.clinicId, [])])
    ensures r.Err? && r.error == Conflict ==>
              exists s | s in st.services.Values :: s.name == req.name && s.clinicId == req.clinicId
    ensures ValidDuration(req.duration) && req.clinicId in st.clinics
            && st.clinics[req.clinicId].adminId == actor.id
            && req.category in st.clinics[req.clinicId].serviceCategories ==>
              (r.Ok? <==> !NameTaken(st, req.name, req.clinicId))
              && (r.Err? ==> r.error == Conflict)
    ensures r.Ok? ==> |r.value.services| == |st.services| + 1
  {
    if !ValidDuration(req.duration) then Err(BadRequest)
    else if req.clinicId !in st.clinics then Err(NotFound("Clinic"))
    else
      var clinic := st.clinics[req.clinicId];
      if clinic.adminId != actor.id then Err(Forbidden)
      else if req.category !in clinic.serviceCategories then Err(BadRequest)
      else if exists s | s in st.services.Values :: s.name == req.name && s.clinicId == req.clinicId then
        Err(Conflict)
      else
        Ok(st.(services := st.services[newId :=
             ClinicService(newId, req.name, req.category, req.duration, req.clinicId, [])]))
  }

  /** Creating a service keeps the store well keyed, keeps one service per
      name within a clinic, and keeps the assignment lists in agreement,
      provided no doctor already lists the fresh id. */
  lemma CreateKeepsInvariants(st: Store, actor: User, req: ServiceRequest, newId: Id)
    requires newId !in st.services
    requires WellKeyed(st) && UniqueNames(st) && AssignmentsConsistent(st)
    requires forall did | did in st.users :: newId !in st.users[did].serviceIds
    requires CreateService(st, actor, req, newId).Ok?
    ensures WellKeyed(CreateService(st, actor, req, newId).value)
    ensures UniqueNames(CreateService(st, actor, req, newId).value)
    ensures AssignmentsConsistent(CreateService(st, actor, req, newId).value)
  {
    var st' := CreateService(st, actor, req, newId).value;
    var created := ClinicService(newId, req.name, req.category, req.duration, req.clinicId, []);
    assert st' == st.(services := st.services[newId := created]);
    forall k1, k2 | k1 in st'.services && k2 in st'.services
      ensures (st'.services[k1].name == st'.services[k2].name
               && st'.services[k1].clinicId == st'.services[k2].clinicId) ==> k1 == k2
    {
      if k1 != newId {
        assert st.services[k1] in st.services.Values;
      }
      if k2 != newId {
        assert st.services[k2] in st.services.Values;
      }
    }
  }

  // ---------------------------------------------------------------------------
  // assignDoctor / unassignDoctor

  /** The admin checks shared by assign and unassign: both the service and
      the doctor must belong to the actor's clinic. The comparisons read the
      actor's and the doctor's clinic references, which may be missing. */
  function ClinicGuard(actor: User, doctor: User, service: ClinicService): (r: Result<bool>)
    ensures r.Err? ==> r.error == TypeError
    ensures r.Err? <==> actor.clinicId.None? ||
                        (actor.clinicId == Some(service.clinicId) && doctor.clinicId.None?)
    ensures r.Ok? ==> (r.value <==> actor.clinicId == Some(service.clinicId) && doctor.clinicId == actor.clinicId)
  {
    var serviceSame :- SameRef(Some(service.clinicId), actor.clinicId);
    if !serviceSame then Ok(false)
    else SameRef(doctor.clinicId, actor.clinicId)
  }

  /** Everything before the write: the lookups and checks common to assign
      and unassign. */
  function LoadPair(st: Store, actor: User, doctorId: Id, serviceId: Id): (r: Result<(User, ClinicService)>)
    ensures doctorId !in st.users ==> r == Err(NotFound("User"))
    ensures doctorId in st.users && serviceId !in st.services ==> r == Err(NotFound("Clinic Service"))
    ensures doctorId in st.users && serviceId in st.services ==>
              var g := ClinicGuard(actor, st.users[doctorId], st.services[serviceId]);
              && (g.Err? ==> r == Err(g.error))
              && (g == Ok(false) ==> r == Err(Forbidden))
              && (g == Ok(true) ==> r == Ok((st.users[doctorId], st.services[serviceId])))
  {
    if doctorId !in st.users then Err(NotFound("User"))
    else if serviceId !in st.services then Err(NotFound("Clinic Service"))
    else
      var doctor := st.users[doctorId];
      var service := st.services[serviceId];
      var allowed :- ClinicGuard(actor, doctor, service);
      if !allowed then Err(Forbidden) else Ok((doctor, service))
  }

  function AssignDoctor(st: Store, actor: User, doctorId: Id, serviceId: Id): (r: Result<Store>)
    ensures LoadPair(st, actor, doctorId, serviceId).Err? ==>
              r == Err(LoadPair(st, actor, doctorId, serviceId).error)
    ensures LoadPair(st, actor, doctorId, serviceId).Ok? ==>
              (r == Err(Conflict) <==> doctorId in st.services[serviceId].doctorIds)
    ensures LoadPair(st, actor, doctorId, serviceId).Ok? && doctorId !in st.services[serviceId].doctorIds ==>
              r.Ok?
    ensures r.Ok? ==>
              && doctorId in st.users && serviceId in st.services
              && var doctor := st.users[doctorId];
              && var service := st.services[serviceId];
              && doctorId !in service.doctorIds
              && r.value == st.(
                   services := st.services[serviceId := service.(doctorIds := service.doctorIds + [doctor.id])],
                   users := st.users[doctorId := doctor.(serviceIds := doctor.serviceIds + [service.id])])
  {
    var (doctor, service) :- LoadPair(st, actor, doctorId, serviceId);
    if doctorId in service.doctorIds then Err(Conflict)
    else
      Ok(st.(
        services := st.services[serviceId := service.(doctorIds := service.doctorIds + [doctor.id])],
        users := st.users[doctorId := doctor.(serviceIds := doctor.serviceIds + [service.id])]))
  }

  /** `unassignDoctor` as written: the back-reference removal is guarded by
      the service-side index, which is always found at that point, so a
      missing back-reference makes `splice(-1, 1)` drop the doctor's last
      service instead. */
  function UnassignDoctorAsWritten(st: Store, actor: User, doctorId: Id, serviceId: Id): (r: Result<Store>)
    ensures LoadPair(st, actor, doctorId, serviceId).Err? ==>
              r == Err(LoadPair(st, actor, doctorId, serviceId).error)
    ensures LoadPair(st, actor, doctorId, serviceId).Ok? ==>
              (r == Err(Conflict) <==> doctorId !in st.services[serviceId].doctorIds)
    ensures LoadPair(st, actor, doctorId, serviceId).Ok? && doctorId in st.services[serviceId].doctorIds ==>
              r.Ok?
    ensures r.Ok? ==>
              && doctorId in st.users && serviceId in st.services
              && var doctor := st.users[doctorId];
              && doctorId in r.value.users
              && (serviceId !in doctor.serviceIds && doctor.serviceIds != [] ==>
                    r.value.users[doctorId].serviceIds == doctor.serviceIds[..|doctor.serviceIds| - 1])
  {
    var (doctor, service) :- LoadPair(st, actor, doctorId, serviceId);
    var idx := IndexOf(service.doctorIds, doctorId);
    if idx < 0 then Err(Conflict)
    else
      var serviceIdx := IndexOf(doctor.serviceIds, serviceId);
      var serviceIds := if idx > -1 then SpliceOne(doctor.serviceIds, serviceIdx) else doctor.serviceIds;
      Ok(st.(
        services := st.services[serviceId := service.(doctorIds := SpliceOne(service.doctorIds, idx))],
        users := st.users[doctorId := doctor.(serviceIds := serviceIds)]))
  }

  /** `unassignDoctor` with the back-reference removal guarded by the
      doctor-side index, as evidently intended. */
  function UnassignDoctor(st: Store, actor: User, doctorId: Id, serviceId: Id): (r: Result<Store>)
    ensures LoadPair(st, actor, doctorId, serviceId).Err? ==>
              r == Err(LoadPair(st, actor, doctorId, serviceId).error)
    ensures LoadPair(st, actor, doctorId, serviceId).Ok? ==>
              (r == Err(Conflict) <==> doctorId !in st.services[serviceId].doctorIds)
    ensures LoadPair(st, actor, doctorId, serviceId).Ok? && doctorId in st.services[serviceId].doctorIds ==>
              r.Ok?
    ensures r.Ok? ==>
              && doctorId in st.users && serviceId in st.services
              && var doctor := st.users[doctorId];
              && var service := st.services[serviceId];
              && var k := IndexOf(service.doctorIds, doctorId);
              && 0 <= k
              && r.value.services == st.services[serviceId := service.(doctorIds :=
                                       service.doctorIds[..k] + service.doctorIds[k + 1..])]
              && doctorId in r.value.users
              && r.value.users == st.users[doctorId := doctor.(serviceIds := r.value.users[doctorId].serviceIds)]
              && (serviceId !in doctor.serviceIds ==> r.value.users[doctorId].serviceIds == doctor.serviceIds)
              && (serviceId in doctor.serviceIds ==>
                    && r.value.users[doctorId].serviceIds
                         == SpliceOne(doctor.serviceIds, IndexOf(doctor.serviceIds, serviceId))
                    && multiset(r.value.users[doctorId].serviceIds)
                         == multiset(doctor.serviceIds) - multiset{serviceId})
              && multiset(r.value.users[doctorId].serviceIds) <= multiset(doctor.serviceIds)
              && r.value.clinics == st.clinics && r.value.appointments == st.appointments
  {
    var (doctor, service) :- LoadPair(st, actor, doctorId, serviceId);
    var idx := IndexOf(service.doctorIds, doctorId);
    if idx < 0 then Err(Conflict)
    else
      var serviceIdx := IndexOf(doctor.serviceIds, serviceId);
      var serviceIds := if serviceIdx > -1 then SpliceOne(doctor.serviceIds, serviceIdx) else doctor.serviceIds;
      assert serviceIdx > -1 ==> doctor.serviceIds[serviceIdx] == serviceId;
      Ok(st.(
        services := st.services[serviceId := service.(doctorIds := SpliceOne(service.doctorIds, idx))],
        users := st.users[doctorId := doctor.(serviceIds := serviceIds)]))
  }

  // ---------------------------------------------------------------------------
  // Properties

  /** The guard on line 193 is harmless while the two lists agree: then the
      as-written and the corrected unassign coincide. */
  lemma AsWrittenAgreesWhenConsistent(st: Store, actor: User, doctorId: Id, serviceId: Id)
    requires AssignmentsConsistent(st)
    ensures UnassignDoctorAsWritten(st, actor, doctorId, serviceId) == UnassignDoctor(st, actor, doctorId, serviceId)
  {
  }

  /** A doctor listed on a service whose own list lacks that service (and
      holds another one) loses the other service from their list. */
  lemma AsWrittenDropsUnrelatedService()
    ensures var doctor := User("d", Doctor, Some("c"), ["s2"], []);
            var s1 := ClinicService("s1", "x", "cat", 30, "c", ["d"]);
            var s2 := ClinicService("s2", "y", "cat", 30, "c", []);
            var admin := User("a", ClinicAdmin, Some("c"), [], []);
            var st := Store(map["d" := doctor, "a" := admin], map[], map["s1" := s1, "s2" := s2], []);
            && UnassignDoctorAsWritten(st, admin, "d", "s1").Ok?
            && UnassignDoctorAsWritten(st, admin, "d", "s1").value.users["d"].serviceIds == []
            && UnassignDoctor(st, admin, "d", "s1").value.users["d"].serviceIds == ["s2"]
  {
  }

  /** Assign keeps both lists in agreement and free of duplicates. */
  lemma AssignKeepsConsistent(st: Store, actor: User, doctorId: Id, serviceId: Id)
    requires WellKeyed(st) && AssignmentsConsistent(st)
    requires AssignDoctor(st, actor, doctorId, serviceId).Ok?
    ensures WellKeyed(AssignDoctor(st, actor, doctorId, serviceId).value)
    ensures AssignmentsConsistent(AssignDoctor(st, actor, doctorId, serviceId).value)
  {
    var st' := AssignDoctor(st, actor, doctorId, serviceId).value;
    var doctor := st.users[doctorId];
    var service := st.services[serviceId];
    assert serviceId !in doctor.serviceIds;
    forall sid, did | sid in st'.services && did in st'.users
      ensures did in st'.services[sid].doctorIds <==> sid in st'.users[did].serviceIds
    {
      if sid == serviceId && did == doctorId {
        assert did in st'.services[sid].doctorIds;
        assert sid in st'.users[did].serviceIds;
      } else if sid == serviceId {
        assert did in st'.services[sid].doctorIds <==> did in service.doctorIds;
      } else if did == doctorId {
        assert sid in st'.users[did].serviceIds <==> sid in doctor.serviceIds;
      }
    }
  }

  /** The exact write a successful corrected unassign performs. */
  lemma UnassignShape(st: Store, actor: User, doctorId: Id, serviceId: Id)
    requires UnassignDoctor(st, actor, doctorId, serviceId).Ok?
    ensures doctorId in st.users && serviceId in st.services
    ensures var doctor := st.users[doctorId];
            var service := st.services[serviceId];
            var k := IndexOf(service.doctorIds, doctorId);
            var j := IndexOf(doctor.serviceIds, serviceId);
            && k >= 0
            && UnassignDoctor(st, actor, doctorId, serviceId).value == st.(
                 services := st.services[serviceId := service.(doctorIds := SpliceOne(service.doctorIds, k))],
                 users := st.users[doctorId := doctor.(serviceIds :=
                   if j > -1 then SpliceOne(doctor.serviceIds, j) else doctor.serviceIds)])
  {
    assert LoadPair(st, actor, doctorId, serviceId) == Ok((st.users[doctorId], st.services[serviceId]));
  }

  /** Taking a doctor out of a service's list, and that service out of the
      doctor's list, keeps agreeing duplicate-free lists in agreement. */
  lemma RemovePairKeepsConsistent(st: Store, doctorId: Id, serviceId: Id)
    requires WellKeyed(st) && AssignmentsConsistent(st)
    requires serviceId in st.services && doctorId in st.users
    requires doctorId in st.services[serviceId].doctorIds
    ensures var service := st.services[serviceId];
            var doctor := st.users[doctorId];
            var st' := st.(
              services := st.services[serviceId := service.(doctorIds :=
                SpliceOne(service.doctorIds, IndexOf(service.doctorIds, doctorId)))],
              users := st.users[doctorId := doctor.(serviceIds :=
                SpliceOne(doctor.serviceIds, IndexOf(doctor.serviceIds, serviceId)))]);
            WellKeyed(st') && AssignmentsConsistent(st')
  {
    var doctor := st.users[doctorId];
    var service := st.services[serviceId];
    RemoveOnly(service.doctorIds, doctorId);
    assert serviceId in doctor.serviceIds;
    RemoveOnly(doctor.serviceIds, serviceId);
    var newDoctorIds := SpliceOne(service.doctorIds, IndexOf(service.doctorIds, doctorId));
    var newServiceIds := SpliceOne(doctor.serviceIds, IndexOf(doctor.serviceIds, serviceId));
    var st' := st.(services := st.services[serviceId := service.(doctorIds := newDoctorIds)],
                   users := st.users[doctorId := doctor.(serviceIds := newServiceIds)]);
    forall sid, did | sid in st'.services && did in st'.users
      ensures did in st'.services[sid].doctorIds <==> sid in st'.users[did].serviceIds
    {
      if sid == serviceId && did == doctorId {
      } else if sid == serviceId {
        assert did in st'.services[sid].doctorIds <==> did in service.doctorIds;
        assert st'.users[did] == st.users[did];
      } else if did == doctorId {
        assert sid in st'.users[did].serviceIds <==> sid in doctor.serviceIds;
        assert st'.services[sid] == st.services[sid];
      } else {
        assert st'.users[did] == st.users[did];
        assert st'.services[sid] == st.services[sid];
      }
    }
  }

  /** The corrected unassign keeps both lists in agreement and free of
      duplicates. */
  lemma UnassignKeepsConsistent(st: Store, actor: User, doctorId: Id, serviceId: Id)
    requires WellKeyed(st) && AssignmentsConsistent(st)
    requires UnassignDoctor(st, actor, doctorId, serviceId).Ok?
    ensures WellKeyed(UnassignDoctor(st, actor, doctorId, serviceId).value)
    ensures AssignmentsConsistent(UnassignDoctor(st, actor, doctorId, serviceId).value)
  {
    UnassignShape(st, actor, doctorId, serviceId);
    assert serviceId in st.users[doctorId].serviceIds;
    RemovePairKeepsConsistent(st, doctorId, serviceId);
  }

  /** Assigning then unassigning the same pair restores the store exactly. */
  lemma AssignUnassignRoundTrip(st: Store, actor: User, doctorId: Id, serviceId: Id)
    requires WellKeyed(st) && AssignmentsConsistent(st)
    requires AssignDoctor(st, actor, doctorId, serviceId).Ok?
    ensures UnassignDoctor(AssignDoctor(st, actor, doctorId, serviceId).value, actor, doctorId, serviceId) == Ok(st)
  {
    var st' := AssignDoctor(st, actor, doctorId, serviceId).value;
    var doctor := st.users[doctorId];
    var service := st.services[serviceId];
    assert serviceId !in doctor.serviceIds;
    var doctor' := doctor.(serviceIds := doctor.serviceIds + [serviceId]);
    var service' := service.(doctorIds := service.doctorIds + [doctorId]);
    assert st'.users[doctorId] == doctor' && st'.services[serviceId] == service';
    assert LoadPair(st', actor, doctorId, serviceId) == Ok((doctor', service')) by {
      assert LoadPair(st, actor, doctorId, serviceId) == Ok((doctor, service));
      assert doctor'.clinicId == doctor.clinicId && service'.clinicId == service.clinicId;
    }
    AppendThenRemove(service.doctorIds, doctorId);
    AppendThenRemove(doctor.serviceIds, serviceId);
    var st'' := UnassignDoctor(st', actor, doctorId, serviceId).value;
    assert st'' == st'.(services := st'.services[serviceId := service], users := st'.users[doctorId := doctor]);
    MapRestore(st.services, serviceId, service');
    MapRestore(st.users, doctorId, doctor');
  }

  lemma MapRestore<K, V>(m: map<K, V>, k: K, v: V)
    requires k in m
    ensures m[k := v][k := m[k]] == m
  {
    var m' := m[k := v][k := m[k]];
    assert m'.Keys == m.Keys;
    assert forall x | x in m :: m'[x] == m[x];
  }
}
