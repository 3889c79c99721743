/** Entities of the clinic system and the abstract persistent store they live in.
    A committed transaction is one replacement of the whole `Store` value. */
module Domain {
  import opened Intervals

  /** Identifiers are compared through their string form, as the source does
      with `toString()`. */
  type Id = string

  /** A calendar day, used only as an equality key: two dates fall on the same
      day exactly when their keys are equal. */
  type Day = int

  datatype Role = Patient | Doctor | ClinicAdmin

  datatype Option<T> = None | Some(value: T)

  datatype User = User(
    id: Id,
    role: Role,
    clinicId: Option<Id>,      // not required by the schema
    serviceIds: seq<Id>,
    shifts: seq<TimeInterval>)

  datatype Clinic = Clinic(
    id: Id,
    name: string,
    adminId: Id,
    serviceCategories: seq<string>)

  datatype ClinicService = ClinicService(
    id: Id,
    name: string,
    category: string,
    duration: int,
    clinicId: Id,
    doctorIds: seq<Id>)

  datatype Appointment = Appointment(
    id: Id,
    startsAt: int,
    endsAt: int,
    date: Day,
    serviceId: Id,
    doctorId: Id,
    patientId: Id)

  /** Appointments are kept in insertion order. An unsorted query promises
      no order; the model fixes this one. */
  datatype Store = Store(
    users: map<Id, User>,
    clinics: map<Id, Clinic>,
    services: map<Id, ClinicService>,
    appointments: seq<Appointment>)

  /** The failures the core raises. `TypeError` stands for the source
      dereferencing a missing optional field (`undefined.toString()`), which
      escapes as an untyped server error. `DuplicateKey` stands for a save
      the database refuses under a unique index, which the service rethrows
      unmapped. */
  datatype Error =
    | NotFound(entity: string)
    | Forbidden
    | NotAcceptable
    | BadRequest
    | NotAssigned
    | SlotUnavailable(suggestions: seq<TimeInterval>)
    | Conflict
    | TypeError
    | DuplicateKey

  /** HTTP status each failure is reported with. */
  function Status(e: Error): (code: int)
    ensures 400 <= code < 600
    ensures code == 412 <==> e.NotAssigned? || e.SlotUnavailable?
  {
    match e
    case NotFound(_) => 404
    case Forbidden => 403
    case NotAcceptable => 406
    case BadRequest => 400
    case NotAssigned => 412
    case SlotUnavailable(_) => 412
    case Conflict => 409
    case TypeError => 500
    case DuplicateKey => 500
  }

  datatype Result<T> = Ok(value: T) | Err(error: Error) {
    predicate IsFailure() {
      Err?
    }

    function PropagateFailure<U>(): Result<U>
      requires Err?
    {
      Err(error)
    }

    function Extract(): T
      requires Ok?
    {
      value
    }
  }

  /** `a.toString() === b.toString()` on two optional references: a missing
      (undefined) one makes `toString` throw. */
  function SameRef(a: Option<Id>, b: Option<Id>): (r: Result<bool>)
    ensures r.Err? <==> a.None? || b.None?
    ensures r.Ok? ==> (r.value <==> a == b)
  {
    match (a, b)
    case (Some(x), Some(y)) => Ok(x == y)
    case _ => Err(TypeError)
  }

  function AppointmentInterval(a: Appointment): TimeInterval {
    TimeInterval(a.startsAt, a.endsAt)
  }
}
