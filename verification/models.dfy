/** The persistent entities of the scheduling service: reference data
    (clinics, doctors, services, schedule windows) and booked visits.
    Photo paths and biographies are display data and are not modelled. */
module Models {
  import opened Wrappers
  import opened Instants

  datatype VisitType = DOCTOR | SERVICE

  /** The string the store and the API use for a visit type. */
  function TypeName(k: VisitType): string {
    match k
    case DOCTOR => "DOCTOR"
    case SERVICE => "SERVICE"
  }

  datatype Clinic = Clinic(id: int, name: string, district: string, address: string)

  datatype Doctor = Doctor(
    id: int,
    firstName: string,
    lastName: string,
    middleName: Option<string>,
    durationMinutes: int,
    bufferMinutes: int,
    directions: set<int>)

  datatype Service = Service(
    id: int,
    name: string,
    clinicId: int,
    durationMinutes: int,
    bufferMinutes: int)

  /** One availability interval of a doctor at a clinic on one date. */
  datatype DoctorSchedule = DoctorSchedule(
    id: int,
    doctorId: int,
    clinicId: int,
    workDate: int,
    timeStart: TimeOfDay,
    timeEnd: TimeOfDay)

  /** One availability interval of a service on one date. */
  datatype ServiceSchedule = ServiceSchedule(
    id: int,
    serviceId: int,
    workDate: int,
    timeStart: TimeOfDay,
    timeEnd: TimeOfDay)

  /** A booked appointment. Exactly one of `doctorId`/`serviceId` is set, matching
      `visitType`; duration and buffer are copied from the provider at booking time. */
  datatype Visit = Visit(
    id: int,
    patientId: int,
    visitType: VisitType,
    doctorId: Option<int>,
    serviceId: Option<int>,
    clinicId: int,
    start: int,
    durationMinutes: int,
    bufferMinutes: int,
    createdAt: int)

  /** The reference tables the booking pipeline reads. */
  datatype Catalog = Catalog(
    clinics: seq<Clinic>,
    doctors: seq<Doctor>,
    services: seq<Service>,
    doctorSchedules: seq<DoctorSchedule>,
    serviceSchedules: seq<ServiceSchedule>)

  /** `query(...).filter(id == key).first()`: the first row with the key, if any. */
  function FindById<T>(rows: seq<T>, idOf: T -> int, key: int): (r: Option<T>)
    ensures r.None? <==> forall i :: 0 <= i < |rows| ==> idOf(rows[i]) != key
    ensures r.Some? ==> r.value in rows && idOf(r.value) == key
  {
    if |rows| == 0 then None
    else if idOf(rows[0]) == key then Some(rows[0])
    else FindById(rows[1..], idOf, key)
  }

  function FindDoctor(c: Catalog, id: int): Option<Doctor> {
    FindById(c.doctors, (d: Doctor) => d.id, id)
  }

  function FindService(c: Catalog, id: int): Option<Service> {
    FindById(c.services, (s: Service) => s.id, id)
  }

  function FindClinic(c: Catalog, id: int): Option<Clinic> {
    FindById(c.clinics, (k: Clinic) => k.id, id)
  }

  /** `if doc.middle_name:` is false for a missing and for an empty middle name. */
  predicate HasMiddleName(d: Doctor) {
    d.middleName.Some? && d.middleName.value != ""
  }

  function NameParts(d: Doctor): seq<string> {
    [d.lastName, d.firstName] + (if HasMiddleName(d) then [d.middleName.value] else [])
  }

  /** `" ".join(parts)` */
  function JoinWithSpace(parts: seq<string>): string {
    if |parts| == 0 then ""
    else if |parts| == 1 then parts[0]
    else parts[0] + " " + JoinWithSpace(parts[1..])
  }

  /** `_doctor_name`: last name, first name and, when non-empty, middle name,
      separated by single spaces. */
  function DoctorName(d: Doctor): (r: string)
    ensures !HasMiddleName(d) ==> r == d.lastName + " " + d.firstName
    ensures HasMiddleName(d) ==> r == d.lastName + " " + d.firstName + " " + d.middleName.value
  {
    var parts := NameParts(d);
    var tail := parts[1..];
    assert tail[1..] == if HasMiddleName(d) then [d.middleName.value] else [];
    assert JoinWithSpace(parts) == d.lastName + " " + JoinWithSpace(tail);
    assert HasMiddleName(d) ==> JoinWithSpace(tail) == d.firstName + " " + JoinWithSpace(tail[1..]);
    JoinWithSpace(parts)
  }
}
