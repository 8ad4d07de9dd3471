/** The booking pipeline of the slot service (`book_visit`) and the visit
    store it appends to. */
module Booking {
  import opened Wrappers
  import opened Instants
  import opened Models
  import opened Occupancy

  /** The error codes `book_visit` returns. */
  datatype BookError = InvalidRequest | NotFound | NotInSchedule | SlotBusy {
    function Code(): string {
      match this
      case InvalidRequest => "invalid_request"
      case NotFound => "not_found"
      case NotInSchedule => "not_in_schedule"
      case SlotBusy => "slot_busy"
    }
  }

  /** `(visit_id, None)` or `(None, error_code)`. */
  datatype BookResult = Booked(visitId: int) | Failed(error: BookError)

  /** The arguments of `book_visit`; `visitType` is the raw string. */
  datatype BookRequest = BookRequest(
    patientId: int,
    visitType: string,
    doctorId: Option<int>,
    serviceId: Option<int>,
    clinicId: Option<int>,
    start: int)

  /** What the request resolves to: the provider, the visit's clinic, and the
      duration and buffer taken from the provider record. */
  datatype Target = Target(kind: VisitType, providerId: int, clinicId: int, durationMinutes: int, bufferMinutes: int)

  /** Python's `not x` on an optional id: absent or zero. */
  predicate Missing(x: Option<int>) {
    x.None? || x.value == 0
  }

  /** The required-field checks and provider lookups, in the order the code
      makes them: for a doctor the doctor is looked up before the clinic id
      is checked for presence. */
  function Resolve(c: Catalog, req: BookRequest): Result<Target, BookError> {
    if req.visitType == "DOCTOR" then
      if Missing(req.doctorId) then Err(InvalidRequest)
      else match FindDoctor(c, req.doctorId.value)
        case None => Err(NotFound)
        case Some(doc) =>
          if Missing(req.clinicId) then Err(InvalidRequest)
          else if FindClinic(c, req.clinicId.value).None? then Err(NotFound)
          else Ok(Target(DOCTOR, req.doctorId.value, req.clinicId.value, doc.durationMinutes, doc.bufferMinutes))
    else if req.visitType == "SERVICE" then
      if Missing(req.serviceId) then Err(InvalidRequest)
      else match FindService(c, req.serviceId.value)
        case None => Err(NotFound)
        case Some(svc) => Ok(Target(SERVICE, req.serviceId.value, svc.clinicId, svc.durationMinutes, svc.bufferMinutes))
    else Err(InvalidRequest)
  }

  /** A schedule window as the containment check reads it. */
  datatype Span = Span(workDate: int, timeStart: TimeOfDay, timeEnd: TimeOfDay)

  /** The doctor schedule query: this doctor at this clinic, on the start's
      date, with a window start not after the start's time. */
  function DoctorSpans(rows: seq<DoctorSchedule>, tg: Target, start: int): (r: seq<Span>)
    ensures forall sp :: sp in r <==> (exists s :: s in rows && sp == Span(s.workDate, s.timeStart, s.timeEnd)
                                         && s.doctorId == tg.providerId && s.clinicId == tg.clinicId
                                         && s.workDate == DayOf(start) && s.timeStart <= TimeOf(start))
  {
    if |rows| == 0 then []
    else
      var s := rows[0];
      var rest := DoctorSpans(rows[1..], tg, start);
      assert forall x :: x in rows <==> x == s || x in rows[1..];
      if s.doctorId == tg.providerId && s.clinicId == tg.clinicId
        && s.workDate == DayOf(start) && s.timeStart <= TimeOf(start)
      then [Span(s.workDate, s.timeStart, s.timeEnd)] + rest
      else rest
  }

  /** The service schedule query: this service, on the start's date, with a
      window start not after the start's time. */
  function ServiceSpans(rows: seq<ServiceSchedule>, tg: Target, start: int): (r: seq<Span>)
    ensures forall sp :: sp in r <==> (exists s :: s in rows && sp == Span(s.workDate, s.timeStart, s.timeEnd)
                                         && s.serviceId == tg.providerId
                                         && s.workDate == DayOf(start) && s.timeStart <= TimeOf(start))
  {
    if |rows| == 0 then []
    else
      var s := rows[0];
      var rest := ServiceSpans(rows[1..], tg, start);
      assert forall x :: x in rows <==> x == s || x in rows[1..];
      if s.serviceId == tg.providerId && s.workDate == DayOf(start) && s.timeStart <= TimeOf(start)
      then [Span(s.workDate, s.timeStart, s.timeEnd)] + rest
      else rest
  }

  function CandidateSpans(c: Catalog, tg: Target, start: int): seq<Span> {
    match tg.kind
    case DOCTOR => DoctorSpans(c.doctorSchedules, tg, start)
    case SERVICE => ServiceSpans(c.serviceSchedules, tg, start)
  }

  /** The window holds the appointment: it starts at or after the window start
      and ends (without its buffer) at or before the window end. */
  predicate Covers(sp: Span, tg: Target, start: int) {
    Combine(sp.workDate, sp.timeStart) <= start && start + Minutes(tg.durationMinutes) <= Combine(sp.workDate, sp.timeEnd)
  }

  predicate InSchedule(c: Catalog, tg: Target, start: int) {
    exists i :: 0 <= i < |CandidateSpans(c, tg, start)| && Covers(CandidateSpans(c, tg, start)[i], tg, start)
  }

  /** The idempotency query: the first visit of the provider with exactly this start. */
  function ExactStart(visits: seq<Visit>, tg: Target, start: int): Option<Visit> {
    if |visits| == 0 then None
    else if OfProvider(visits[0], tg.kind, tg.providerId) && visits[0].start == start then Some(visits[0])
    else ExactStart(visits[1..], tg, start)
  }

  /** What `book_visit` decides before it writes. */
  datatype Decision = Reject(error: BookError) | Existing(visitId: int) | Insert(target: Target)

  /** The validation pipeline, short-circuiting in code order: inputs and
      lookups, schedule containment, exact-start idempotency, day overlap. */
  function Decide(c: Catalog, visits: seq<Visit>, req: BookRequest): Decision {
    match Resolve(c, req)
    case Err(e) => Reject(e)
    case Ok(tg) =>
      if !InSchedule(c, tg, req.start) then Reject(NotInSchedule)
      else match ExactStart(visits, tg, req.start)
        case Some(e) => if e.patientId == req.patientId then Existing(e.id) else Reject(SlotBusy)
        case None =>
          var day := VisitsOnDay(visits, tg.kind, tg.providerId, DayOf(req.start));
          if FirstConflict(req.start, tg.durationMinutes, tg.bufferMinutes, day).Some? then Reject(SlotBusy)
          else Insert(tg)
  }

  /** The row `book_visit` inserts. */
  function NewVisit(id: int, req: BookRequest, tg: Target, now: int): Visit {
    Visit(id, req.patientId, tg.kind,
      if tg.kind == DOCTOR then Some(tg.providerId) else None,
      if tg.kind == SERVICE then Some(tg.providerId) else None,
      tg.clinicId, req.start, tg.durationMinutes, tg.bufferMinutes, now)
  }

  /** Both visits belong to the same doctor or the same service. */
  predicate SameProvider(a: Visit, b: Visit) {
    a.visitType == b.visitType &&
    match a.visitType
    case DOCTOR => a.doctorId.Some? && a.doctorId == b.doctorId
    case SERVICE => a.serviceId.Some? && a.serviceId == b.serviceId
  }

  /** The occupancy invariant the booking pipeline maintains: two visits of
      one provider that start on the same date have disjoint occupied intervals. */
  ghost predicate NoSameDayOverlap(visits: seq<Visit>) {
    forall i, j ::
      (0 <= i < j < |visits| && SameProvider(visits[i], visits[j])
       && DayOf(visits[i].start) == DayOf(visits[j].start)) ==>
      !Conflicts(visits[j].start, visits[j].durationMinutes, visits[j].bufferMinutes, visits[i])
  }

  ghost predicate UniqueIds(visits: seq<Visit>) {
    forall i, j :: 0 <= i < j < |visits| ==> visits[i].id != visits[j].id
  }

  /** The same code order, case by case. */
  lemma ResolveFollowsCodeOrder(c: Catalog, req: BookRequest)
    ensures req.visitType != "DOCTOR" && req.visitType != "SERVICE" ==> Resolve(c, req) == Err(InvalidRequest)
    ensures req.visitType == "DOCTOR" && Missing(req.doctorId) ==> Resolve(c, req) == Err(InvalidRequest)
    ensures req.visitType == "DOCTOR" && !Missing(req.doctorId) && FindDoctor(c, req.doctorId.value).None? ==>
      Resolve(c, req) == Err(NotFound)
    ensures (req.visitType == "DOCTOR" && !Missing(req.doctorId) && FindDoctor(c, req.doctorId.value).Some?
             && Missing(req.clinicId)) ==> Resolve(c, req) == Err(InvalidRequest)
    ensures (req.visitType == "DOCTOR" && !Missing(req.doctorId) && FindDoctor(c, req.doctorId.value).Some?
             && !Missing(req.clinicId) && FindClinic(c, req.clinicId.value).None?) ==> Resolve(c, req) == Err(NotFound)
    ensures req.visitType == "SERVICE" && Missing(req.serviceId) ==> Resolve(c, req) == Err(InvalidRequest)
    ensures req.visitType == "SERVICE" && !Missing(req.serviceId) && FindService(c, req.serviceId.value).None? ==>
      Resolve(c, req) == Err(NotFound)
  {
  }

  /** A resolved target copies duration and buffer from the provider record;
      the clinic comes from the request for a doctor and from the service for a service. */
  lemma ResolvedTarget(c: Catalog, req: BookRequest)
    requires Resolve(c, req).Ok?
    ensures var tg := Resolve(c, req).value;
      (req.visitType == "DOCTOR" ==>
        exists d :: d in c.doctors && d.id == tg.providerId && tg.kind == DOCTOR
          && Some(tg.providerId) == req.doctorId && Some(tg.clinicId) == req.clinicId
          && tg.durationMinutes == d.durationMinutes && tg.bufferMinutes == d.bufferMinutes)
      && (req.visitType == "SERVICE" ==>
        exists s :: s in c.services && s.id == tg.providerId && tg.kind == SERVICE
          && Some(tg.providerId) == req.serviceId && tg.clinicId == s.clinicId
          && tg.durationMinutes == s.durationMinutes && tg.bufferMinutes == s.bufferMinutes)
  {
    if req.visitType == "DOCTOR" {
      var d := FindDoctor(c, req.doctorId.value).value;
      assert d in c.doctors && d.id == req.doctorId.value;
    } else if req.visitType == "SERVICE" {
      var s := FindService(c, req.serviceId.value).value;
      assert s in c.services && s.id == req.serviceId.value;
    }
  }

  /** Containment: a booking that is not rejected has a schedule row of its
      provider (and, for a doctor, of the requested clinic) on the start's date,
      starting no later than the start's time, that holds the appointment. */
  lemma AcceptedIsContained(c: Catalog, visits: seq<Visit>, req: BookRequest)
    requires !Decide(c, visits, req).Reject?
    ensures Resolve(c, req).Ok?
    ensures var tg := Resolve(c, req).value;
      (tg.kind == DOCTOR ==>
         (exists s :: s in c.doctorSchedules
            && s.doctorId == tg.providerId && s.clinicId == tg.clinicId
            && s.workDate == DayOf(req.start) && s.timeStart <= TimeOf(req.start)
            && Covers(Span(s.workDate, s.timeStart, s.timeEnd), tg, req.start)))
      && (tg.kind == SERVICE ==>
         (exists s :: s in c.serviceSchedules
            && s.serviceId == tg.providerId
            && s.workDate == DayOf(req.start) && s.timeStart <= TimeOf(req.start)
            && Covers(Span(s.workDate, s.timeStart, s.timeEnd), tg, req.start)))
  {
    var tg := Resolve(c, req).value;
    var spans := CandidateSpans(c, tg, req.start);
    var i :| 0 <= i < |spans| && Covers(spans[i], tg, req.start);
    assert spans[i] in spans;
  }

  /** No conflict: an insert happens only when the candidate occupied interval
      meets no visit of the provider that starts on the same date. */
  lemma InsertHasNoSameDayConflict(c: Catalog, visits: seq<Visit>, req: BookRequest)
    requires Decide(c, visits, req).Insert?
    ensures var tg := Decide(c, visits, req).target;
      forall v :: v in visits && OfProvider(v, tg.kind, tg.providerId) && DayOf(v.start) == DayOf(req.start) ==>
        !Conflicts(req.start, tg.durationMinutes, tg.bufferMinutes, v)
  {
    var tg := Decide(c, visits, req).target;
    var day := VisitsOnDay(visits, tg.kind, tg.providerId, DayOf(req.start));
    FirstConflictSpec(req.start, tg.durationMinutes, tg.bufferMinutes, day);
    forall v | v in visits && OfProvider(v, tg.kind, tg.providerId) && DayOf(v.start) == DayOf(req.start)
      ensures !Conflicts(req.start, tg.durationMinutes, tg.bufferMinutes, v)
    {
      StartsOnIffSameDate(v, DayOf(req.start));
      var k :| 0 <= k < |day| && day[k] == v;
    }
  }

  /** The idempotency query finds nothing exactly when no visit of the
      provider has that start; otherwise it finds the first such visit in
      store order. */
  lemma {:induction false} ExactStartSpec(visits: seq<Visit>, tg: Target, start: int)
    ensures ExactStart(visits, tg, start).None? <==>
      forall v :: v in visits ==> !(OfProvider(v, tg.kind, tg.providerId) && v.start == start)
    ensures ExactStart(visits, tg, start).Some? ==>
      exists k :: 0 <= k < |visits| && ExactStart(visits, tg, start) == Some(visits[k])
        && OfProvider(visits[k], tg.kind, tg.providerId) && visits[k].start == start
        && forall j :: 0 <= j < k ==> !(OfProvider(visits[j], tg.kind, tg.providerId) && visits[j].start == start)
  {
    if |visits| > 0 {
      ExactStartSpec(visits[1..], tg, start);
      assert forall v :: v in visits <==> v == visits[0] || v in visits[1..];
      if !(OfProvider(visits[0], tg.kind, tg.providerId) && visits[0].start == start)
         && ExactStart(visits, tg, start).Some? {
        var k :| 0 <= k < |visits[1..]| && ExactStart(visits[1..], tg, start) == Some(visits[1..][k])
          && OfProvider(visits[1..][k], tg.kind, tg.providerId) && visits[1..][k].start == start
          && forall j :: 0 <= j < k ==> !(OfProvider(visits[1..][j], tg.kind, tg.providerId) && visits[1..][j].start == start);
        assert visits[k + 1] == visits[1..][k];
        forall j | 0 <= j < k + 1
          ensures !(OfProvider(visits[j], tg.kind, tg.providerId) && visits[j].start == start)
        {
          if j > 0 { assert visits[j] == visits[1..][j - 1]; }
        }
      }
    }
  }

  lemma {:induction false} ExactStartAppend(visits: seq<Visit>, v: Visit, tg: Target, start: int)
    requires ExactStart(visits, tg, start).None?
    ensures ExactStart(visits + [v], tg, start) ==
      if OfProvider(v, tg.kind, tg.providerId) && v.start == start then Some(v) else None
  {
    if |visits| == 0 {
      assert visits + [v] == [v];
    } else {
      assert (visits + [v])[1..] == visits[1..] + [v];
      ExactStartAppend(visits[1..], v, tg, start);
    }
  }

  /** Idempotency: once a request has been inserted, the same request again
      returns the id of the visit it created and inserts nothing. */
  lemma RebookingIsIdempotent(c: Catalog, visits: seq<Visit>, req: BookRequest, id: int, now: int)
    requires Decide(c, visits, req).Insert?
    ensures Decide(c, visits + [NewVisit(id, req, Decide(c, visits, req).target, now)], req) == Existing(id)
  {
    var tg := Decide(c, visits, req).target;
    ExactStartAppend(visits, NewVisit(id, req, tg, now), tg, req.start);
  }

  /** Once a request has been inserted, the same provider and start requested
      by any other patient is refused as busy: of two such bookings exactly one succeeds. */
  lemma OtherPatientGetsSlotBusy(c: Catalog, visits: seq<Visit>, req: BookRequest, id: int, now: int, other: int)
    requires Decide(c, visits, req).Insert? && other != req.patientId
    ensures Decide(c, visits + [NewVisit(id, req, Decide(c, visits, req).target, now)], req.(patientId := other))
      == Reject(SlotBusy)
  {
    var tg := Decide(c, visits, req).target;
    var req2 := req.(patientId := other);
    assert Resolve(c, req2) == Resolve(c, req);
    ExactStartAppend(visits, NewVisit(id, req, tg, now), tg, req.start);
  }

  /** Inserting what the pipeline decided keeps the occupancy invariant. */
  lemma InsertKeepsNoSameDayOverlap(c: Catalog, visits: seq<Visit>, req: BookRequest, id: int, now: int)
    requires NoSameDayOverlap(visits) && Decide(c, visits, req).Insert?
    ensures NoSameDayOverlap(visits + [NewVisit(id, req, Decide(c, visits, req).target, now)])
  {
    var tg := Decide(c, visits, req).target;
    var nv := NewVisit(id, req, tg, now);
    var vs := visits + [nv];
    InsertHasNoSameDayConflict(c, visits, req);
    forall i, j | 0 <= i < j < |vs| && SameProvider(vs[i], vs[j]) && DayOf(vs[i].start) == DayOf(vs[j].start)
      ensures !Conflicts(vs[j].start, vs[j].durationMinutes, vs[j].bufferMinutes, vs[i])
    {
      if j == |visits| {
        assert vs[i] in visits && OfProvider(vs[i], tg.kind, tg.providerId);
      } else {
        assert vs[i] == visits[i] && vs[j] == visits[j];
      }
    }
  }

  /** Removing any visit keeps the invariant and the ids unique. */
  lemma RemoveKeepsInvariant(visits: seq<Visit>, k: int)
    requires 0 <= k < |visits| && NoSameDayOverlap(visits) && UniqueIds(visits)
    ensures NoSameDayOverlap(visits[..k] + visits[k + 1..]) && UniqueIds(visits[..k] + visits[k + 1..])
  {
    var vs := visits[..k] + visits[k + 1..];
    assert forall i :: 0 <= i < |vs| ==> vs[i] == visits[if i < k then i else i + 1];
  }

  /** The overlap check reads only the visits that start on the requested
      date, so a previous-day visit whose buffer runs past midnight does not
      block a booking whose occupied interval intersects it: a service visit at
      23:00 on day 0 (30 minutes plus a 60-minute buffer, so occupied until
      00:30 on day 1) and a new booking at 00:00 on day 1. */
  lemma PreviousDayBufferIsNotChecked()
    ensures var svc := Service(1, "ECG", 1, 30, 60);
      var c := Catalog([], [], [svc], [], [ServiceSchedule(1, 1, 1, 0, Minutes(60))]);
      var v := Visit(1, 7, SERVICE, None, Some(1), 1, Combine(0, Minutes(23 * 60)), 30, 60, 0);
      var req := BookRequest(8, "SERVICE", None, Some(1), None, Combine(1, 0));
      Decide(c, [v], req) == Insert(Target(SERVICE, 1, 1, 30, 60))
      && Conflicts(req.start, 30, 60, v)
  {
    var svc := Service(1, "ECG", 1, 30, 60);
    var sched := ServiceSchedule(1, 1, 1, 0, Minutes(60));
    var c := Catalog([], [], [svc], [], [sched]);
    var v := Visit(1, 7, SERVICE, None, Some(1), 1, Combine(0, Minutes(23 * 60)), 30, 60, 0);
    var req := BookRequest(8, "SERVICE", None, Some(1), None, Combine(1, 0));
    var tg := Target(SERVICE, 1, 1, 30, 60);
    assert FindService(c, 1) == Some(svc);
    assert Resolve(c, req) == Ok(tg);
    CombineParts(1, 0);
    assert DayOf(req.start) == 1 && TimeOf(req.start) == 0;
    assert [sched][1..] == [];
    assert sched.serviceId == tg.providerId && sched.workDate == DayOf(req.start) && sched.timeStart <= TimeOf(req.start);
    assert ServiceSpans([sched], tg, req.start) == [Span(1, 0, Minutes(60))] + ServiceSpans([], tg, req.start);
    assert CandidateSpans(c, tg, req.start) == [Span(1, 0, Minutes(60))];
    assert Covers(Span(1, 0, Minutes(60)), tg, req.start);
    assert ExactStart([v], tg, req.start) == None;
    StartsOnIffSameDate(v, 1);
    CombineParts(0, Minutes(23 * 60));
    assert VisitsOnDay([v], SERVICE, 1, 1) == [];
    assert InSchedule(c, tg, req.start) by {
      assert Covers(CandidateSpans(c, tg, req.start)[0], tg, req.start);
    }
    assert Decide(c, [v], req) == Insert(tg);
    assert Conflicts(req.start, 30, 60, v);
  }

  /** The visit table, with the id sequence the database assigns. */
  class VisitStore {
    var visits: seq<Visit>
    var nextId: int

    ghost predicate Valid()
      reads this
    {
      && nextId > 0
      && (forall i :: 0 <= i < |visits| ==> 0 < visits[i].id < nextId)
      && UniqueIds(visits)
      && NoSameDayOverlap(visits)
    }

    constructor ()
      ensures Valid() && visits == []
    {
      visits := [];
      nextId := 1;
    }

    /** `book_visit`. `commitFails` stands for a commit that raises (a
        concurrent writer, a constraint); `now` is the clock reading for `created_at`. */
    method BookVisit(c: Catalog, req: BookRequest, now: int, commitFails: bool) returns (r: BookResult)
      requires Valid()
      modifies this
      ensures Valid()
      ensures match Decide(c, old(visits), req)
        case Reject(e) => r == Failed(e) && visits == old(visits) && nextId == old(nextId)
        case Existing(id) => r == Booked(id) && visits == old(visits) && nextId == old(nextId)
        case Insert(tg) =>
          (commitFails ==> r == Failed(SlotBusy) && visits == old(visits) && nextId == old(nextId))
          && (!commitFails ==> r == Booked(old(nextId)) && nextId == old(nextId) + 1
                               && visits == old(visits) + [NewVisit(old(nextId), req, tg, now)])
    {
      var tg: Target;
      if req.visitType == "DOCTOR" {
        if Missing(req.doctorId) {
          return Failed(InvalidRequest);
        }
        var doc := FindDoctor(c, req.doctorId.value);
        if doc.None? {
          return Failed(NotFound);
        }
        if Missing(req.clinicId) {
          return Failed(InvalidRequest);
        }
        var clinic := FindClinic(c, req.clinicId.value);
        if clinic.None? {
          return Failed(NotFound);
        }
        tg := Target(DOCTOR, req.doctorId.value, req.clinicId.value, doc.value.durationMinutes, doc.value.bufferMinutes);
      } else if req.visitType == "SERVICE" {
        if Missing(req.serviceId) {
          return Failed(InvalidRequest);
        }
        var svc := FindService(c, req.serviceId.value);
        if svc.None? {
          return Failed(NotFound);
        }
        tg := Target(SERVICE, req.serviceId.value, svc.value.clinicId, svc.value.durationMinutes, svc.value.bufferMinutes);
      } else {
        return Failed(InvalidRequest);
      }
      assert Resolve(c, req) == Ok(tg);

      // Schedule containment: the first candidate window that holds the appointment.
      var spans := CandidateSpans(c, tg, req.start);
      var inSchedule := false;
      var i := 0;
      while i < |spans| && !inSchedule
        invariant 0 <= i <= |spans|
        invariant inSchedule <==> exists k :: 0 <= k < i && Covers(spans[k], tg, req.start)
      {
        if Covers(spans[i], tg, req.start) {
          inSchedule := true;
        }
        i := i + 1;
      }
      if !inSchedule {
        return Failed(NotInSchedule);
      }

      // Idempotency on the exact start.
      var existing := ExactStart(visits, tg, req.start);
      if existing.Some? {
        if existing.value.patientId == req.patientId {
          return Booked(existing.value.id);
        } else {
          return Failed(SlotBusy);
        }
      }

      // Overlap with the provider's visits of that day.
      var day := VisitsOnDay(visits, tg.kind, tg.providerId, DayOf(req.start));
      var busy := Overlaps(req.start, tg.durationMinutes, tg.bufferMinutes, day);
      if busy.Some? {
        return Failed(SlotBusy);
      }

      // Insert and commit; a failed commit is rolled back.
      var v := NewVisit(nextId, req, tg, now);
      if commitFails {
        return Failed(SlotBusy);
      }
      InsertKeepsNoSameDayOverlap(c, visits, req, nextId, now);
      visits := visits + [v];
      nextId := nextId + 1;
      r := Booked(v.id);
    }

    /** `db.delete(visit)` and commit, for the visit at position `k`. */
    method Delete(k: int)
      requires Valid() && 0 <= k < |visits|
      modifies this
      ensures Valid()
      ensures visits == old(visits[..k] + visits[k + 1..]) && nextId == old(nextId)
    {
      RemoveKeepsInvariant(visits, k);
      visits := visits[..k] + visits[k + 1..];
    }
  }
}
