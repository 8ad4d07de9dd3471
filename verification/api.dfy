/** The decision logic of the HTTP handlers for slots and visits: who may do
    what, which parameters are checked in which order, and which status each
    outcome maps to. */
module Api {
  import opened Wrappers
  import opened Instants
  import opened Models
  import opened StableSort
  import opened Slots
  import opened Booking

  /** A handler's answer: a payload, or an error status with its error code. */
  datatype Response<+T> = Success(body: T) | Failure(status: int, error: string)

  /** Patient id 0 is the administrator. */
  predicate IsAdmin(patientId: int) {
    patientId == 0
  }

  /** A datetime string as received, with what `datetime.fromisoformat` makes
      of it (`None` where it raises `ValueError`). */
  datatype IsoArg = IsoArg(text: string, parsed: Option<int>)

  /** The search target: `type=doctor` or `type=service`, with the rows the
      corresponding schedule query selected. */
  datatype SearchRows = DoctorRows(doctorRows: seq<DoctorRow>) | ServiceRows(serviceRows: seq<ServiceRow>)

  /** `api_search_slots`: the permission check, the datetime parsing, then
      the doctor or service search. */
  function SearchResponse(patientId: int, rows: SearchRows, timeFrom: IsoArg, timeTo: IsoArg,
                          includeBusy: bool, store: seq<Visit>): Response<seq<Slot>> {
    if includeBusy && !IsAdmin(patientId) then Failure(403, "forbidden")
    else if timeFrom.parsed.None? || timeTo.parsed.None? then Failure(400, "invalid_request")
    else
      var q := SlotQuery(timeFrom.parsed.value, timeTo.parsed.value, includeBusy, IsAdmin(patientId));
      match rows
      case DoctorRows(rs) => Success(SearchResult(DOCTOR, DoctorWindows(rs), store, q))
      case ServiceRows(rs) => Success(SearchResult(SERVICE, ServiceWindows(rs), store, q))
  }

  /** The permission check comes before the datetime parsing: a non-admin
      asking for busy slots is refused whatever the other parameters are, and a
      malformed datetime is reported only to a caller that passed it. */
  lemma SearchCheckOrder(patientId: int, rows: SearchRows, timeFrom: IsoArg, timeTo: IsoArg,
                         includeBusy: bool, store: seq<Visit>)
    ensures var r := SearchResponse(patientId, rows, timeFrom, timeTo, includeBusy, store);
      && (r == Failure(403, "forbidden") <==> includeBusy && !IsAdmin(patientId))
      && (r == Failure(400, "invalid_request") <==>
            !(includeBusy && !IsAdmin(patientId)) && (timeFrom.parsed.None? || timeTo.parsed.None?))
      && (r.Success? <==> !(includeBusy && !IsAdmin(patientId)) && timeFrom.parsed.Some? && timeTo.parsed.Some?)
  {
  }

  /** A caller other than the administrator only ever sees free slots, and
      never a busy patient's id; every returned slot starts inside the
      requested range and is sorted by (start, provider name). */
  lemma NonAdminSeesOnlyFreeSlots(patientId: int, rows: SearchRows, timeFrom: IsoArg, timeTo: IsoArg,
                                  includeBusy: bool, store: seq<Visit>)
    requires SearchResponse(patientId, rows, timeFrom, timeTo, includeBusy, store).Success?
    ensures var items := SearchResponse(patientId, rows, timeFrom, timeTo, includeBusy, store).body;
      && (forall s :: s in items ==> timeFrom.parsed.value <= s.start < timeTo.parsed.value)
      && (!IsAdmin(patientId) ==> forall s :: s in items ==> s.isFree && s.busyPatientId.None?)
      && (!includeBusy ==> forall s :: s in items ==> s.isFree)
      && SortedBy(items, SlotKey(if rows.DoctorRows? then DOCTOR else SERVICE))
  {
    var q := SlotQuery(timeFrom.parsed.value, timeTo.parsed.value, includeBusy, IsAdmin(patientId));
    var kind := if rows.DoctorRows? then DOCTOR else SERVICE;
    var ws := if rows.DoctorRows? then DoctorWindows(rows.doctorRows) else ServiceWindows(rows.serviceRows);
    SearchResultProperties(kind, ws, store, q);
    assert SearchResponse(patientId, rows, timeFrom, timeTo, includeBusy, store).body == SearchResult(kind, ws, store, q);
  }

  /** The status for a booking error code: `code_map.get(err, 500)`. */
  function BookingStatus(code: string): int {
    if code == "invalid_request" then 400
    else if code == "not_found" then 404
    else if code == "slot_busy" then 409
    else if code == "not_in_schedule" then 409
    else 500
  }

  /** Every error the booking pipeline returns has its own code and maps to a
      client error; the 500 fallback is never taken. */
  lemma BookingErrorsAreClientErrors(e: BookError, e': BookError)
    ensures BookingStatus(e.Code()) == (match e case InvalidRequest => 400 case NotFound => 404 case _ => 409)
    ensures e.Code() == e'.Code() ==> e == e'
  {
  }

  /** The request `api_book_visit` passes on. */
  function BookingRequest(patientId: int, visitType: VisitType, doctorId: Option<int>, serviceId: Option<int>,
                          clinicId: Option<int>, start: int): BookRequest {
    BookRequest(patientId, TypeName(visitType), doctorId, serviceId, clinicId, start)
  }

  /** The success body of `api_book_visit`. */
  datatype BookedBody = BookedBody(visitId: int, status: string)

  /** `api_book_visit`. The body's `visit_type` is already one of the two
      enum values; `now` and `commitFails` are passed on to the booking. */
  method ApiBookVisit(store: VisitStore, c: Catalog, patientId: int, visitType: VisitType, doctorId: Option<int>,
                      serviceId: Option<int>, clinicId: Option<int>, start: IsoArg, now: int, commitFails: bool)
    returns (r: Response<BookedBody>)
    requires store.Valid()
    modifies store
    ensures store.Valid()
    ensures patientId <= 0 || start.parsed.None? ==>
      r == Failure(400, "invalid_request") && store.visits == old(store.visits) && store.nextId == old(store.nextId)
    ensures patientId > 0 && start.parsed.Some? ==>
      var req := BookingRequest(patientId, visitType, doctorId, serviceId, clinicId, start.parsed.value);
      match Decide(c, old(store.visits), req)
      case Reject(e) =>
        r == Failure(BookingStatus(e.Code()), e.Code())
        && store.visits == old(store.visits) && store.nextId == old(store.nextId)
      case Existing(id) =>
        r == Success(BookedBody(id, "booked"))
        && store.visits == old(store.visits) && store.nextId == old(store.nextId)
      case Insert(tg) =>
        (commitFails ==> r == Failure(409, "slot_busy")
                         && store.visits == old(store.visits) && store.nextId == old(store.nextId))
        && (!commitFails ==> r == Success(BookedBody(old(store.nextId), "booked"))
                             && store.visits == old(store.visits) + [NewVisit(old(store.nextId), req, tg, now)]
                             && store.nextId == old(store.nextId) + 1)
  {
    if patientId <= 0 {
      return Failure(400, "invalid_request");
    }
    if start.parsed.None? {
      return Failure(400, "invalid_request");
    }
    var req := BookingRequest(patientId, visitType, doctorId, serviceId, clinicId, start.parsed.value);
    var result := store.BookVisit(c, req, now, commitFails);
    match result {
      case Failed(e) =>
        r := Failure(BookingStatus(e.Code()), e.Code());
      case Booked(id) =>
        r := Success(BookedBody(id, "booked"));
    }
  }

  /** One entry of the visit listing; `start`/`end` are instants. */
  datatype VisitItem = VisitItem(
    visitId: int,
    patientId: int,
    visitType: string,
    clinicId: int,
    doctorId: Option<int>,
    doctorName: Option<string>,
    serviceId: Option<int>,
    serviceName: Option<string>,
    start: int,
    end: int)

  /** `if time_from:` — an absent or empty parameter takes the default. */
  predicate Given(a: Option<IsoArg>) {
    a.Some? && a.value.text != ""
  }

  /** The listing range: the given instants, or now and now plus 90 days;
      `None` when a given parameter does not parse. */
  function ListRange(timeFrom: Option<IsoArg>, timeTo: Option<IsoArg>, now: int): Option<(int, int)> {
    var tf := if Given(timeFrom) then timeFrom.value.parsed else Some(now);
    var tt := if Given(timeTo) then timeTo.value.parsed else Some(now + 90 * MICROS_PER_DAY);
    if tf.None? || tt.None? then None else Some((tf.value, tt.value))
  }

  /** An absent or empty `time_from` means now and an absent or empty
      `time_to` means 90 days from now; a given value that does not parse
      makes the listing answer 400 (after the scope check). */
  lemma ListRangeDefaults(c: Catalog, visits: seq<Visit>, patientId: int, timeFrom: Option<IsoArg>,
                          timeTo: Option<IsoArg>, scope: string, now: int)
    ensures ListRange(timeFrom, timeTo, now).None? <==>
      (Given(timeFrom) && timeFrom.value.parsed.None?) || (Given(timeTo) && timeTo.value.parsed.None?)
    ensures !Given(timeFrom) && !Given(timeTo) ==>
      ListRange(timeFrom, timeTo, now) == Some((now, now + 90 * MICROS_PER_DAY))
    ensures ListRange(timeFrom, timeTo, now).Some? && Given(timeFrom) ==>
      ListRange(timeFrom, timeTo, now).value.0 == timeFrom.value.parsed.value
    ensures ListRange(timeFrom, timeTo, now).Some? && Given(timeTo) ==>
      ListRange(timeFrom, timeTo, now).value.1 == timeTo.value.parsed.value
    ensures !(scope == "all" && !IsAdmin(patientId)) && ListRange(timeFrom, timeTo, now).None? ==>
      ListResponse(c, visits, patientId, timeFrom, timeTo, scope, now) == Failure(400, "invalid_request")
  {
  }

  /** The listing query's filter: start within the closed range, and the
      caller's own visits unless the scope is "all". */
  predicate Listed(v: Visit, tf: int, tt: int, scope: string, patientId: int) {
    tf <= v.start <= tt && (scope != "all" ==> v.patientId == patientId)
  }

  function SelectVisits(visits: seq<Visit>, tf: int, tt: int, scope: string, patientId: int): (r: seq<Visit>)
    ensures forall v :: v in r <==> v in visits && Listed(v, tf, tt, scope, patientId)
    ensures forall v :: multiset(r)[v] == if Listed(v, tf, tt, scope, patientId) then multiset(visits)[v] else 0
  {
    if |visits| == 0 then []
    else
      var rest := SelectVisits(visits[1..], tf, tt, scope, patientId);
      assert visits == [visits[0]] + visits[1..];
      if Listed(visits[0], tf, tt, scope, patientId) then [visits[0]] + rest else rest
  }

  /** `order_by(Visit.start_datetime)`. */
  function StartKey(v: Visit): SortKey {
    SortKey(v.start, "")
  }

  /** The listing item for one visit: names come from the related doctor or
      service, and the end is the start plus the duration (without the buffer). */
  function ItemOf(c: Catalog, v: Visit): VisitItem {
    var doctorName := if v.doctorId.None? then None else match FindDoctor(c, v.doctorId.value)
      case None => None
      case Some(d) => Some(DoctorName(d));
    var serviceName := if v.serviceId.None? then None else match FindService(c, v.serviceId.value)
      case None => None
      case Some(s) => Some(s.name);
    VisitItem(v.id, v.patientId, TypeName(v.visitType), v.clinicId, v.doctorId, doctorName,
      v.serviceId, serviceName, v.start, v.start + Minutes(v.durationMinutes))
  }

  function ItemsOf(c: Catalog, visits: seq<Visit>): (r: seq<VisitItem>)
    ensures |r| == |visits| && forall i :: 0 <= i < |visits| ==> r[i] == ItemOf(c, visits[i])
  {
    if |visits| == 0 then [] else ItemsOf(c, visits[..|visits| - 1]) + [ItemOf(c, visits[|visits| - 1])]
  }

  /** The visits `api_list_visits` reports, in the order it reports them. */
  function ListedVisits(visits: seq<Visit>, tf: int, tt: int, scope: string, patientId: int): seq<Visit> {
    Sort(SelectVisits(visits, tf, tt, scope, patientId), StartKey)
  }

  /** What `api_list_visits` answers. */
  function ListResponse(c: Catalog, visits: seq<Visit>, patientId: int, timeFrom: Option<IsoArg>,
                        timeTo: Option<IsoArg>, scope: string, now: int): Response<seq<VisitItem>> {
    if scope == "all" && !IsAdmin(patientId) then Failure(403, "forbidden")
    else match ListRange(timeFrom, timeTo, now)
      case None => Failure(400, "invalid_request")
      case Some((tf, tt)) => Success(ItemsOf(c, ListedVisits(visits, tf, tt, scope, patientId)))
  }

  /** `api_list_visits`, reading the store; `now` is the clock reading. */
  method ApiListVisits(store: VisitStore, c: Catalog, patientId: int, timeFrom: Option<IsoArg>,
                       timeTo: Option<IsoArg>, scope: string, now: int) returns (r: Response<seq<VisitItem>>)
    ensures r == ListResponse(c, store.visits, patientId, timeFrom, timeTo, scope, now)
  {
    if scope == "all" && !IsAdmin(patientId) {
      return Failure(403, "forbidden");
    }
    var range := ListRange(timeFrom, timeTo, now);
    if range.None? {
      return Failure(400, "invalid_request");
    }
    var (tf, tt) := range.value;
    var visits := ListedVisits(store.visits, tf, tt, scope, patientId);
    var items: seq<VisitItem> := [];
    for i := 0 to |visits|
      invariant items == ItemsOf(c, visits[..i])
    {
      assert visits[..i + 1][..i] == visits[..i];
      items := items + [ItemOf(c, visits[i])];
    }
    assert visits[..|visits|] == visits;
    return Success(items);
  }

  /** The listing reports exactly the visits the filter selects, each once per
      stored row, ordered by start, with equal starts in stored order; only the
      administrator may widen the scope to every patient. */
  lemma ListedVisitsProperties(c: Catalog, visits: seq<Visit>, patientId: int, timeFrom: Option<IsoArg>,
                               timeTo: Option<IsoArg>, scope: string, now: int)
    ensures scope == "all" && !IsAdmin(patientId) ==>
      ListResponse(c, visits, patientId, timeFrom, timeTo, scope, now) == Failure(403, "forbidden")
    ensures ListRange(timeFrom, timeTo, now).Some? && !(scope == "all" && !IsAdmin(patientId)) ==>
      var (tf, tt) := ListRange(timeFrom, timeTo, now).value;
      var listed := ListedVisits(visits, tf, tt, scope, patientId);
      && ListResponse(c, visits, patientId, timeFrom, timeTo, scope, now) == Success(ItemsOf(c, listed))
      && (forall v :: multiset(listed)[v] == if Listed(v, tf, tt, scope, patientId) then multiset(visits)[v] else 0)
      && (forall i, j :: 0 <= i < j < |listed| ==> listed[i].start <= listed[j].start)
      && (forall k :: WithKey(listed, StartKey, k) == WithKey(SelectVisits(visits, tf, tt, scope, patientId), StartKey, k))
  {
    if ListRange(timeFrom, timeTo, now).Some? && !(scope == "all" && !IsAdmin(patientId)) {
      var (tf, tt) := ListRange(timeFrom, timeTo, now).value;
      var sel := SelectVisits(visits, tf, tt, scope, patientId);
      SortPermutes(sel, StartKey);
      SortSorted(sel, StartKey);
      forall k ensures WithKey(Sort(sel, StartKey), StartKey, k) == WithKey(sel, StartKey, k) {
        SortStable(sel, StartKey, k);
      }
    }
  }

  /** A listed item ends its duration (not its buffer) after its start. */
  lemma ItemEndsAfterDuration(c: Catalog, v: Visit)
    ensures ItemOf(c, v).end - ItemOf(c, v).start == v.durationMinutes * MICROS_PER_MINUTE
    ensures ItemOf(c, v).visitId == v.id && ItemOf(c, v).patientId == v.patientId
    ensures v.doctorId.None? ==> ItemOf(c, v).doctorName.None?
    ensures v.serviceId.None? ==> ItemOf(c, v).serviceName.None?
  {
  }

  /** `query(Visit).filter(Visit.id == visit_id).first()`: the position of the
      first visit with the id. */
  function IndexOfId(visits: seq<Visit>, id: int): (r: Option<int>)
    ensures r.None? <==> forall v :: v in visits ==> v.id != id
    ensures r.Some? ==>
      && 0 <= r.value < |visits| && visits[r.value].id == id
      && forall j :: 0 <= j < r.value ==> visits[j].id != id
  {
    if |visits| == 0 then None
    else if visits[0].id == id then Some(0)
    else match IndexOfId(visits[1..], id)
      case None =>
        assert forall v :: v in visits ==> v == visits[0] || v in visits[1..];
        None
      case Some(k) => Some(k + 1)
  }

  /** `api_cancel_visit`: not found, then not yours (unless admin), then
      the visit is deleted. */
  method ApiCancelVisit(store: VisitStore, visitId: int, patientId: int) returns (r: Response<string>)
    requires store.Valid()
    modifies store
    ensures store.Valid()
    ensures store.nextId == old(store.nextId)
    ensures match IndexOfId(old(store.visits), visitId)
      case None => r == Failure(404, "not_found") && store.visits == old(store.visits)
      case Some(k) =>
        if !IsAdmin(patientId) && old(store.visits)[k].patientId != patientId then
          r == Failure(403, "forbidden") && store.visits == old(store.visits)
        else
          r == Success("deleted") && store.visits == old(store.visits)[..k] + old(store.visits)[k + 1..]
  {
    var k := IndexOfId(store.visits, visitId);
    if k.None? {
      return Failure(404, "not_found");
    }
    if !IsAdmin(patientId) && store.visits[k.value].patientId != patientId {
      return Failure(403, "forbidden");
    }
    store.Delete(k.value);
    r := Success("deleted");
  }

  /** Cancelling removes exactly the visit with the id: with ids unique, no
      visit with that id remains and every other visit stays. */
  lemma CancelRemovesExactlyThatVisit(visits: seq<Visit>, id: int)
    requires UniqueIds(visits) && IndexOfId(visits, id).Some?
    ensures var k := IndexOfId(visits, id).value;
      var rest := visits[..k] + visits[k + 1..];
      && (forall v :: v in rest ==> v.id != id)
      && multiset(rest) + multiset{visits[k]} == multiset(visits)
  {
    var k := IndexOfId(visits, id).value;
    var rest := visits[..k] + visits[k + 1..];
    RemoveAt(visits, k);
    forall v | v in rest ensures v.id != id {
      var i :| 0 <= i < |rest| && rest[i] == v;
      if i < k {
        assert v == visits[i];
        assert visits[i].id != visits[k].id;
      } else {
        assert v == visits[i + 1];
        assert visits[k].id != visits[i + 1].id;
      }
    }
  }

  /** Removing position `k` drops exactly that element and shifts the rest down. */
  lemma RemoveAt<T>(s: seq<T>, k: nat)
    requires k < |s|
    ensures multiset(s[..k] + s[k + 1..]) + multiset{s[k]} == multiset(s)
    ensures forall i :: 0 <= i < k ==> (s[..k] + s[k + 1..])[i] == s[i]
    ensures forall i :: k < i < |s| ==> (s[..k] + s[k + 1..])[i - 1] == s[i]
  {
    assert s == s[..k] + [s[k]] + s[k + 1..];
  }
}
