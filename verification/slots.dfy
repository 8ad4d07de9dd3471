/** The slot generator of the slot service (`search_doctor_slots`,
    `search_service_slots`): every matching schedule window is scanned minute
    by minute, each candidate start is tagged free or busy against the
    provider's visits of that day, and the merged list is sorted. */
module Slots {
  import opened Wrappers
  import opened Instants
  import opened Models
  import opened Occupancy
  import opened StableSort

  /** The provider a schedule window belongs to, as the scan sees it. */
  datatype Provider = Provider(kind: VisitType, id: int, name: string, durationMinutes: int, bufferMinutes: int)

  /** One schedule row joined with its provider and its clinic. */
  datatype Window = Window(provider: Provider, clinic: Clinic, workDate: int, timeStart: TimeOfDay, timeEnd: TimeOfDay)

  /** One entry of the search result; `start`/`end` are instants (the API
      formats them as `YYYY-MM-DDTHH:MM:SS`). */
  datatype Slot = Slot(
    slotType: VisitType,
    clinicId: int,
    clinicName: string,
    district: string,
    doctorId: Option<int>,
    doctorName: Option<string>,
    serviceId: Option<int>,
    serviceName: Option<string>,
    start: int,
    end: int,
    isFree: bool,
    busyPatientId: Option<int>)

  /** The search parameters every window shares. */
  datatype SlotQuery = SlotQuery(timeFrom: int, timeTo: int, includeBusy: bool, isAdmin: bool)

  function WindowStart(w: Window): int {
    Combine(w.workDate, w.timeStart)
  }

  function WindowEnd(w: Window): int {
    Combine(w.workDate, w.timeEnd)
  }

  /** The provider's visits that start on the window's date. */
  function DayVisits(w: Window, store: seq<Visit>): seq<Visit> {
    VisitsOnDay(store, w.provider.kind, w.provider.id, w.workDate)
  }

  /** The cursor's first value: the later of the window start and the query
      start, rounded up to a whole minute. */
  function FirstCursor(w: Window, q: SlotQuery): int {
    AlignUp(if WindowStart(w) < q.timeFrom then q.timeFrom else WindowStart(w))
  }

  /** The loop condition: the appointment (without its buffer) ends inside the
      window, and the start is before the query end. */
  predicate InLoop(w: Window, q: SlotQuery, t: int) {
    t + Minutes(w.provider.durationMinutes) <= WindowEnd(w) && t < q.timeTo
  }

  /** The overlap test for a candidate start. */
  function BusyPatient(w: Window, store: seq<Visit>, t: int): Option<int> {
    FirstConflict(t, w.provider.durationMinutes, w.provider.bufferMinutes, DayVisits(w, store))
  }

  /** The visibility rule: free slots always, busy ones only for an admin who asked. */
  predicate Emitted(busy: Option<int>, q: SlotQuery) {
    busy.None? || (q.includeBusy && q.isAdmin)
  }

  function MakeSlot(w: Window, t: int, busy: Option<int>, isAdmin: bool): Slot {
    var p := w.provider;
    Slot(p.kind, w.clinic.id, w.clinic.name, w.clinic.district,
      if p.kind == DOCTOR then Some(p.id) else None,
      if p.kind == DOCTOR then Some(p.name) else None,
      if p.kind == SERVICE then Some(p.id) else None,
      if p.kind == SERVICE then Some(p.name) else None,
      t, t + Minutes(p.durationMinutes), busy.None?,
      if isAdmin then busy else None)
  }

  /** The slots the scan emits from cursor position `t` on. */
  function SlotsFrom(w: Window, store: seq<Visit>, q: SlotQuery, t: int): seq<Slot>
    decreases q.timeTo - t
  {
    if InLoop(w, q, t) then
      var busy := BusyPatient(w, store, t);
      (if Emitted(busy, q) then [MakeSlot(w, t, busy, q.isAdmin)] else [])
        + SlotsFrom(w, store, q, t + MICROS_PER_MINUTE)
    else
      []
  }

  /** The slots one schedule window contributes. */
  function WindowSlots(w: Window, store: seq<Visit>, q: SlotQuery): seq<Slot> {
    SlotsFrom(w, store, q, FirstCursor(w, q))
  }

  /** One step of the scan. */
  lemma SlotsFromStep(w: Window, store: seq<Visit>, q: SlotQuery, t: int)
    requires InLoop(w, q, t)
    ensures SlotsFrom(w, store, q, t) ==
      (if Emitted(BusyPatient(w, store, t), q) then [MakeSlot(w, t, BusyPatient(w, store, t), q.isAdmin)] else [])
        + SlotsFrom(w, store, q, t + MICROS_PER_MINUTE)
  {
  }

  /** One iteration of the scan keeps "emitted so far + still to come" equal
      to the whole window's slots. */
  lemma ScanStep(w: Window, store: seq<Visit>, q: SlotQuery, slots: seq<Slot>, t: int, busy: Option<int>)
    requires InLoop(w, q, t) && busy == BusyPatient(w, store, t)
    ensures (if Emitted(busy, q) then slots + [MakeSlot(w, t, busy, q.isAdmin)] else slots)
              + SlotsFrom(w, store, q, t + MICROS_PER_MINUTE)
            == slots + SlotsFrom(w, store, q, t)
  {
    SlotsFromStep(w, store, q, t);
    if Emitted(busy, q) {
      var x := MakeSlot(w, t, busy, q.isAdmin);
      assert (slots + [x]) + SlotsFrom(w, store, q, t + MICROS_PER_MINUTE)
          == slots + ([x] + SlotsFrom(w, store, q, t + MICROS_PER_MINUTE));
    }
  }

  /** The source's minute alignment is `AlignUp`. */
  lemma AlignmentIsAlignUp(t: int)
    ensures (if t % MICROS_PER_MINUTE != 0 then t - t % MICROS_PER_MINUTE + MICROS_PER_MINUTE else t) == AlignUp(t)
  {
  }

  /** The inner loop of the search for one window. */
  method GenerateWindowSlots(w: Window, store: seq<Visit>, q: SlotQuery) returns (slots: seq<Slot>)
    ensures slots == WindowSlots(w, store, q)
  {
    var duration, buffer := w.provider.durationMinutes, w.provider.bufferMinutes;
    var windowStart, windowEnd := WindowStart(w), WindowEnd(w);
    var visits := DayVisits(w, store);
    var t := if windowStart < q.timeFrom then q.timeFrom else windowStart;
    AlignmentIsAlignUp(t);
    if t % MICROS_PER_MINUTE != 0 {
      t := t - t % MICROS_PER_MINUTE + MICROS_PER_MINUTE;
    }
    ghost var first := t;
    slots := [];
    while t + Minutes(duration) <= windowEnd && t < q.timeTo
      invariant slots + SlotsFrom(w, store, q, t) == SlotsFrom(w, store, q, first)
      decreases q.timeTo - t
    {
      var busy := Overlaps(t, duration, buffer, visits);
      ScanStep(w, store, q, slots, t, busy);
      var isFree := busy.None?;
      if isFree || (q.includeBusy && q.isAdmin) {
        slots := slots + [MakeSlot(w, t, busy, q.isAdmin)];
      }
      t := t + MICROS_PER_MINUTE;
    }
  }

  /** What every emitted slot satisfies. */
  ghost predicate SlotFits(w: Window, store: seq<Visit>, q: SlotQuery, s: Slot) {
    var p := w.provider;
    && IsWholeMinute(s.start)
    && WindowStart(w) <= s.start && q.timeFrom <= s.start
    && s.start < q.timeTo
    && s.start + Minutes(p.durationMinutes) <= WindowEnd(w)
    && s.end == s.start + Minutes(p.durationMinutes)
    && (s.isFree <==> forall v :: v in DayVisits(w, store) ==> !Conflicts(s.start, p.durationMinutes, p.bufferMinutes, v))
    && (!s.isFree ==> q.includeBusy && q.isAdmin)
    && (s.busyPatientId.Some? ==> q.isAdmin && !s.isFree)
    && (q.isAdmin ==> s.busyPatientId == BusyPatient(w, store, s.start))
    && s.slotType == p.kind && s.clinicId == w.clinic.id
    && s.clinicName == w.clinic.name && s.district == w.clinic.district
    && (p.kind == DOCTOR ==> s.doctorId == Some(p.id) && s.doctorName == Some(p.name) && s.serviceId.None?)
    && (p.kind == SERVICE ==> s.serviceId == Some(p.id) && s.serviceName == Some(p.name) && s.doctorId.None?)
  }

  lemma {:induction false} SlotsFromSound(w: Window, store: seq<Visit>, q: SlotQuery, t: int)
    requires IsWholeMinute(t) && FirstCursor(w, q) <= t
    ensures forall i :: 0 <= i < |SlotsFrom(w, store, q, t)| ==>
      SlotFits(w, store, q, SlotsFrom(w, store, q, t)[i]) && t <= SlotsFrom(w, store, q, t)[i].start
    decreases q.timeTo - t
  {
    if InLoop(w, q, t) {
      var busy := BusyPatient(w, store, t);
      var rest := SlotsFrom(w, store, q, t + MICROS_PER_MINUTE);
      SlotsFromSound(w, store, q, t + MICROS_PER_MINUTE);
      var head := if Emitted(busy, q) then [MakeSlot(w, t, busy, q.isAdmin)] else [];
      var r := head + rest;
      forall i | 0 <= i < |r| ensures SlotFits(w, store, q, r[i]) && t <= r[i].start {
        if i < |head| {
          var s := r[i];
          assert s == MakeSlot(w, t, busy, q.isAdmin);
          assert s.isFree <==> forall v :: v in DayVisits(w, store) ==>
            !Conflicts(s.start, w.provider.durationMinutes, w.provider.bufferMinutes, v) by {
            var vs := DayVisits(w, store);
            FirstConflictSpec(t, w.provider.durationMinutes, w.provider.bufferMinutes, vs);
            if !s.isFree {
              var j :| 0 <= j < |vs| && Conflicts(t, w.provider.durationMinutes, w.provider.bufferMinutes, vs[j]);
              assert vs[j] in vs;
            }
          }
        } else {
          assert r[i] == rest[i - |head|];
        }
      }
    }
  }

  /** Every slot of a window meets the window, query, free/busy and visibility rules. */
  lemma WindowSlotsSound(w: Window, store: seq<Visit>, q: SlotQuery)
    ensures forall s :: s in WindowSlots(w, store, q) ==> SlotFits(w, store, q, s)
  {
    SlotsFromSound(w, store, q, FirstCursor(w, q));
  }

  /** An administrator sees who occupies each busy slot: a busy slot shown
      to an admin carries the patient of the first conflicting visit. */
  lemma AdminSeesBusyPatient(w: Window, store: seq<Visit>, q: SlotQuery, s: Slot)
    requires s in WindowSlots(w, store, q) && q.isAdmin && !s.isFree
    ensures s.busyPatientId.Some?
    ensures s.busyPatientId == BusyPatient(w, store, s.start)
  {
    WindowSlotsSound(w, store, q);
    var p := w.provider;
    var vs := DayVisits(w, store);
    FirstConflictSpec(s.start, p.durationMinutes, p.bufferMinutes, vs);
  }

  lemma WholeMinutesApart(t: int, u: int)
    requires IsWholeMinute(t) && IsWholeMinute(u) && t < u
    ensures t + MICROS_PER_MINUTE <= u
    ensures IsWholeMinute(u - t)
  {
    var a, b := t / MICROS_PER_MINUTE, u / MICROS_PER_MINUTE;
    assert t == a * MICROS_PER_MINUTE && u == b * MICROS_PER_MINUTE;
    assert u - t == (b - a) * MICROS_PER_MINUTE;
  }

  /** Starts lie at or after the cursor, are whole minutes, and strictly
      increase in whole-minute steps. */
  lemma {:induction false} SlotsFromIncreasing(w: Window, store: seq<Visit>, q: SlotQuery, t: int)
    requires IsWholeMinute(t)
    ensures forall i :: 0 <= i < |SlotsFrom(w, store, q, t)| ==>
      t <= SlotsFrom(w, store, q, t)[i].start && IsWholeMinute(SlotsFrom(w, store, q, t)[i].start)
    ensures forall i, j :: 0 <= i < j < |SlotsFrom(w, store, q, t)| ==>
      SlotsFrom(w, store, q, t)[i].start < SlotsFrom(w, store, q, t)[j].start
      && IsWholeMinute(SlotsFrom(w, store, q, t)[j].start - SlotsFrom(w, store, q, t)[i].start)
    decreases q.timeTo - t
  {
    if InLoop(w, q, t) {
      var busy := BusyPatient(w, store, t);
      var rest := SlotsFrom(w, store, q, t + MICROS_PER_MINUTE);
      SlotsFromIncreasing(w, store, q, t + MICROS_PER_MINUTE);
      var head := if Emitted(busy, q) then [MakeSlot(w, t, busy, q.isAdmin)] else [];
      assert head + rest == SlotsFrom(w, store, q, t);
      PrependStart(t, head, rest);
    }
  }

  lemma PrependStart(t: int, head: seq<Slot>, rest: seq<Slot>)
    requires IsWholeMinute(t)
    requires |head| <= 1 && (|head| == 1 ==> head[0].start == t)
    requires forall i :: 0 <= i < |rest| ==>
      t + MICROS_PER_MINUTE <= rest[i].start && IsWholeMinute(rest[i].start)
    requires forall i, j :: 0 <= i < j < |rest| ==>
      rest[i].start < rest[j].start && IsWholeMinute(rest[j].start - rest[i].start)
    ensures forall i :: 0 <= i < |head + rest| ==>
      t <= (head + rest)[i].start && IsWholeMinute((head + rest)[i].start)
    ensures forall i, j :: 0 <= i < j < |head + rest| ==>
      (head + rest)[i].start < (head + rest)[j].start
      && IsWholeMinute((head + rest)[j].start - (head + rest)[i].start)
  {
    var r := head + rest;
    forall i | 0 <= i < |r| ensures t <= r[i].start && IsWholeMinute(r[i].start) {
      if i >= |head| {
        assert r[i] == rest[i - |head|];
      }
    }
    forall i, j | 0 <= i < j < |r| ensures r[i].start < r[j].start && IsWholeMinute(r[j].start - r[i].start) {
      assert r[j] == rest[j - |head|];
      if i < |head| {
        WholeMinutesApart(t, r[j].start);
      } else {
        assert r[i] == rest[i - |head|];
      }
    }
  }

  /** Completeness: every whole-minute start at or after the cursor that passes
      the loop condition and the visibility rule is emitted. */
  lemma {:induction false} SlotsFromComplete(w: Window, store: seq<Visit>, q: SlotQuery, t: int, u: int)
    requires IsWholeMinute(t) && IsWholeMinute(u) && t <= u
    requires InLoop(w, q, u) && Emitted(BusyPatient(w, store, u), q)
    ensures exists i :: 0 <= i < |SlotsFrom(w, store, q, t)| && SlotsFrom(w, store, q, t)[i].start == u
    decreases q.timeTo - t
  {
    assert InLoop(w, q, t);
    var busy := BusyPatient(w, store, t);
    var rest := SlotsFrom(w, store, q, t + MICROS_PER_MINUTE);
    var head := if Emitted(busy, q) then [MakeSlot(w, t, busy, q.isAdmin)] else [];
    var r := head + rest;
    assert SlotsFrom(w, store, q, t) == r;
    if u == t {
      assert r[0].start == u;
    } else {
      WholeMinutesApart(t, u);
      SlotsFromComplete(w, store, q, t + MICROS_PER_MINUTE, u);
      var i :| 0 <= i < |rest| && rest[i].start == u;
      assert r[i + |head|] == rest[i];
    }
  }

  /** The slots of one window are exactly the whole-minute starts from the first
      cursor on that pass the loop condition and the visibility rule, in
      increasing order. */
  lemma WindowSlotsExact(w: Window, store: seq<Visit>, q: SlotQuery)
    ensures forall s :: s in WindowSlots(w, store, q) ==> SlotFits(w, store, q, s) && FirstCursor(w, q) <= s.start
    ensures forall i, j :: 0 <= i < j < |WindowSlots(w, store, q)| ==>
      WindowSlots(w, store, q)[i].start < WindowSlots(w, store, q)[j].start
    ensures forall u :: IsWholeMinute(u) && FirstCursor(w, q) <= u && InLoop(w, q, u) && Emitted(BusyPatient(w, store, u), q) ==>
      exists i :: 0 <= i < |WindowSlots(w, store, q)| && WindowSlots(w, store, q)[i].start == u
  {
    var t := FirstCursor(w, q);
    SlotsFromSound(w, store, q, t);
    SlotsFromIncreasing(w, store, q, t);
    forall u | IsWholeMinute(u) && t <= u && InLoop(w, q, u) && Emitted(BusyPatient(w, store, u), q)
      ensures exists i :: 0 <= i < |WindowSlots(w, store, q)| && WindowSlots(w, store, q)[i].start == u
    {
      assert WindowSlots(w, store, q) == SlotsFrom(w, store, q, t);
      SlotsFromComplete(w, store, q, t, u);
    }
  }

  /** The slots of all windows, in window order, before sorting. */
  function Generated(windows: seq<Window>, store: seq<Visit>, q: SlotQuery): seq<Slot> {
    if |windows| == 0 then []
    else Generated(windows[..|windows| - 1], store, q) + WindowSlots(windows[|windows| - 1], store, q)
  }

  /** The sort key: the start, then the doctor or service name (`or ""`). */
  function SlotKey(kind: VisitType): Slot -> SortKey {
    match kind
    case DOCTOR => (s: Slot) => SortKey(s.start, s.doctorName.GetOr(""))
    case SERVICE => (s: Slot) => SortKey(s.start, s.serviceName.GetOr(""))
  }

  /** The specified result of a search over the windows of one provider kind. */
  function SearchResult(kind: VisitType, windows: seq<Window>, store: seq<Visit>, q: SlotQuery): seq<Slot> {
    Sort(Generated(windows, store, q), SlotKey(kind))
  }

  /** The window loop and the final sort of `search_doctor_slots` / `search_service_slots`. */
  method SearchSlots(kind: VisitType, windows: seq<Window>, store: seq<Visit>, q: SlotQuery) returns (slots: seq<Slot>)
    ensures slots == SearchResult(kind, windows, store, q)
  {
    slots := [];
    for i := 0 to |windows|
      invariant slots == Generated(windows[..i], store, q)
    {
      var ws := GenerateWindowSlots(windows[i], store, q);
      assert windows[..i + 1][..i] == windows[..i];
      slots := slots + ws;
    }
    assert windows[..|windows|] == windows;
    slots := Sort(slots, SlotKey(kind));
  }

  lemma {:induction false} GeneratedFromWindows(windows: seq<Window>, store: seq<Visit>, q: SlotQuery)
    ensures forall s :: s in Generated(windows, store, q) ==>
      exists j :: 0 <= j < |windows| && SlotFits(windows[j], store, q, s)
  {
    if |windows| > 0 {
      var init := windows[..|windows| - 1];
      var last := windows[|windows| - 1];
      GeneratedFromWindows(init, store, q);
      WindowSlotsSound(last, store, q);
      forall s | s in Generated(windows, store, q)
        ensures exists j :: 0 <= j < |windows| && SlotFits(windows[j], store, q, s)
      {
        if s in Generated(init, store, q) {
          var j :| 0 <= j < |init| && SlotFits(init[j], store, q, s);
          assert windows[j] == init[j];
        } else {
          assert SlotFits(windows[|windows| - 1], store, q, s);
        }
      }
    }
  }

  /** The search result: sorted by (start, name); a permutation of the generated
      slots, so slots produced twice by overlapping windows stay twice; stable,
      so slots with equal keys keep generation order; and every slot fits one
      of the windows. */
  lemma SearchResultProperties(kind: VisitType, windows: seq<Window>, store: seq<Visit>, q: SlotQuery)
    ensures SortedBy(SearchResult(kind, windows, store, q), SlotKey(kind))
    ensures multiset(SearchResult(kind, windows, store, q)) == multiset(Generated(windows, store, q))
    ensures forall k ::
      WithKey(SearchResult(kind, windows, store, q), SlotKey(kind), k) == WithKey(Generated(windows, store, q), SlotKey(kind), k)
    ensures forall s :: s in SearchResult(kind, windows, store, q) ==>
      exists j :: 0 <= j < |windows| && SlotFits(windows[j], store, q, s)
  {
    var g := Generated(windows, store, q);
    SortSorted(g, SlotKey(kind));
    SortPermutes(g, SlotKey(kind));
    forall k ensures WithKey(SearchResult(kind, windows, store, q), SlotKey(kind), k) == WithKey(g, SlotKey(kind), k) {
      SortStable(g, SlotKey(kind), k);
    }
    GeneratedFromWindows(windows, store, q);
    forall s | s in SearchResult(kind, windows, store, q)
      ensures exists j :: 0 <= j < |windows| && SlotFits(windows[j], store, q, s)
    {
      assert s in multiset(SearchResult(kind, windows, store, q));
      assert s in g;
    }
  }

  /** Overlapping windows are not deduplicated: a window listed twice
      contributes each of its slots twice. */
  lemma RepeatedWindowDoublesSlots(kind: VisitType, w: Window, store: seq<Visit>, q: SlotQuery)
    ensures forall s :: multiset(SearchResult(kind, [w, w], store, q))[s] == 2 * multiset(WindowSlots(w, store, q))[s]
  {
    var g := Generated([w, w], store, q);
    assert [w, w][..1] == [w];
    assert [w][..0] == [];
    assert Generated([w], store, q) == [] + WindowSlots(w, store, q);
    assert g == Generated([w], store, q) + WindowSlots(w, store, q);
    SortPermutes(g, SlotKey(kind));
  }

  /** A row of the doctor schedule query, joined with its doctor and clinic. */
  datatype DoctorRow = DoctorRow(schedule: DoctorSchedule, doctor: Doctor, clinic: Clinic)

  /** A row of the service schedule query, joined with its service and the
      service's clinic. */
  datatype ServiceRow = ServiceRow(schedule: ServiceSchedule, service: Service, clinic: Clinic)

  function DoctorWindow(r: DoctorRow): Window {
    Window(Provider(DOCTOR, r.doctor.id, DoctorName(r.doctor), r.doctor.durationMinutes, r.doctor.bufferMinutes),
      r.clinic, r.schedule.workDate, r.schedule.timeStart, r.schedule.timeEnd)
  }

  function ServiceWindow(r: ServiceRow): Window {
    Window(Provider(SERVICE, r.service.id, r.service.name, r.service.durationMinutes, r.service.bufferMinutes),
      r.clinic, r.schedule.workDate, r.schedule.timeStart, r.schedule.timeEnd)
  }

  function DoctorWindows(rows: seq<DoctorRow>): (ws: seq<Window>)
    ensures |ws| == |rows| && forall i :: 0 <= i < |rows| ==> ws[i] == DoctorWindow(rows[i])
  {
    if |rows| == 0 then [] else [DoctorWindow(rows[0])] + DoctorWindows(rows[1..])
  }

  function ServiceWindows(rows: seq<ServiceRow>): (ws: seq<Window>)
    ensures |ws| == |rows| && forall i :: 0 <= i < |rows| ==> ws[i] == ServiceWindow(rows[i])
  {
    if |rows| == 0 then [] else [ServiceWindow(rows[0])] + ServiceWindows(rows[1..])
  }

  /** `search_doctor_slots` over the rows its schedule query selected. */
  method SearchDoctorSlots(rows: seq<DoctorRow>, store: seq<Visit>, q: SlotQuery) returns (slots: seq<Slot>)
    ensures slots == SearchResult(DOCTOR, DoctorWindows(rows), store, q)
  {
    slots := SearchSlots(DOCTOR, DoctorWindows(rows), store, q);
  }

  /** `search_service_slots` over the rows its schedule query selected. */
  method SearchServiceSlots(rows: seq<ServiceRow>, store: seq<Visit>, q: SlotQuery) returns (slots: seq<Slot>)
    ensures slots == SearchResult(SERVICE, ServiceWindows(rows), store, q)
  {
    slots := SearchSlots(SERVICE, ServiceWindows(rows), store, q);
  }
}
