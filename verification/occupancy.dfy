/** Occupied intervals of visits and the overlap test of the slot service. */
module Occupancy {
  import opened Wrappers
  import opened Instants
  import opened Models

  /** End of a visit's occupied interval `[start, start + duration + buffer)`:
      the buffer blocks time after the appointment. */
  function OccupiedEnd(v: Visit): int {
    v.start + Minutes(v.durationMinutes + v.bufferMinutes)
  }

  /** The test `_overlaps` applies to each visit: the candidate occupied
      interval `[start, start + duration + buffer)` meets the visit's. */
  predicate Conflicts(start: int, duration: int, buffer: int, v: Visit) {
    start < OccupiedEnd(v) && v.start < start + Minutes(duration + buffer)
  }

  predicate Within(x: int, lo: int, hi: int) {
    lo <= x < hi
  }

  /** For non-empty intervals the test is exactly "the two half-open intervals
      share an instant". */
  lemma ConflictsIffSharedInstant(start: int, duration: int, buffer: int, v: Visit)
    requires duration + buffer > 0 && v.durationMinutes + v.bufferMinutes > 0
    ensures Conflicts(start, duration, buffer, v) <==>
      exists x :: Within(x, start, start + Minutes(duration + buffer)) && Within(x, v.start, OccupiedEnd(v))
  {
    if Conflicts(start, duration, buffer, v) {
      var x := if start < v.start then v.start else start;
      assert Within(x, start, start + Minutes(duration + buffer)) && Within(x, v.start, OccupiedEnd(v));
    }
  }

  /** Specification of `_overlaps`: the patient of the first visit, in list
      order, whose occupied interval meets the candidate's; None when there is none. */
  function FirstConflict(start: int, duration: int, buffer: int, visits: seq<Visit>): Option<int> {
    if |visits| == 0 then None
    else if Conflicts(start, duration, buffer, visits[0]) then Some(visits[0].patientId)
    else FirstConflict(start, duration, buffer, visits[1..])
  }

  /** The overlap test reports nothing exactly when no visit conflicts, and
      otherwise the patient of the first conflicting visit in list order. */
  lemma {:induction false} FirstConflictSpec(start: int, duration: int, buffer: int, visits: seq<Visit>)
    ensures FirstConflict(start, duration, buffer, visits).None? <==>
      forall i :: 0 <= i < |visits| ==> !Conflicts(start, duration, buffer, visits[i])
    ensures FirstConflict(start, duration, buffer, visits).Some? ==>
      (exists i :: 0 <= i < |visits| && Conflicts(start, duration, buffer, visits[i])
        && FirstConflict(start, duration, buffer, visits).value == visits[i].patientId
        && (forall j :: 0 <= j < i ==> !Conflicts(start, duration, buffer, visits[j])))
  {
    if |visits| > 0 && !Conflicts(start, duration, buffer, visits[0]) {
      FirstConflictSpec(start, duration, buffer, visits[1..]);
      assert forall i :: 1 <= i < |visits| ==> visits[i] == visits[1..][i - 1];
      if FirstConflict(start, duration, buffer, visits).Some? {
        var i :| 0 <= i < |visits[1..]| && Conflicts(start, duration, buffer, visits[1..][i])
          && FirstConflict(start, duration, buffer, visits).value == visits[1..][i].patientId
          && (forall j :: 0 <= j < i ==> !Conflicts(start, duration, buffer, visits[1..][j]));
        assert visits[i + 1] == visits[1..][i];
      }
    }
  }

  /** `_overlaps`: a linear search with an early return. */
  method Overlaps(start: int, duration: int, buffer: int, visits: seq<Visit>) returns (busy: Option<int>)
    ensures busy == FirstConflict(start, duration, buffer, visits)
  {
    for i := 0 to |visits|
      invariant FirstConflict(start, duration, buffer, visits) == FirstConflict(start, duration, buffer, visits[i..])
    {
      if Conflicts(start, duration, buffer, visits[i]) {
        return Some(visits[i].patientId);
      }
      assert visits[i..][1..] == visits[i + 1..];
    }
    assert visits[|visits|..] == [];
    return None;
  }

  /** The visit belongs to the provider: same visit type and same doctor or service id. */
  predicate OfProvider(v: Visit, kind: VisitType, providerId: int) {
    v.visitType == kind &&
    match kind
    case DOCTOR => v.doctorId == Some(providerId)
    case SERVICE => v.serviceId == Some(providerId)
  }

  /** The day filter of the visit queries: from midnight of `day` (inclusive)
      to midnight of the next day (exclusive). */
  predicate StartsOn(v: Visit, day: int) {
    Combine(day, 0) <= v.start < Combine(day + 1, 0)
  }

  /** The day filter selects exactly the visits whose start date is `day`. */
  lemma StartsOnIffSameDate(v: Visit, day: int)
    ensures StartsOn(v, day) <==> DayOf(v.start) == day
  {
    var d := DayOf(v.start);
    assert Combine(d, 0) <= v.start < Combine(d + 1, 0) by {
      CombineSplit(v.start);
    }
    if d < day {
      assert Combine(d + 1, 0) <= Combine(day, 0);
    } else if d > day {
      assert Combine(day + 1, 0) <= Combine(d, 0);
    }
  }

  /** `_get_doctor_visits` / `_get_service_visits`: the provider's visits that
      start on `day`, in store order. */
  function VisitsOnDay(visits: seq<Visit>, kind: VisitType, providerId: int, day: int): (r: seq<Visit>)
    ensures forall v :: v in r <==> v in visits && OfProvider(v, kind, providerId) && StartsOn(v, day)
    ensures |r| <= |visits|
  {
    if |visits| == 0 then []
    else
      var rest := VisitsOnDay(visits[1..], kind, providerId, day);
      assert forall v :: v in visits <==> v == visits[0] || v in visits[1..];
      if OfProvider(visits[0], kind, providerId) && StartsOn(visits[0], day) then [visits[0]] + rest else rest
  }
}
