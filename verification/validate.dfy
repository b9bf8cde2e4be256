/**
  The two checks of the validator: per-train timing consistency and the
  pairwise single-track section conflict scan.
*/
module Validate {
  import opened Wrappers
  import opened TimeCodec
  import opened Records

  // =====================================================================
  // Timing consistency
  // =====================================================================

  /** A stop passes when it has a station, an arrival and a departure, both
      times parse, and the train does not leave before it arrives (leaving
      in the same minute is allowed). */
  predicate StopConsistent(stop: Stop) {
    && stop.station.Some?
    && Timed(stop)
    && DepartureMinutes(stop) >= ArrivalMinutes(stop)
  }

  predicate TimingConsistent(schedule: seq<Stop>) {
    forall k :: 0 <= k < |schedule| ==> StopConsistent(schedule[k])
  }

  /** `validate_timing_consistency`: walks the schedule and stops at the first
      stop with a missing field, an unparsable time or an inverted dwell. */
  method ValidateTimingConsistency(train: Train) returns (ok: bool)
    ensures ok <==> TimingConsistent(train.schedule)
  {
    var i := 0;
    while i < |train.schedule|
      invariant 0 <= i <= |train.schedule|
      invariant forall k :: 0 <= k < i ==> StopConsistent(train.schedule[k])
    {
      var stop := train.schedule[i];
      if !(stop.station.Some? && stop.arrival.Some? && stop.departure.Some?) {
        return false;
      }
      var arrival := ParseTime(stop.arrival.value);
      var departure := ParseTime(stop.departure.value);
      if arrival.None? || departure.None? {
        return false;
      }
      if departure.value < arrival.value {
        return false;
      }
      forall k | 0 <= k <= i
        ensures StopConsistent(train.schedule[k])
      {
        if k == i {
          // the stop just checked: this case split lets the solver use the call above
        }
      }
      i := i + 1;
    }
    return true;
  }

  /** A schedule without stops is consistent. */
  lemma EmptyScheduleConsistent()
    ensures TimingConsistent([])
  {
  }

  /** A stop that leaves in the minute it arrives is accepted, whether or not
      the two texts are spelled alike ("8:30" and "08:30"). */
  lemma ZeroDwellAccepted(station: string, arrival: string, departure: string)
    requires ParseTime(arrival).Some? && ParseTime(departure) == ParseTime(arrival)
    ensures StopConsistent(Stop(Some(station), Some(arrival), Some(departure)))
  {
  }

  /** One bad stop anywhere fails the whole train. */
  lemma OneBadStopFailsTrain(schedule: seq<Stop>, k: int)
    requires 0 <= k < |schedule| && !StopConsistent(schedule[k])
    ensures !TimingConsistent(schedule)
  {
  }

  /** Consistency of a concatenation is consistency of both halves. */
  lemma {:induction false} ConsistentAppend(a: seq<Stop>, b: seq<Stop>)
    ensures TimingConsistent(a + b) <==> TimingConsistent(a) && TimingConsistent(b)
  {
    if TimingConsistent(a + b) {
      assert forall k :: 0 <= k < |a| ==> (a + b)[k] == a[k];
      assert forall k :: 0 <= k < |b| ==> (a + b)[|a| + k] == b[k];
    }
  }

  // =====================================================================
  // Section index
  // =====================================================================

  /** The ordered station pair a section runs between. */
  type Route = (string, string)

  function RouteOf(s: Section): Route {
    (s.origin, s.destination)
  }

  /** Position `k` holds the last section of the list whose route is `key`. */
  ghost predicate LastWithRoute(sections: seq<Section>, k: int, key: Route) {
    && 0 <= k < |sections|
    && RouteOf(sections[k]) == key
    && forall k' :: k < k' < |sections| ==> RouteOf(sections[k']) != key
  }

  /** `m` maps exactly the routes of the list, each to the id of the last
      section listed with that route. */
  ghost predicate IndexesLast(m: map<Route, string>, sections: seq<Section>) {
    && (forall k :: 0 <= k < |sections| ==> RouteOf(sections[k]) in m)
    && (forall key :: key in m ==> exists k :: LastWithRoute(sections, k, key) && m[key] == sections[k].id)
  }

  /** `section_map`: ordered station pair to section id, built in list
      order so that a later section with the same pair overwrites. */
  function SectionMap(sections: seq<Section>): (m: map<Route, string>)
    ensures m.Keys == set k | 0 <= k < |sections| :: RouteOf(sections[k])
  {
    if |sections| == 0 then map[]
    else
      var init := sections[..|sections| - 1];
      var last := sections[|sections| - 1];
      assert forall k :: 0 <= k < |init| ==> init[k] == sections[k];
      SectionMap(init)[RouteOf(last) := last.id]
  }

  /** The section map holds every route of the list, each mapped to the id
      of the last section listed with that route. */
  lemma {:induction false} SectionMapIndexesLast(sections: seq<Section>)
    ensures IndexesLast(SectionMap(sections), sections)
    decreases |sections|
  {
    if |sections| > 0 {
      var init := sections[..|sections| - 1];
      var last := sections[|sections| - 1];
      assert init + [last] == sections;
      SectionMapIndexesLast(init);
      IndexesLastExtend(SectionMap(init), init, last);
    }
  }

  /** Appending a section overrides its route and keeps the other entries. */
  lemma IndexesLastExtend(m: map<Route, string>, init: seq<Section>, last: Section)
    requires IndexesLast(m, init)
    ensures IndexesLast(m[RouteOf(last) := last.id], init + [last])
  {
    var sections := init + [last];
    var m' := m[RouteOf(last) := last.id];
    forall k | 0 <= k < |sections|
      ensures RouteOf(sections[k]) in m'
    {
      if k < |init| {
        assert sections[k] == init[k];
      }
    }
    forall key | key in m'
      ensures exists k :: LastWithRoute(sections, k, key) && m'[key] == sections[k].id
    {
      if key == RouteOf(last) {
        assert LastWithRoute(sections, |init|, key);
      } else {
        var k :| LastWithRoute(init, k, key) && m[key] == init[k].id;
        assert sections[k] == init[k];
        forall k' | k < k' < |sections|
          ensures RouteOf(sections[k']) != key
        {
          if k' < |init| {
            assert sections[k'] == init[k'];
          }
        }
        assert LastWithRoute(sections, k, key);
      }
    }
  }

  /** The id a route maps to is the id of the last section listed with it. */
  lemma SectionMapLastWins(sections: seq<Section>, k: int)
    requires 0 <= k < |sections|
    requires forall k' :: k < k' < |sections| ==> RouteOf(sections[k']) != RouteOf(sections[k])
    ensures SectionMap(sections)[RouteOf(sections[k])] == sections[k].id
  {
    SectionMapIndexesLast(sections);
    var m := SectionMap(sections);
    var key := RouteOf(sections[k]);
    assert key in m;
    var j :| LastWithRoute(sections, j, key) && m[key] == sections[j].id;
    assert j == k;
  }

  /** Keys are ordered: a section from A to B does not index the route from
      B to A. */
  lemma SectionMapDirected(a: string, b: string, id: string, capacity: int)
    requires a != b
    ensures (b, a) !in SectionMap([Section(id, a, b, capacity)])
  {
  }

  // =====================================================================
  // Capacity lookup by position
  // =====================================================================

  /** `int(section_id[2:]) - 1`: the list position encoded in an id after a
      two-character prefix. */
  function SectionPosition(id: string): Option<int> {
    var suffix := if |id| >= 2 then id[2..] else "";
    match ParseInt(suffix)
    case Some(n) => Some(n - 1)
    case None => None
  }

  /** The id names a valid Python index into `sections` (negative indices
      count from the end). */
  predicate Resolves(sections: seq<Section>, id: string) {
    SectionPosition(id).Some? && -|sections| <= SectionPosition(id).value < |sections|
  }

  /** `sections_data[int(id[2:]) - 1]['capacity_tracks']`. */
  function CapacityOf(sections: seq<Section>, id: string): int
    requires Resolves(sections, id)
  {
    var p := SectionPosition(id).value;
    if p >= 0 then sections[p].capacity else sections[|sections| + p].capacity
  }

  /** Every section id resolves to a list position. */
  predicate IdsResolve(sections: seq<Section>) {
    forall k :: 0 <= k < |sections| ==> Resolves(sections, sections[k].id)
  }

  predicate MapResolves(smap: map<Route, string>, sections: seq<Section>) {
    forall key :: key in smap ==> Resolves(sections, smap[key])
  }

  /** Every id the section map can return resolves to a list position. Only
      such ids reach the capacity lookup; an id overwritten in the map by a
      later section with the same route is never read. */
  predicate MappedIdsResolve(sections: seq<Section>) {
    MapResolves(SectionMap(sections), sections)
  }

  /** The section whose id ends in k sits at list position k - 1. */
  predicate WellIndexed(sections: seq<Section>) {
    forall k :: 0 <= k < |sections| ==> SectionPosition(sections[k].id) == Some(k)
  }

  lemma SectionMapResolves(sections: seq<Section>)
    requires IdsResolve(sections)
    ensures MapResolves(SectionMap(sections), sections)
  {
    SectionMapIndexesLast(sections);
    var m := SectionMap(sections);
    forall key | key in m
      ensures Resolves(sections, m[key])
    {
      var k :| LastWithRoute(sections, k, key) && m[key] == sections[k].id;
    }
  }

  /** On a well-indexed list the positional lookup reads the capacity of the
      section the route maps to: that of the last section with the route. */
  lemma WellIndexedCapacity(sections: seq<Section>, k: int)
    requires WellIndexed(sections)
    requires 0 <= k < |sections|
    requires forall k' :: k < k' < |sections| ==> RouteOf(sections[k']) != RouteOf(sections[k])
    ensures IdsResolve(sections)
    ensures RouteOf(sections[k]) in SectionMap(sections)
    ensures SectionMap(sections)[RouteOf(sections[k])] == sections[k].id
    ensures Resolves(sections, sections[k].id) && CapacityOf(sections, sections[k].id) == sections[k].capacity
  {
    WellIndexedResolves(sections);
    SectionMapLastWins(sections, k);
    assert SectionPosition(sections[k].id) == Some(k);
  }

  /** On a well-indexed list every id resolves, to its own position. */
  lemma WellIndexedResolves(sections: seq<Section>)
    requires WellIndexed(sections)
    ensures IdsResolve(sections)
    ensures forall k :: 0 <= k < |sections| ==> CapacityOf(sections, sections[k].id) == sections[k].capacity
  {
    forall k | 0 <= k < |sections|
      ensures Resolves(sections, sections[k].id)
      ensures CapacityOf(sections, sections[k].id) == sections[k].capacity
    {
      assert SectionPosition(sections[k].id) == Some(k);
    }
  }

  // =====================================================================
  // Segments and their time windows
  // =====================================================================

  /** Fields a stop needs when a segment starts from it. */
  predicate DepartReady(stop: Stop) {
    stop.station.Some? && stop.departure.Some? && ParseTime(stop.departure.value).Some?
  }

  /** Fields a stop needs when a segment ends at it. */
  predicate ArriveReady(stop: Stop) {
    stop.station.Some? && stop.arrival.Some? && ParseTime(stop.arrival.value).Some?
  }

  /** Every adjacent-stop segment of the train can be read: stations present,
      departure of its first stop and arrival of its second stop parsable. */
  predicate SegmentsReady(t: Train) {
    && (forall s :: 0 <= s < |t.schedule| - 1 ==> DepartReady(t.schedule[s]))
    && (forall s :: 0 < s < |t.schedule| ==> ArriveReady(t.schedule[s]))
  }

  /** Every segment of the train has a departure key on its first stop and an
      arrival key on its second stop; the values need not parse. */
  predicate TimesPresent(t: Train) {
    && (forall s :: 0 <= s < |t.schedule| - 1 ==> t.schedule[s].departure.Some?)
    && (forall s :: 0 < s < |t.schedule| ==> t.schedule[s].arrival.Some?)
  }

  /** What the scan of the pair (t1, t2) reads. The outer segment loop looks
      up both time keys of each segment of `t1` before the inner loop runs,
      so those keys must exist even when `t2` has no segment; the times are
      compared, and the stations read, only when both trains have a
      segment. */
  predicate PairReady(t1: Train, t2: Train) {
    && TimesPresent(t1)
    && (|t1.schedule| >= 2 && |t2.schedule| >= 2 ==> SegmentsReady(t1) && SegmentsReady(t2))
  }

  /** The scan can read every key and compare every time it reaches, for
      every pair i < j it visits. */
  predicate FleetReady(trains: seq<Train>) {
    forall i, j :: 0 <= i < j < |trains| ==> PairReady(trains[i], trains[j])
  }

  predicate IsSegment(t: Train, s: int) {
    0 <= s < |t.schedule| - 1
  }

  /** A train with a segment whose departure or arrival key is missing makes
      the scan raise as soon as any later train is listed, whatever that
      train's schedule: such a fleet is not ready. */
  lemma MissingTimeKeyNotReady(trains: seq<Train>, i: int, s: int)
    requires 0 <= i < |trains| - 1 && IsSegment(trains[i], s)
    requires trains[i].schedule[s].departure.None? || trains[i].schedule[s + 1].arrival.None?
    ensures !FleetReady(trains)
  {
    assert !PairReady(trains[i], trains[|trains| - 1]);
  }

  function SegmentRoute(t: Train, s: int): Route
    requires SegmentsReady(t) && IsSegment(t, s)
  {
    (t.schedule[s].station.value, t.schedule[s + 1].station.value)
  }

  /** Departure from the first stop of the segment. */
  function SegmentStart(t: Train, s: int): int
    requires SegmentsReady(t) && IsSegment(t, s)
  {
    ParseTime(t.schedule[s].departure.value).value
  }

  /** Arrival at the second stop of the segment. */
  function SegmentEnd(t: Train, s: int): int
    requires SegmentsReady(t) && IsSegment(t, s)
  {
    ParseTime(t.schedule[s + 1].arrival.value).value
  }

  function Max(a: int, b: int): int { if a >= b then a else b }

  function Min(a: int, b: int): int { if a <= b then a else b }

  /** `max(start1, start2) < min(end1, end2)`. */
  predicate Overlaps(start1: int, end1: int, start2: int, end2: int) {
    Max(start1, start2) < Min(end1, end2)
  }

  /** Strict overlap means each window starts before the other ends and
      neither window is empty; windows that merely touch never overlap. */
  lemma OverlapsMeaning(start1: int, end1: int, start2: int, end2: int)
    ensures Overlaps(start1, end1, start2, end2) <==>
              start1 < end2 && start2 < end1 && start1 < end1 && start2 < end2
    ensures end1 <= start2 ==> !Overlaps(start1, end1, start2, end2)
    ensures Overlaps(start1, end1, start2, end2) == Overlaps(start2, end2, start1, end1)
  {
  }

  /** Segment `s1` of `t1` and segment `s2` of `t2` both map to the same
      section, its capacity reads as one track, and their windows overlap. */
  predicate SegmentsClash(smap: map<Route, string>, sections: seq<Section>,
                          t1: Train, s1: int, t2: Train, s2: int)
    requires MapResolves(smap, sections)
    requires SegmentsReady(t1) && IsSegment(t1, s1)
    requires SegmentsReady(t2) && IsSegment(t2, s2)
  {
    var r1 := SegmentRoute(t1, s1);
    var r2 := SegmentRoute(t2, s2);
    && r1 in smap && r2 in smap
    && smap[r1] == smap[r2]
    && CapacityOf(sections, smap[r1]) == 1
    && Overlaps(SegmentStart(t1, s1), SegmentEnd(t1, s1), SegmentStart(t2, s2), SegmentEnd(t2, s2))
  }

  ghost predicate PairConflict(smap: map<Route, string>, sections: seq<Section>, t1: Train, t2: Train)
    requires MapResolves(smap, sections) && PairReady(t1, t2)
  {
    exists s1, s2 :: IsSegment(t1, s1) && IsSegment(t2, s2) && SegmentsClash(smap, sections, t1, s1, t2, s2)
  }

  /** Some pair of trains at positions i < j has clashing segments. */
  ghost predicate HasConflict(trains: seq<Train>, sections: seq<Section>)
    requires FleetReady(trains) && MappedIdsResolve(sections)
  {
    exists i, j :: 0 <= i < j < |trains| && PairConflict(SectionMap(sections), sections, trains[i], trains[j])
  }

  // =====================================================================
  // The scan
  // =====================================================================

  /** The innermost loop of the scan: segment `s1` of `t1` against every
      segment of `t2`. */
  method SegmentFree(smap: map<Route, string>, sections: seq<Section>, t1: Train, s1: int, t2: Train)
    returns (free: bool)
    requires MapResolves(smap, sections)
    requires SegmentsReady(t1) && IsSegment(t1, s1) && SegmentsReady(t2)
    ensures free <==> forall b :: IsSegment(t2, b) ==> !SegmentsClash(smap, sections, t1, s1, t2, b)
  {
    var s2 := 0;
    while s2 < |t2.schedule| - 1
      invariant 0 <= s2 && (s2 > 0 ==> s2 <= |t2.schedule| - 1)
      invariant forall b :: 0 <= b < s2 ==> !SegmentsClash(smap, sections, t1, s1, t2, b)
    {
      if SegmentsClash(smap, sections, t1, s1, t2, s2) {
        return false;
      }
      forall b | 0 <= b <= s2
        ensures !SegmentsClash(smap, sections, t1, s1, t2, b)
      {
        if b == s2 {
          // the segment just compared: this case split lets the solver use the call above
        }
      }
      s2 := s2 + 1;
    }
    return true;
  }

  /** The two inner loops of the scan: every segment pair of one train pair. */
  method PairFree(smap: map<Route, string>, sections: seq<Section>, t1: Train, t2: Train)
    returns (free: bool)
    requires MapResolves(smap, sections) && PairReady(t1, t2)
    ensures free <==> !PairConflict(smap, sections, t1, t2)
  {
    if |t1.schedule| < 2 || |t2.schedule| < 2 {
      return true;
    }
    var s1 := 0;
    while s1 < |t1.schedule| - 1
      invariant 0 <= s1 <= |t1.schedule| - 1
      invariant forall a, b :: 0 <= a < s1 && IsSegment(t2, b) ==> !SegmentsClash(smap, sections, t1, a, t2, b)
    {
      var segmentFree := SegmentFree(smap, sections, t1, s1, t2);
      if !segmentFree {
        return false;
      }
      forall a, b | 0 <= a <= s1 && IsSegment(t2, b)
        ensures !SegmentsClash(smap, sections, t1, a, t2, b)
      {
        if a == s1 {
          // the segment just scanned: this case split lets the solver use the call above
        }
      }
      s1 := s1 + 1;
    }
    return true;
  }

  /** The `j` loop of the scan for a fixed `i`: pairs with `i >= j` are
      skipped, every later train is compared with train `i`. */
  method LaterTrainsFree(smap: map<Route, string>, sections: seq<Section>, trains: seq<Train>, i: int)
    returns (free: bool)
    requires MapResolves(smap, sections) && FleetReady(trains) && 0 <= i < |trains|
    ensures free <==> forall b :: i < b < |trains| ==> !PairConflict(smap, sections, trains[i], trains[b])
  {
    var j := 0;
    while j < |trains|
      invariant 0 <= j <= |trains|
      invariant forall b :: i < b < j ==> !PairConflict(smap, sections, trains[i], trains[b])
    {
      if i < j {
        var pairFree := PairFree(smap, sections, trains[i], trains[j]);
        if !pairFree {
          return false;
        }
      }
      forall b | i < b <= j
        ensures !PairConflict(smap, sections, trains[i], trains[b])
      {
        if b == j {
          // the train just scanned: this case split lets the solver use the call above
        }
      }
      j := j + 1;
    }
    return true;
  }

  /** `validate_section_conflicts`: true exactly when no pair of trains
      i < j has two segments on the same single-track section with
      overlapping windows. Stops at the first conflict found. */
  method ValidateSectionConflicts(trains: seq<Train>, sections: seq<Section>) returns (ok: bool)
    requires FleetReady(trains)
    requires MappedIdsResolve(sections)
    ensures ok <==> !HasConflict(trains, sections)
  {
    var smap := SectionMap(sections);
    var i := 0;
    while i < |trains|
      invariant 0 <= i <= |trains|
      invariant forall a, b :: 0 <= a < i && a < b < |trains| ==>
                  !PairConflict(smap, sections, trains[a], trains[b])
    {
      var trainFree := LaterTrainsFree(smap, sections, trains, i);
      if !trainFree {
        ghost var j :| i < j < |trains| && PairConflict(smap, sections, trains[i], trains[j]);
        ConflictWitness(trains, sections, i, j);
        return false;
      }
      forall a, b | 0 <= a <= i && a < b < |trains|
        ensures !PairConflict(smap, sections, trains[a], trains[b])
      {
        if a == i {
          // the train just scanned: this case split lets the solver use the call above
        }
      }
      i := i + 1;
    }
    NoConflictWitness(trains, sections);
    return true;
  }

  lemma ConflictWitness(trains: seq<Train>, sections: seq<Section>, i: int, j: int)
    requires FleetReady(trains) && MappedIdsResolve(sections) && 0 <= i < j < |trains|
    requires PairConflict(SectionMap(sections), sections, trains[i], trains[j])
    ensures HasConflict(trains, sections)
  {
  }

  lemma NoConflictWitness(trains: seq<Train>, sections: seq<Section>)
    requires FleetReady(trains) && MappedIdsResolve(sections)
    requires forall a, b :: 0 <= a < b < |trains| ==> !PairConflict(SectionMap(sections), sections, trains[a], trains[b])
    ensures !HasConflict(trains, sections)
  {
  }

  // =====================================================================
  // Properties of the conflict relation
  // =====================================================================

  /** The relation is symmetric in the two segments. */
  lemma SegmentsClashSymmetric(smap: map<Route, string>, sections: seq<Section>,
                               t1: Train, s1: int, t2: Train, s2: int)
    requires MapResolves(smap, sections)
    requires SegmentsReady(t1) && IsSegment(t1, s1)
    requires SegmentsReady(t2) && IsSegment(t2, s2)
    ensures SegmentsClash(smap, sections, t1, s1, t2, s2) == SegmentsClash(smap, sections, t2, s2, t1, s1)
  {
    OverlapsMeaning(SegmentStart(t1, s1), SegmentEnd(t1, s1), SegmentStart(t2, s2), SegmentEnd(t2, s2));
  }

  /** A segment that ends no later than the other starts never clashes. */
  lemma TouchingWindowsNeverClash(smap: map<Route, string>, sections: seq<Section>,
                                  t1: Train, s1: int, t2: Train, s2: int)
    requires MapResolves(smap, sections)
    requires SegmentsReady(t1) && IsSegment(t1, s1)
    requires SegmentsReady(t2) && IsSegment(t2, s2)
    requires SegmentEnd(t1, s1) <= SegmentStart(t2, s2) || SegmentEnd(t2, s2) <= SegmentStart(t1, s1)
    ensures !SegmentsClash(smap, sections, t1, s1, t2, s2)
  {
  }

  /** No train pair exists in a fleet of zero or one train. */
  lemma SmallFleetNeverConflicts(trains: seq<Train>, sections: seq<Section>)
    requires |trains| <= 1
    requires MappedIdsResolve(sections)
    ensures FleetReady(trains) && !HasConflict(trains, sections)
  {
  }

  /** Sections whose capacity is not one never yield a conflict. */
  lemma MultiTrackNeverConflicts(trains: seq<Train>, sections: seq<Section>)
    requires FleetReady(trains) && MappedIdsResolve(sections)
    requires forall k :: 0 <= k < |sections| ==> sections[k].capacity != 1
    ensures !HasConflict(trains, sections)
  {
    var smap := SectionMap(sections);
    forall i, j, s1, s2 | 0 <= i < j < |trains| && IsSegment(trains[i], s1) && IsSegment(trains[j], s2)
      ensures !SegmentsClash(smap, sections, trains[i], s1, trains[j], s2)
    {
      var r1 := SegmentRoute(trains[i], s1);
      if r1 in smap {
        var p := SectionPosition(smap[r1]).value;
        assert CapacityOf(sections, smap[r1]) == sections[if p >= 0 then p else |sections| + p].capacity;
      }
    }
  }

  /** A segment whose station pair is not a section route never clashes. */
  lemma UnmappedSegmentNeverClashes(smap: map<Route, string>, sections: seq<Section>,
                                    t1: Train, s1: int, t2: Train, s2: int)
    requires MapResolves(smap, sections)
    requires SegmentsReady(t1) && IsSegment(t1, s1)
    requires SegmentsReady(t2) && IsSegment(t2, s2)
    requires SegmentRoute(t1, s1) !in smap || SegmentRoute(t2, s2) !in smap
    ensures !SegmentsClash(smap, sections, t1, s1, t2, s2)
    ensures !SegmentsClash(smap, sections, t2, s2, t1, s1)
  {
  }

  /** Pairs are taken by list position, not by identity: the same train
      listed twice conflicts with itself when one of its segments runs on a
      single-track section over a non-empty window. */
  lemma DuplicateTrainConflicts(t: Train, s: int, sections: seq<Section>)
    requires SegmentsReady(t) && IsSegment(t, s)
    requires MappedIdsResolve(sections)
    requires SegmentRoute(t, s) in SectionMap(sections)
    requires CapacityOf(sections, SectionMap(sections)[SegmentRoute(t, s)]) == 1
    requires SegmentStart(t, s) < SegmentEnd(t, s)
    ensures FleetReady([t, t]) && HasConflict([t, t], sections)
  {
    var trains := [t, t];
    assert SegmentsClash(SectionMap(sections), sections, trains[0], s, trains[1], s);
    assert PairConflict(SectionMap(sections), sections, trains[0], trains[1]);
  }
}
