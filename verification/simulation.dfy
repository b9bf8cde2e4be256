/**
  The simulator's schedule mutations, each a pure function from store to
  store. An unknown id leaves the whole store as it was.
*/
module Simulation {
  import opened Wrappers
  import opened TimeCodec
  import opened Records
  import Validate

  // =====================================================================
  // delay_train
  // =====================================================================

  /** One stop moved by `minutes`: both times are read, shifted and written
      back in "HH:MM" form. The station is kept. */
  function ShiftStop(stop: Stop, minutes: int): Stop
    requires Timed(stop)
  {
    stop.(arrival := Some(FormatTime(ArrivalMinutes(stop) + minutes)),
          departure := Some(FormatTime(DepartureMinutes(stop) + minutes)))
  }

  /** A shifted stop keeps its station and its times stay readable: each
      reads back as the old time plus `minutes`, exactly so at or after
      midnight and an hour later for a negative count off the hour. */
  lemma ShiftStopReads(stop: Stop, minutes: int)
    requires Timed(stop)
    ensures Timed(ShiftStop(stop, minutes)) && ShiftStop(stop, minutes).station == stop.station
    ensures ArrivalMinutes(ShiftStop(stop, minutes)) == ReadBack(ArrivalMinutes(stop) + minutes)
    ensures DepartureMinutes(ShiftStop(stop, minutes)) == ReadBack(DepartureMinutes(stop) + minutes)
  {
    FormatThenParseEverywhere();
  }

  /** A shift that keeps both times at or after midnight moves them by
      exactly `minutes`. */
  lemma ShiftStopExact(stop: Stop, minutes: int)
    requires Timed(stop)
    requires ArrivalMinutes(stop) + minutes >= 0 && DepartureMinutes(stop) + minutes >= 0
    ensures Timed(ShiftStop(stop, minutes))
    ensures ArrivalMinutes(ShiftStop(stop, minutes)) == ArrivalMinutes(stop) + minutes
    ensures DepartureMinutes(ShiftStop(stop, minutes)) == DepartureMinutes(stop) + minutes
  {
    ShiftStopReads(stop, minutes);
  }

  function ShiftSchedule(schedule: seq<Stop>, minutes: int): (r: seq<Stop>)
    requires ScheduleTimed(schedule)
    ensures |r| == |schedule|
  {
    seq(|schedule|, k requires 0 <= k < |schedule| => ShiftStop(schedule[k], minutes))
  }

  /** `after` is `before` with every stop moved by `minutes`: same identity,
      same number and order of stops, same stations, and each time reads back
      as the old one plus `minutes` (see ReadBack for negative counts). */
  ghost predicate ShiftedBy(before: Train, after: Train, minutes: int)
    requires ScheduleTimed(before.schedule)
  {
    && after.id == before.id && after.kind == before.kind && after.priority == before.priority
    && |after.schedule| == |before.schedule|
    && ScheduleTimed(after.schedule)
    && (forall k :: 0 <= k < |before.schedule| ==> after.schedule[k].station == before.schedule[k].station)
    && (forall k :: 0 <= k < |before.schedule| ==>
          ArrivalMinutes(after.schedule[k]) == ReadBack(ArrivalMinutes(before.schedule[k]) + minutes))
    && (forall k :: 0 <= k < |before.schedule| ==>
          DepartureMinutes(after.schedule[k]) == ReadBack(DepartureMinutes(before.schedule[k]) + minutes))
  }

  /** `delay_train`: shifts every stop of a known train by `minutes` (which
      may be negative). Every stop of that train must carry both times in
      parsable form, or the source raises. */
  function DelayTrain(st: Store, id: string, minutes: int): (r: Store)
    requires id in st.trains ==> ScheduleTimed(st.trains[id].schedule)
    ensures id !in st.trains ==> r == st
    ensures r.sections == st.sections && r.disruptions == st.disruptions
    ensures r.trains.Keys == st.trains.Keys
    ensures forall k :: k in st.trains && k != id ==> r.trains[k] == st.trains[k]
    ensures id in st.trains ==> ShiftedBy(st.trains[id], r.trains[id], minutes)
    ensures StoreWellFormed(st) ==> StoreWellFormed(r)
  {
    if id !in st.trains then st
    else
      var t := st.trains[id];
      var shifted := ShiftSchedule(t.schedule, minutes);
      ShiftScheduleReads(t, minutes);
      st.(trains := st.trains[id := t.(schedule := shifted)])
  }

  lemma ShiftScheduleReads(t: Train, minutes: int)
    requires ScheduleTimed(t.schedule)
    ensures ShiftedBy(t, t.(schedule := ShiftSchedule(t.schedule, minutes)), minutes)
  {
    var shifted := ShiftSchedule(t.schedule, minutes);
    forall k | 0 <= k < |t.schedule|
      ensures Timed(shifted[k]) && shifted[k].station == t.schedule[k].station
      ensures ArrivalMinutes(shifted[k]) == ReadBack(ArrivalMinutes(t.schedule[k]) + minutes)
      ensures DepartureMinutes(shifted[k]) == ReadBack(DepartureMinutes(t.schedule[k]) + minutes)
    {
      ShiftStopReads(t.schedule[k], minutes);
    }
  }

  /** Delaying by zero keeps every non-negative minute value. */
  lemma DelayZeroKeepsMinutes(st: Store, id: string)
    requires id in st.trains && ScheduleTimed(st.trains[id].schedule)
    requires NonNegativeTimes(st.trains[id].schedule)
    ensures var after := DelayTrain(st, id, 0).trains[id].schedule;
            var before := st.trains[id].schedule;
            forall k :: 0 <= k < |before| ==>
              ArrivalMinutes(after[k]) == ArrivalMinutes(before[k]) &&
              DepartureMinutes(after[k]) == DepartureMinutes(before[k])
  {
  }

  lemma ShiftStopAdditive(stop: Stop, a: int, b: int)
    requires Timed(stop)
    requires ArrivalMinutes(stop) + a >= 0 && DepartureMinutes(stop) + a >= 0
    ensures Timed(ShiftStop(stop, a)) && ShiftStop(ShiftStop(stop, a), b) == ShiftStop(stop, a + b)
  {
    ShiftStopExact(stop, a);
  }

  /** Two delays compose into one, provided the first leaves every time
      non-negative (so that it reads back exactly). */
  lemma DelayAdditive(st: Store, id: string, a: int, b: int)
    requires id in st.trains ==> ScheduleTimed(st.trains[id].schedule)
    requires id in st.trains ==>
               forall k :: 0 <= k < |st.trains[id].schedule| ==>
                 ArrivalMinutes(st.trains[id].schedule[k]) + a >= 0 &&
                 DepartureMinutes(st.trains[id].schedule[k]) + a >= 0
    ensures DelayTrain(DelayTrain(st, id, a), id, b) == DelayTrain(st, id, a + b)
  {
    if id in st.trains {
      var s := st.trains[id].schedule;
      var once := DelayTrain(st, id, a).trains[id].schedule;
      var twice := DelayTrain(DelayTrain(st, id, a), id, b).trains[id].schedule;
      var direct := DelayTrain(st, id, a + b).trains[id].schedule;
      forall k | 0 <= k < |s|
        ensures twice[k] == direct[k]
      {
        ShiftStopAdditive(s[k], a, b);
      }
      assert twice == direct;
    }
  }

  /** A delay keeps each stop's dwell time when the shifted times stay
      non-negative. */
  lemma DelayKeepsDwell(st: Store, id: string, minutes: int, k: int)
    requires id in st.trains && ScheduleTimed(st.trains[id].schedule)
    requires 0 <= k < |st.trains[id].schedule|
    requires ArrivalMinutes(st.trains[id].schedule[k]) + minutes >= 0
    requires DepartureMinutes(st.trains[id].schedule[k]) + minutes >= 0
    ensures var before := st.trains[id].schedule[k];
            var after := DelayTrain(st, id, minutes).trains[id].schedule[k];
            DepartureMinutes(after) - ArrivalMinutes(after) == DepartureMinutes(before) - ArrivalMinutes(before)
  {
  }

  /** A timing-consistent train stays consistent after a delay that keeps
      every arrival at or after midnight. */
  lemma DelayPreservesTimingConsistency(st: Store, id: string, minutes: int)
    requires id in st.trains
    requires Validate.TimingConsistent(st.trains[id].schedule)
    requires forall k :: 0 <= k < |st.trains[id].schedule| ==>
               ArrivalMinutes(st.trains[id].schedule[k]) + minutes >= 0
    ensures Validate.TimingConsistent(DelayTrain(st, id, minutes).trains[id].schedule)
  {
    var before := st.trains[id].schedule;
    var after := DelayTrain(st, id, minutes).trains[id].schedule;
    forall k | 0 <= k < |after|
      ensures Validate.StopConsistent(after[k])
    {
      assert Validate.StopConsistent(before[k]);
    }
  }

  /** The display form is lossy before midnight: a consistent stop held from
      minute 50 to minute 70 (00:50 to 01:10), moved back by an hour, reads
      as arriving at minute 50 and leaving at minute 10, because -10 minutes
      is written "00:50". */
  lemma ShiftBackAnHour(station: string, arrival: string, departure: string)
    requires ParseTime(arrival) == Some(50) && ParseTime(departure) == Some(70)
    ensures Validate.StopConsistent(Stop(Some(station), Some(arrival), Some(departure)))
    ensures var after := ShiftStop(Stop(Some(station), Some(arrival), Some(departure)), -60);
            Timed(after) && ArrivalMinutes(after) == 50 && DepartureMinutes(after) == 10
            && !Validate.StopConsistent(after)
  {
    var before := Stop(Some(station), Some(arrival), Some(departure));
    var after := ShiftStop(before, -60);
    assert after.arrival == Some(FormatTime(-10));
    assert after.departure == Some(FormatTime(10));
    FormatThenParse(-10);
    FormatThenParse(10);
  }

  // =====================================================================
  // block_section
  // =====================================================================

  function Blockage(duration: int): Disruption {
    Disruption("blockage", duration)
  }

  /** `block_section`: records a blockage of the given duration for a known
      section, replacing any earlier disruption there. */
  function BlockSection(st: Store, sectionId: string, duration: int): (r: Store)
    ensures r.trains == st.trains && r.sections == st.sections
    ensures sectionId !in st.sections ==> r == st
    ensures sectionId in st.sections ==>
              && r.disruptions.Keys == st.disruptions.Keys + {sectionId}
              && r.disruptions[sectionId].kind == "blockage"
              && r.disruptions[sectionId].duration == duration
              && forall k :: k in st.disruptions && k != sectionId ==> r.disruptions[k] == st.disruptions[k]
    ensures StoreWellFormed(st) ==> StoreWellFormed(r)
  {
    if sectionId !in st.sections then st
    else st.(disruptions := st.disruptions[sectionId := Blockage(duration)])
  }

  /** Blocking the same section twice keeps only the second duration. */
  lemma BlockLastWins(st: Store, sectionId: string, first: int, second: int)
    ensures BlockSection(BlockSection(st, sectionId, first), sectionId, second)
         == BlockSection(st, sectionId, second)
  {
  }

  /** Blockages of different sections do not interfere. */
  lemma BlockCommutes(st: Store, s1: string, d1: int, s2: string, d2: int)
    requires s1 != s2
    ensures BlockSection(BlockSection(st, s1, d1), s2, d2) == BlockSection(BlockSection(st, s2, d2), s1, d1)
  {
  }

  // =====================================================================
  // reroute_train
  // =====================================================================

  /** `reroute_train`: a known train gets `newPath` as its schedule, as
      given and without any check. */
  function RerouteTrain(st: Store, id: string, newPath: seq<Stop>): (r: Store)
    ensures id !in st.trains ==> r == st
    ensures r.sections == st.sections && r.disruptions == st.disruptions
    ensures r.trains.Keys == st.trains.Keys
    ensures forall k :: k in st.trains && k != id ==> r.trains[k] == st.trains[k]
    ensures id in st.trains ==>
              && r.trains[id].schedule == newPath
              && r.trains[id].id == st.trains[id].id
              && r.trains[id].kind == st.trains[id].kind
              && r.trains[id].priority == st.trains[id].priority
    ensures StoreWellFormed(st) ==> StoreWellFormed(r)
  {
    if id !in st.trains then st
    else st.(trains := st.trains[id := st.trains[id].(schedule := newPath)])
  }

  /** Rerouting twice keeps only the second path. */
  lemma RerouteLastWins(st: Store, id: string, p1: seq<Stop>, p2: seq<Stop>)
    ensures RerouteTrain(RerouteTrain(st, id, p1), id, p2) == RerouteTrain(st, id, p2)
  {
  }

  /** A reroute discards an earlier delay of the same train. */
  lemma RerouteDiscardsDelay(st: Store, id: string, minutes: int, path: seq<Stop>)
    requires id in st.trains ==> ScheduleTimed(st.trains[id].schedule)
    ensures RerouteTrain(DelayTrain(st, id, minutes), id, path) == RerouteTrain(st, id, path)
  {
  }

  /** The new path is installed whether or not it is timing-consistent. */
  lemma RerouteDoesNotValidate(st: Store, id: string, newPath: seq<Stop>)
    requires id in st.trains
    ensures Validate.TimingConsistent(RerouteTrain(st, id, newPath).trains[id].schedule)
            == Validate.TimingConsistent(newPath)
  {
  }
}
