/**
  Worked two-train examples for the conflict scan and the timing check, on
  one section from station A to station B.
*/
module Scenarios {
  import opened Wrappers
  import opened TimeCodec
  import opened Records
  import opened Validate
  import Simulation

  /** A two-stop run from A to B: leaves A at `leave`, reaches B at `reach`. */
  function Run(id: string, origin: string, leave: string, destination: string, reach: string): Train {
    Train(id, "express", 1, [Stop(Some(origin), Some(leave), Some(leave)),
                             Stop(Some(destination), Some(reach), Some(reach))])
  }

  function Line(capacity: int): seq<Section> {
    [Section("S-1", "A", "B", capacity)]
  }

  /** Two digit characters read as a two-digit decimal number. */
  lemma TwoDigits(a: char, b: char)
    requires IsDigit(a) && IsDigit(b)
    ensures AllDigits([a, b]) && DigitsValue([a, b]) == 10 * DigitValue(a) + DigitValue(b)
  {
    assert [a][..0] == [];
    assert DigitsValue([a]) == DigitValue(a);
    assert [a, b][..1] == [a];
  }

  /** A clock reading written with two hour digits and two minute digits. */
  lemma Clock(h1: char, h2: char, m1: char, m2: char)
    requires IsDigit(h1) && IsDigit(h2) && IsDigit(m1) && IsDigit(m2)
    ensures ParseTime([h1, h2, ':', m1, m2])
              == Some(60 * (10 * DigitValue(h1) + DigitValue(h2)) + 10 * DigitValue(m1) + DigitValue(m2))
  {
    var h, m := [h1, h2], [m1, m2];
    TwoDigits(h1, h2);
    TwoDigits(m1, m2);
    assert h + ":" + m == [h1, h2, ':', m1, m2];
    ParseClock(h, m);
  }

  /** The clock readings the scenarios below use. */
  lemma Times()
    ensures ParseTime("00:50") == Some(50)
    ensures ParseTime("01:10") == Some(70)
    ensures ParseTime("08:00") == Some(480)
    ensures ParseTime("08:15") == Some(495)
    ensures ParseTime("08:30") == Some(510)
    ensures ParseTime("08:45") == Some(525)
    ensures ParseTime("08:50") == Some(530)
    ensures ParseTime("09:00") == Some(540)
  {
    Clock('0', '0', '5', '0');
    Clock('0', '1', '1', '0');
    Clock('0', '8', '0', '0');
    Clock('0', '8', '1', '5');
    Clock('0', '8', '3', '0');
    Clock('0', '8', '4', '5');
    Clock('0', '8', '5', '0');
    Clock('0', '9', '0', '0');
  }

  /** "S-1" names list position 0, whatever the capacity of the line. */
  lemma LineIndexed(capacity: int)
    ensures WellIndexed(Line(capacity)) && IdsResolve(Line(capacity)) && MappedIdsResolve(Line(capacity))
    ensures SectionMap(Line(capacity)) == map[("A", "B") := "S-1"]
    ensures CapacityOf(Line(capacity), "S-1") == capacity
  {
    assert "S-1"[2..] == "1";
    ParseDigits("1");
    assert SectionPosition("S-1") == Some(0);
  }

  /** A section overwritten in the map by a later one with the same route
      never has its id looked up: "SEC-1" does not resolve, yet the scan can
      read every capacity it reaches, through "S-2" at position 1. */
  lemma OverwrittenIdNeverRead()
    ensures !IdsResolve([Section("SEC-1", "A", "B", 1), Section("S-2", "A", "B", 1)])
    ensures MappedIdsResolve([Section("SEC-1", "A", "B", 1), Section("S-2", "A", "B", 1)])
  {
    var sections := [Section("SEC-1", "A", "B", 1), Section("S-2", "A", "B", 1)];
    assert "SEC-1"[2..] == "C-1" && !IsDigit('C');
    assert !Resolves(sections, sections[0].id);
    assert "S-2"[2..] == "2";
    ParseDigits("2");
    assert SectionMap(sections) == map[("A", "B") := "S-2"];
  }

  /** A fleet of two trains conflicts exactly when its one pair does. */
  lemma TwoTrainFleet(trains: seq<Train>, sections: seq<Section>)
    requires |trains| == 2 && FleetReady(trains) && MappedIdsResolve(sections)
    ensures HasConflict(trains, sections) <==> PairConflict(SectionMap(sections), sections, trains[0], trains[1])
  {
    var smap := SectionMap(sections);
    if HasConflict(trains, sections) {
      var i, j :| 0 <= i < j < |trains| && PairConflict(smap, sections, trains[i], trains[j]);
      assert i == 0 && j == 1;
    }
  }

  /** Two trains of two stops each have one segment apiece, so they conflict
      exactly when those two segments clash. */
  lemma OneSegmentEach(smap: map<Route, string>, sections: seq<Section>, t1: Train, t2: Train)
    requires MapResolves(smap, sections)
    requires |t1.schedule| == 2 && |t2.schedule| == 2 && SegmentsReady(t1) && SegmentsReady(t2)
    ensures PairConflict(smap, sections, t1, t2) <==> SegmentsClash(smap, sections, t1, 0, t2, 0)
  {
    if PairConflict(smap, sections, t1, t2) {
      var s1, s2 :| IsSegment(t1, s1) && IsSegment(t2, s2) && SegmentsClash(smap, sections, t1, s1, t2, s2);
      assert s1 == 0 && s2 == 0;
    }
  }

  /** Two two-stop runs on the one-section line conflict exactly when both
      run from A to B, the section is single-track, and their windows
      overlap. */
  lemma TwoRunsOnLine(o1: string, l1: string, d1: string, r1: string,
                      o2: string, l2: string, d2: string, r2: string, capacity: int)
    requires ParseTime(l1).Some? && ParseTime(r1).Some? && ParseTime(l2).Some? && ParseTime(r2).Some?
    ensures FleetReady([Run("T1", o1, l1, d1, r1), Run("T2", o2, l2, d2, r2)])
    ensures MappedIdsResolve(Line(capacity))
    ensures HasConflict([Run("T1", o1, l1, d1, r1), Run("T2", o2, l2, d2, r2)], Line(capacity)) <==>
              && (o1, d1) == ("A", "B") && (o2, d2) == ("A", "B") && capacity == 1
              && Overlaps(ParseTime(l1).value, ParseTime(r1).value, ParseTime(l2).value, ParseTime(r2).value)
  {
    var t1 := Run("T1", o1, l1, d1, r1);
    var t2 := Run("T2", o2, l2, d2, r2);
    assert SegmentsReady(t1) && SegmentsReady(t2);
    OnePairOnLine(t1, t2, capacity);
  }

  /** Two trains of two stops each, on the one-section line: they conflict
      exactly when both segments run from A to B, the section is
      single-track, and the windows overlap. */
  lemma OnePairOnLine(t1: Train, t2: Train, capacity: int)
    requires |t1.schedule| == 2 && |t2.schedule| == 2 && SegmentsReady(t1) && SegmentsReady(t2)
    ensures FleetReady([t1, t2])
    ensures MappedIdsResolve(Line(capacity))
    ensures HasConflict([t1, t2], Line(capacity)) <==>
              && SegmentRoute(t1, 0) == ("A", "B") && SegmentRoute(t2, 0) == ("A", "B") && capacity == 1
              && Overlaps(SegmentStart(t1, 0), SegmentEnd(t1, 0), SegmentStart(t2, 0), SegmentEnd(t2, 0))
  {
    LineIndexed(capacity);
    var trains := [t1, t2];
    assert FleetReady(trains);
    var sections := Line(capacity);
    TwoTrainFleet(trains, sections);
    OneSegmentEach(SectionMap(sections), sections, t1, t2);
  }

  /** T1 holds the single-track section from 08:00 to 08:30 and T2 from 08:15
      to 08:45: the scan reports a conflict. */
  lemma OverlapOnSingleTrackConflicts()
    ensures FleetReady([Run("T1", "A", "08:00", "B", "08:30"), Run("T2", "A", "08:15", "B", "08:45")])
    ensures MappedIdsResolve(Line(1))
    ensures HasConflict([Run("T1", "A", "08:00", "B", "08:30"), Run("T2", "A", "08:15", "B", "08:45")], Line(1))
  {
    Times();
    TwoRunsOnLine("A", "08:00", "B", "08:30", "A", "08:15", "B", "08:45", 1);
  }

  /** The same two runs on a double-track section do not conflict. */
  lemma OverlapOnDoubleTrackIsFree()
    ensures FleetReady([Run("T1", "A", "08:00", "B", "08:30"), Run("T2", "A", "08:15", "B", "08:45")])
    ensures MappedIdsResolve(Line(2))
    ensures !HasConflict([Run("T1", "A", "08:00", "B", "08:30"), Run("T2", "A", "08:15", "B", "08:45")], Line(2))
  {
    Times();
    TwoRunsOnLine("A", "08:00", "B", "08:30", "A", "08:15", "B", "08:45", 2);
  }

  /** T2 runs from B to A while T1 runs from A to B: the reversed pair is not
      a route of the section, so no conflict is seen. */
  lemma OppositeDirectionIsFree()
    ensures FleetReady([Run("T1", "A", "08:00", "B", "08:30"), Run("T2", "B", "08:15", "A", "08:45")])
    ensures MappedIdsResolve(Line(1))
    ensures !HasConflict([Run("T1", "A", "08:00", "B", "08:30"), Run("T2", "B", "08:15", "A", "08:45")], Line(1))
  {
    Times();
    TwoRunsOnLine("A", "08:00", "B", "08:30", "B", "08:15", "A", "08:45", 1);
  }

  /** T2 leaves A at 08:30, the minute T1 reaches B: touching windows do not
      conflict. */
  lemma TouchingWindowsAreFree()
    ensures FleetReady([Run("T1", "A", "08:00", "B", "08:30"), Run("T2", "A", "08:30", "B", "09:00")])
    ensures MappedIdsResolve(Line(1))
    ensures !HasConflict([Run("T1", "A", "08:00", "B", "08:30"), Run("T2", "A", "08:30", "B", "09:00")], Line(1))
  {
    Times();
    TwoRunsOnLine("A", "08:00", "B", "08:30", "A", "08:30", "B", "09:00", 1);
  }

  /** A stop reached at 09:00 and left at 08:50 fails the timing check. */
  lemma InvertedStopFails()
    ensures !TimingConsistent([Stop(Some("A"), Some("09:00"), Some("08:50"))])
  {
    Times();
    var stop := Stop(Some("A"), Some("09:00"), Some("08:50"));
    assert [stop][0] == stop && !StopConsistent(stop);
  }

  /** A stop held from 00:50 to 01:10 is consistent, but moved back by an
      hour it reads as arriving 00:50 and leaving 00:10, and fails the
      timing check. */
  lemma NegativeShiftCanInvertStop()
    ensures StopConsistent(Stop(Some("A"), Some("00:50"), Some("01:10")))
    ensures !StopConsistent(Simulation.ShiftStop(Stop(Some("A"), Some("00:50"), Some("01:10")), -60))
  {
    Times();
    Simulation.ShiftBackAnHour("A", "00:50", "01:10");
  }

  /** An id with a longer prefix, such as "SEC-1", does not resolve: the text
      after its first two characters, "C-1", is not an integer, so the
      positional capacity lookup would raise. */
  lemma LongPrefixIdDoesNotResolve(sections: seq<Section>)
    ensures !Resolves(sections, "SEC-1")
  {
    assert "SEC-1"[2..] == "C-1";
    assert !IsDigit('C');
    assert ParseInt("C-1").None?;
  }
}
