# Train schedule validator and simulator mutations, in Dafny

This project models the core of a small train-traffic tool. The core has
two parts.

- **The validator** (`validate.py`):
  - parses "HH:MM" times into minutes after midnight;
  - checks that every stop of a train has its fields and does not leave
    before it arrives;
  - scans every pair of trains for two segments that run on the same
    single-track section at overlapping times.
- **The simulator's schedule mutations** (`simulation.py`):
  - the two time helpers;
  - `delay_train`, which shifts a whole schedule by a signed number of
    minutes and writes the times back as "HH:MM" text;
  - `block_section`, which records a blockage for a section;
  - `reroute_train`, which replaces a schedule wholesale.

Modules, one file each:

- `Wrappers` (`wrappers.dfy`): `Option`.
- `TimeCodec` (`time_codec.dfy`):
  - Python's `str.split(':')` and `int()`;
  - `f"{n:02d}"`;
  - the parser `convert_time_to_minutes` / `_convert_time_to_minutes`, as `ParseTime`;
  - the formatter `_convert_minutes_to_time`, as `FormatTime`.
- `Records` (`records.dfy`):
  - stops, trains, sections, disruptions;
  - the store, which is the three dictionaries `trains`, `sections` and `disruptions`.
- `Validate` (`validate.dfy`, models `validate.py`):
  - the timing check;
  - the section map;
  - the positional capacity lookup;
  - the conflict scan;
  - the conflict relation as an existential predicate.
- `Simulation` (`simulation.dfy`, models `simulation.py`): the three mutations, as pure functions from store to store.
- `Scenarios` (`scenarios.dfy`): worked examples on a one-section line from A to B.

Modelling choices:

- **Stop fields** are `Option<string>`, because a stop dictionary may lack a key.
- **`int()`** accepts an optional sign followed by one or more ASCII digits.
- **Parsing** succeeds on text with exactly one colon whose two sides are
  integers. The value is `60 * h + m`, and neither field is range-checked.
- **Formatting** follows the source operator by operator:
  - the hour field is `int(t / 60)`, which truncates toward zero (`WholeHours`);
  - the minute field is Python's floor `t % 60`;
  - each field is zero-padded to two characters, and a negative hour keeps its sign.
- **Consequence for negative counts:** reading a formatted time back gives
  the same count for every `t >= 0`, hours past 24 included. A negative count
  that is not a whole number of hours reads back one hour later (`ReadBack`).
  The delay contracts state both cases.
- **Capacity lookup** is modelled literally: `sections_data[int(id[2:]) - 1]`,
  with Python's negative indexing. `WellIndexed` states the layout under which
  this reads the section's own capacity.
- **The conflict scan** is four nested-loop methods, proved equal to the
  existential predicate `HasConflict`.

## Model

| member | source | states |
|---|---|---|
| TimeCodec.ParseTime | validate.py:3-12 | the parser shared by both files; what it accepts and what it yields is stated by `TimeCodec.ParseTimeCharacterized` and `TimeCodec.ParseClock` |
| TimeCodec.ParseInt | validate.py:9 | `int()` on one field; `TimeCodec.ParseDigits` states its value on a digit string |
| TimeCodec.Split | validate.py:9 | `str.split(':')`; it always yields at least one piece, and `TimeCodec.SplitJoin` and `TimeCodec.SplitPair` pin the pieces down |
| TimeCodec.ParseTimeCharacterized | validate.py:8-12 | parsing succeeds exactly when the text has one colon whose two sides are integer literals, and then yields 60 * hours + minutes; any other text gives None instead of an exception |
| TimeCodec.ParseExample | validate.py:3-10 | "08:30" reads as 510 minutes |
| TimeCodec.ParseClock | validate.py:9-10 | two unsigned digit fields around a colon read as 60 * hours + minutes, with leading zeros allowed |
| TimeCodec.ParseDigits | validate.py:9 | `int()` of a non-empty digit string is its decimal value |
| TimeCodec.SplitJoin | validate.py:9 | the pieces of `split(':')` contain no colon, and joining them with ':' gives back the text |
| TimeCodec.SplitPair | validate.py:9 | text with exactly one separator splits into the two sides of it |
| TimeCodec.NatToDigits | simulation.py:38 | decimal rendering of a natural number: digits only, no leading zero, and reading it back gives the number |
| TimeCodec.Pad2 | simulation.py:38 | `f"{n:02d}"` is at least two characters, has no colon, is all digits for n >= 0, and `int()` of it gives back n |
| TimeCodec.WholeHours | simulation.py:36 | `int(t / 60)` truncates toward zero: the remainder it leaves lies in 0..59 for t >= 0 and in -59..0 for t < 0 |
| TimeCodec.MinuteField | simulation.py:37-38 | a minute value in 0..59 is written as exactly two digits that read back as that value |
| TimeCodec.FormatTime | simulation.py:34-38 | the formatter; its shape is stated by `TimeCodec.FormatTimeShape` and its read-back by `TimeCodec.FormatThenParse` |
| TimeCodec.FormatTimeShape | simulation.py:34-38 | a formatted time has one colon three characters from the end; after it, two digits giving the floored minute 0..59; before it, an hour field that reads as `int(t / 60)` and is digits only when t >= 0 |
| TimeCodec.HoursAndMinutes | simulation.py:36-37 | 60 * truncated hours + floored minutes equals t, except for negative t off the hour, where it equals t + 60 |
| TimeCodec.FormatThenParse | simulation.py:29-38 | parsing a formatted time gives back t, except that a negative t that is not a whole number of hours comes back one hour later |
| TimeCodec.RoundTrip | simulation.py:29-38 | for every t >= 0, past 24 hours included, parsing the formatted time gives back t |
| Validate.ValidateTimingConsistency | validate.py:55-74 | true exactly when every stop has a station, both times are present and parse, and the departure is not before the arrival |
| Validate.EmptyScheduleConsistent | validate.py:59-74 | a schedule without stops passes the timing check |
| Validate.ZeroDwellAccepted | validate.py:71-73 | a stop that leaves in the minute it arrives passes, because the comparison is strict, even when the two texts are spelled differently, such as "8:30" and "08:30" |
| Validate.OneBadStopFailsTrain | validate.py:59-73 | one failing stop anywhere fails the whole train |
| Validate.ConsistentAppend | validate.py:59-74 | a concatenated schedule passes exactly when both parts pass |
| Validate.SectionMap | validate.py:85 | the keys of the section map are exactly the (origin, destination) pairs of the listed sections |
| Validate.SectionMapIndexesLast | validate.py:85 | every route maps to the id of the last section listed with that route |
| Validate.SectionMapLastWins | validate.py:85 | a section not followed by another with the same route owns its route's entry |
| Validate.SectionMapDirected | validate.py:85 | a section from A to B does not index the reversed pair B to A |
| Validate.SectionPosition | validate.py:117 | the list position named by a section id: `int(id[2:]) - 1`, or None where `int()` would raise; `Validate.WellIndexedResolves` and `Scenarios.LongPrefixIdDoesNotResolve` state when it names the section's own position |
| Validate.CapacityOf | validate.py:117 | the capacity read at that position, with Python's negative indexing; `Validate.WellIndexedCapacity` and `Validate.MultiTrackNeverConflicts` state what it reads |
| Validate.SectionMapResolves | validate.py:114-117 | when every section id resolves to a list position, so does every id the map can return |
| Validate.WellIndexedResolves | validate.py:117 | on a list where the id with suffix k sits at position k - 1, every id resolves and the positional lookup reads that section's own capacity |
| Validate.WellIndexedCapacity | validate.py:85-117 | on such a list, the capacity looked up for a route is that of the last section listed with the route |
| Validate.OverlapsMeaning | validate.py:106 | `max(start1, start2) < min(end1, end2)` holds exactly when each window starts before the other ends and neither window is empty; it is symmetric, and touching windows do not overlap |
| Validate.SegmentsClash | validate.py:103-117 | two segments clash when their routes map to the same section id, that section's capacity reads as 1, and their windows overlap strictly; `Validate.SegmentsClashSymmetric`, `Validate.TouchingWindowsNeverClash` and `Validate.UnmappedSegmentNeverClashes` state its properties |
| Validate.MissingTimeKeyNotReady | validate.py:97-99 | a train with a segment whose departure or arrival key is missing makes the scan raise once any later train is listed, so such a fleet lies outside `FleetReady`, even when the later train has no segment |
| Validate.SegmentFree | validate.py:101-119 | the innermost loop returns true exactly when no segment of the second train clashes with the given segment of the first |
| Validate.PairFree | validate.py:97-119 | the two inner loops return true exactly when the two trains have no clashing pair of segments |
| Validate.LaterTrainsFree | validate.py:89-119 | the `j` loop, which skips `i >= j`, returns true exactly when train `i` conflicts with no later train |
| Validate.ValidateSectionConflicts | validate.py:76-120 | true exactly when no trains i < j have segments that map to the same section id, whose capacity reads as 1, over windows that overlap strictly |
| Validate.SegmentsClashSymmetric | validate.py:106-117 | whether two segments clash does not depend on their order |
| Validate.TouchingWindowsNeverClash | validate.py:106 | a segment that ends no later than the other starts never clashes with it |
| Validate.SmallFleetNeverConflicts | validate.py:88-91 | a fleet of zero or one train never conflicts: a train is never paired with itself |
| Validate.MultiTrackNeverConflicts | validate.py:117 | if no section has capacity 1, there is never a conflict |
| Validate.UnmappedSegmentNeverClashes | validate.py:114-117 | a segment whose station pair has no section never clashes, in either order |
| Validate.DuplicateTrainConflicts | validate.py:88-91 | pairs are taken by list position: the same record listed twice conflicts with itself when one of its segments runs over a single-track section in a non-empty window |
| Simulation.ShiftStop | simulation.py:55-60 | the rewrite of one stop; `Simulation.ShiftStopReads` and `Simulation.ShiftStopExact` state what its times read back as |
| Simulation.ShiftStopReads | simulation.py:55-60 | a shifted stop keeps its station, and its times stay readable, each reading back as the old time plus the delay (one hour later for a negative count off the hour) |
| Simulation.ShiftStopExact | simulation.py:55-60 | when both shifted times are non-negative, they read back exactly the delay later |
| Simulation.ShiftScheduleReads | simulation.py:55-60 | the shifted schedule keeps the train's identity, stop count, order and stations, and every time reads back shifted |
| Simulation.DelayTrain | simulation.py:40-62 | an unknown id changes nothing; otherwise sections, disruptions, the set of train ids and every other train are unchanged, the target's schedule is shifted stop by stop, and the store stays keyed by id |
| Simulation.DelayZeroKeepsMinutes | simulation.py:55-60 | a zero delay keeps every non-negative arrival and departure minute |
| Simulation.ShiftStopAdditive | simulation.py:56-60 | shifting a stop by a and then by b equals shifting it by a + b when the first shift stays non-negative |
| Simulation.DelayAdditive | simulation.py:40-62 | a delay by a followed by a delay by b gives the same store as one delay by a + b when the first delay leaves every time non-negative |
| Simulation.DelayKeepsDwell | simulation.py:59-60 | a delay keeps each stop's departure minus arrival when the shifted times are non-negative |
| Simulation.DelayPreservesTimingConsistency | simulation.py:55-60 | a train that passes the timing check still passes after a delay that keeps every arrival at or after midnight |
| Simulation.ShiftBackAnHour | simulation.py:36-38 | a stop held from minute 50 to minute 70 and moved back an hour reads as arriving at 50 and leaving at 10, so it fails the timing check |
| Simulation.BlockSection | simulation.py:64-83 | an unknown section changes nothing; otherwise trains and sections are unchanged, and the disruption entry for the section is a blockage of the given duration, replacing any earlier one while every other entry stays |
| Simulation.BlockLastWins | simulation.py:80-83 | blocking a section twice keeps only the second duration |
| Simulation.BlockCommutes | simulation.py:73-83 | blockages of different sections commute |
| Simulation.RerouteTrain | simulation.py:85-98 | an unknown id changes nothing; otherwise the train's schedule becomes the new path exactly, its id, type and priority stay, and every other entry is unchanged |
| Simulation.RerouteLastWins | simulation.py:98 | rerouting twice keeps only the second path |
| Simulation.RerouteDiscardsDelay | simulation.py:98 | a reroute discards an earlier delay of the same train |
| Simulation.RerouteDoesNotValidate | simulation.py:97-98 | the new path is installed whether or not it passes the timing check |
| Scenarios.Clock | validate.py:8-10 | a time written with two hour digits and two minute digits reads as 60 * hours + minutes |
| Scenarios.Times | validate.py:6 | the clock readings the scenarios use, such as "08:30" giving 510 |
| Scenarios.OverwrittenIdNeverRead | validate.py:85-117 | a section whose route is taken over by a later section is never looked up: with "SEC-1" then "S-2" on A to B, not every id resolves, yet every id the map returns does |
| Scenarios.TwoTrainFleet | validate.py:88-91 | a fleet of two trains conflicts exactly when its one pair does |
| Scenarios.OneSegmentEach | validate.py:97-103 | two trains with two stops each conflict exactly when their single segments clash |
| Scenarios.OnePairOnLine | validate.py:76-120 | on a one-section line from A to B, two two-stop trains conflict exactly when both run A to B, the section is single-track and the windows overlap |
| Scenarios.TwoRunsOnLine | validate.py:76-120 | the same for two runs given by their station names and time texts |
| Scenarios.LineIndexed | validate.py:117 | id "S-1" names list position 0, so the line's capacity is read back |
| Scenarios.OverlapOnSingleTrackConflicts | validate.py:105-119 | T1 from 08:00 to 08:30 and T2 from 08:15 to 08:45 from A to B on a single-track section conflict |
| Scenarios.OverlapOnDoubleTrackIsFree | validate.py:117 | the same two runs on a double-track section do not conflict |
| Scenarios.OppositeDirectionIsFree | validate.py:109-115 | a run from B to A does not use the section from A to B |
| Scenarios.TouchingWindowsAreFree | validate.py:106 | T2 leaving A at 08:30, the minute T1 reaches B, does not conflict |
| Scenarios.InvertedStopFails | validate.py:71-73 | a stop reached at 09:00 and left at 08:50 fails the timing check |
| Scenarios.NegativeShiftCanInvertStop | simulation.py:34-38 | a stop from 00:50 to 01:10 moved back an hour reads 00:50 to 00:10 and fails the timing check |
| Scenarios.LongPrefixIdDoesNotResolve | validate.py:117 | an id such as "SEC-1" names no list position: "C-1" is not an integer |

## Left out

- Validate.ValidateSectionConflicts: requires `FleetReady` and `MappedIdsResolve`, and says nothing about inputs outside them. Outside `FleetReady` the source raises. `FleetReady` asks, for every pair i < j, that train i has both time keys of each of its segments, because the outer segment loop reads them before the inner loop runs (`Validate.MissingTimeKeyNotReady`). When both trains of the pair have a segment, it also asks that every segment station is present and every segment time parses. The source can return False at a conflict before it reaches a malformed later pair. That input is outside the model too, because `FleetReady` constrains every pair.
- Validate.ValidateSectionConflicts: `MappedIdsResolve` asks that every id the section map can return resolves to a list position. Ids overwritten in the map by a later section with the same route are never read, so they are not constrained (`Scenarios.OverwrittenIdNeverRead`). The source is laxer still. It reads a capacity only when two segments of a pair share a section id, so a mapped id such as "SEC-1" on a route that no two segments share never makes it raise. Such section lists are outside the model.
- Validate.ValidateTimingConsistency, Validate.ValidateSectionConflicts: return only the boolean. The console messages naming the failing stop or the conflicting pair are not modelled.
- Simulation.DelayTrain: requires every stop of the target train to carry two parsable times. The source raises at the first bad stop after it has already rewritten the stops before it; that partial write is not modelled.
- Simulation.DelayZeroKeepsMinutes, Simulation.DelayAdditive, Simulation.DelayKeepsDwell, Simulation.DelayPreservesTimingConsistency: stated only for shifts that keep the times non-negative. `Simulation.DelayTrain` and `Simulation.ShiftStopReads` give the exact reading for negative counts, and `Simulation.ShiftBackAnHour` shows that dwell and consistency can fail there.
- TimeCodec.WholeHours: `int(t / 60)` is a float division in the source. It is modelled as exact truncation, which differs only for counts beyond 2^53.
- Python's `int()` also accepts surrounding whitespace, `_` separators and non-ASCII digits. The model accepts only an optional sign followed by ASCII digits.
- Every stop field is text or absent. A time field holding null or a number makes `split` raise in the source, and a non-text section id makes `[2:]` raise. Stations are only compared and used as dictionary keys, so a null or numeric station does not raise there. Values of these other types cannot be written in the model.
- Capacities are compared with `== 1` as integers. A JSON float capacity such as 1.0 is not modelled.
- File and JSON loading (`validate_data`, `TrainSimulation.load_data`), all `print` output, `run_simulation`, `print_current_state` and the `__main__` blocks are left out: they are I/O and demos.
- Both checks return a single boolean and stop at the first failure. Neither lists every violation or every conflict.
- A mutation in the source updates dictionaries in place. The model returns a new store instead, so aliasing between the store and a caller's `new_path` list is not modelled.
