/**
  The in-memory records the validator and the simulator work on.

  A stop is a dictionary that may lack any of its keys, so each field is
  optional; the time fields hold "HH:MM" text, not minutes.
*/
module Records {
  import opened Wrappers
  import opened TimeCodec

  datatype Stop = Stop(station: Option<string>, arrival: Option<string>, departure: Option<string>)

  datatype Train = Train(id: string, kind: string, priority: int, schedule: seq<Stop>)

  datatype Section = Section(id: string, origin: string, destination: string, capacity: int)

  datatype Disruption = Disruption(kind: string, duration: int)

  /** The three dictionaries of the simulator, keyed by train id and section id. */
  datatype Store = Store(
    trains: map<string, Train>,
    sections: map<string, Section>,
    disruptions: map<string, Disruption>)

  /** Both time fields are present and parse. */
  predicate Timed(stop: Stop) {
    && stop.arrival.Some? && ParseTime(stop.arrival.value).Some?
    && stop.departure.Some? && ParseTime(stop.departure.value).Some?
  }

  function ArrivalMinutes(stop: Stop): int
    requires Timed(stop)
  {
    ParseTime(stop.arrival.value).value
  }

  function DepartureMinutes(stop: Stop): int
    requires Timed(stop)
  {
    ParseTime(stop.departure.value).value
  }

  predicate ScheduleTimed(schedule: seq<Stop>) {
    forall k :: 0 <= k < |schedule| ==> Timed(schedule[k])
  }

  /** Every time of the schedule is at or after the reference midnight. */
  predicate NonNegativeTimes(schedule: seq<Stop>)
    requires ScheduleTimed(schedule)
  {
    forall k :: 0 <= k < |schedule| ==>
      ArrivalMinutes(schedule[k]) >= 0 && DepartureMinutes(schedule[k]) >= 0
  }

  /** The store is keyed consistently: each train and section sits under its
      own id, and disruptions are recorded only for known sections. */
  predicate StoreWellFormed(st: Store) {
    && (forall k :: k in st.trains ==> st.trains[k].id == k)
    && (forall k :: k in st.sections ==> st.sections[k].id == k)
    && st.disruptions.Keys <= st.sections.Keys
  }
}
