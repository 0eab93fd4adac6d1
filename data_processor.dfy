/** The filter and statistics engine (`DataProcessor` in data_processor.py):
    a fixed sequence of admission checks per record, running counters, an
    active filter configuration that can be merged into at run time, and the
    callbacks that receive every non-empty accepted batch. */
module DataProcessing {
  import opened Records

  const MinAltitudeKey := "min_altitude"
  const MaxAltitudeKey := "max_altitude"

  /** The configuration used when none (or an empty one) is given. */
  const DefaultFilters: map<string, int> := map[MaxAltitudeKey := 10000, MinAltitudeKey := 100]

  /** A registered callback, known only by identity: what it does is outside
      this module. */
  type Callback = nat

  /** One call of a callback with an accepted batch; `raised` records whether
      the callback raised, which the source catches and reports. */
  datatype Invocation = Invocation(callback: Callback, aircraft: seq<Record>, raised: bool)

  /** The `stats` dictionary. `filterPassRate` is kept exact, not rounded. */
  datatype Stats = Stats(
    totalAircraft: nat,
    filteredAircraft: nat,
    groundFiltered: nat,
    lowAltitudeFiltered: nat,
    payloadsProcessed: nat,
    filterPassRate: real,
    currentFilters: map<string, int>)

  /** Why a record is rejected, or that it passes. Only `OnGround` and `TooLow`
      are counted. */
  datatype Verdict = Pass | NoPosition | OnGround | NoAltitude | TooLow | TooHigh

  predicate Positioned(a: Record)
  {
    a.lat.Get().Some? && a.lon.Get().Some?
  }

  /** The checks of `_passes_filters`, in their order; the first that fails
      decides. A record passes exactly when all five hold, bounds included. */
  function Screen(filters: map<string, int>, a: Record): (v: Verdict)
    ensures v == Pass <==>
      Positioned(a) && !a.isOnGround && a.altitude.Has? &&
      (MinAltitudeKey in filters ==> a.altitude.value >= filters[MinAltitudeKey]) &&
      (MaxAltitudeKey in filters ==> a.altitude.value <= filters[MaxAltitudeKey])
    ensures v == NoPosition <==> !Positioned(a)
    ensures v == OnGround <==> Positioned(a) && a.isOnGround
    ensures v == TooLow <==>
      Positioned(a) && !a.isOnGround && a.altitude.Has? &&
      MinAltitudeKey in filters && a.altitude.value < filters[MinAltitudeKey]
  {
    if a.lat.Get().None? || a.lon.Get().None? then NoPosition
    else if a.isOnGround then OnGround
    else if a.altitude.Get().None? then NoAltitude
    else if MinAltitudeKey in filters && a.altitude.value < filters[MinAltitudeKey] then TooLow
    else if MaxAltitudeKey in filters && a.altitude.value > filters[MaxAltitudeKey] then TooHigh
    else Pass
  }

  /** The records that pass, in input order. */
  function Admitted(filters: map<string, int>, rs: seq<Record>): seq<Record>
  {
    if rs == [] then []
    else Admitted(filters, rs[..|rs| - 1]) +
         (if Screen(filters, rs[|rs| - 1]) == Pass then [rs[|rs| - 1]] else [])
  }

  /** How many records get verdict `v`. */
  function CountVerdict(filters: map<string, int>, rs: seq<Record>, v: Verdict): nat
  {
    if rs == [] then 0
    else CountVerdict(filters, rs[..|rs| - 1], v) + (if Screen(filters, rs[|rs| - 1]) == v then 1 else 0)
  }

  /** The exact pass rate, in percent. */
  function PassRate(filtered: nat, total: nat): real
    requires total > 0
  {
    (filtered as real / total as real) * 100.0
  }

  /** A record is accepted exactly when it is in the input and passes. */
  lemma {:induction false} AdmittedMembers(filters: map<string, int>, rs: seq<Record>, a: Record)
    ensures a in Admitted(filters, rs) <==> a in rs && Screen(filters, a) == Pass
  {
    if rs != [] {
      AdmittedMembers(filters, rs[..|rs| - 1], a);
      assert rs == rs[..|rs| - 1] + [rs[|rs| - 1]];
    }
  }

  /** Selection keeps order: the accepted records of two batches in a row are
      those of the first followed by those of the second. */
  lemma {:induction false} AdmittedAppend(filters: map<string, int>, rs: seq<Record>, more: seq<Record>)
    ensures Admitted(filters, rs + more) == Admitted(filters, rs) + Admitted(filters, more)
    decreases |more|
  {
    if more == [] {
      assert rs + more == rs;
    } else {
      var init := more[..|more| - 1];
      AdmittedAppend(filters, rs, init);
      assert (rs + more)[..|rs + more| - 1] == rs + init;
      assert (rs + more)[|rs + more| - 1] == more[|more| - 1];
    }
  }

  /** Every record gets one verdict: the accepted ones and the two counted
      kinds of rejection together never exceed the batch. */
  lemma {:induction false} RejectionAccounting(filters: map<string, int>, rs: seq<Record>)
    ensures |Admitted(filters, rs)| == CountVerdict(filters, rs, Pass)
    ensures CountVerdict(filters, rs, Pass) + CountVerdict(filters, rs, OnGround)
          + CountVerdict(filters, rs, TooLow) <= |rs|
  {
    if rs != [] {
      RejectionAccounting(filters, rs[..|rs| - 1]);
    }
  }

  lemma AdmittedStep(filters: map<string, int>, rs: seq<Record>, k: nat)
    requires k < |rs|
    ensures Admitted(filters, rs[..k + 1]) ==
      Admitted(filters, rs[..k]) + (if Screen(filters, rs[k]) == Pass then [rs[k]] else [])
    ensures forall v :: (CountVerdict(filters, rs[..k + 1], v) ==
      CountVerdict(filters, rs[..k], v) + (if Screen(filters, rs[k]) == v then 1 else 0))
  {
    assert rs[..k + 1][..k] == rs[..k];
  }

  /** The number of records in a list of batches. */
  function TotalRecords(batches: seq<seq<Record>>): nat
  {
    if batches == [] then 0 else TotalRecords(batches[..|batches| - 1]) + |batches[|batches| - 1]|
  }

  /** The number of accepted records over a list of batches. */
  function AdmittedTotal(filters: map<string, int>, batches: seq<seq<Record>>): nat
  {
    if batches == [] then 0
    else AdmittedTotal(filters, batches[..|batches| - 1]) + |Admitted(filters, batches[|batches| - 1])|
  }

  /** The number of records with verdict `v` over a list of batches. */
  function VerdictTotal(filters: map<string, int>, batches: seq<seq<Record>>, v: Verdict): nat
  {
    if batches == [] then 0
    else VerdictTotal(filters, batches[..|batches| - 1], v) + CountVerdict(filters, batches[|batches| - 1], v)
  }

  /** The counters after one call of `process_aircraft_data` with a batch:
      one more payload, the batch's records, its accepted, on-ground and
      too-low counts, and the pass rate recomputed once there is a record. */
  function AfterBatch(s: Stats, filters: map<string, int>, aircraft: seq<Record>): Stats
  {
    var total := s.totalAircraft + |aircraft|;
    var filtered := s.filteredAircraft + |Admitted(filters, aircraft)|;
    Stats(total, filtered,
          s.groundFiltered + CountVerdict(filters, aircraft, OnGround),
          s.lowAltitudeFiltered + CountVerdict(filters, aircraft, TooLow),
          s.payloadsProcessed + 1,
          if total > 0 then PassRate(filtered, total) else s.filterPassRate,
          s.currentFilters)
  }

  /** One batch adds its own counts, keeps the configuration, and keeps the
      accepted and the two counted rejections within the records seen. */
  lemma AfterBatchCounts(s: Stats, filters: map<string, int>, aircraft: seq<Record>)
    ensures var t := AfterBatch(s, filters, aircraft);
      && t.payloadsProcessed == s.payloadsProcessed + 1
      && t.totalAircraft == s.totalAircraft + |aircraft|
      && t.filteredAircraft == s.filteredAircraft + |Admitted(filters, aircraft)|
      && t.groundFiltered == s.groundFiltered + CountVerdict(filters, aircraft, OnGround)
      && t.lowAltitudeFiltered == s.lowAltitudeFiltered + CountVerdict(filters, aircraft, TooLow)
      && t.filterPassRate == (if t.totalAircraft > 0 then PassRate(t.filteredAircraft, t.totalAircraft) else s.filterPassRate)
      && t.currentFilters == s.currentFilters
      && (s.filteredAircraft + s.groundFiltered + s.lowAltitudeFiltered <= s.totalAircraft ==>
            t.filteredAircraft + t.groundFiltered + t.lowAltitudeFiltered <= t.totalAircraft)
  {
    RejectionAccounting(filters, aircraft);
  }

  /** The counters after a list of batches, one call each, in order. */
  function StatsAfter(s: Stats, filters: map<string, int>, batches: seq<seq<Record>>): Stats
  {
    if batches == [] then s
    else AfterBatch(StatsAfter(s, filters, batches[..|batches| - 1]), filters, batches[|batches| - 1])
  }

  /** The callback calls for one accepted batch: none for an empty batch,
      otherwise every callback once, in registration order. */
  function CallsFor(callbacks: seq<Callback>, accepted: seq<Record>, raises: Callback -> bool): seq<Invocation>
  {
    if accepted == [] then []
    else seq(|callbacks|, i requires 0 <= i < |callbacks| => Invocation(callbacks[i], accepted, raises(callbacks[i])))
  }

  /** The callback calls for a list of batches, one call of
      `process_aircraft_data` each, in order. */
  function CallsAfter(callbacks: seq<Callback>, filters: map<string, int>, batches: seq<seq<Record>>,
                      raises: Callback -> bool): seq<Invocation>
  {
    if batches == [] then []
    else CallsAfter(callbacks, filters, batches[..|batches| - 1], raises) +
         CallsFor(callbacks, Admitted(filters, batches[|batches| - 1]), raises)
  }

  /** One more batch on top of a list of batches. */
  lemma BatchStep(s: Stats, callbacks: seq<Callback>, filters: map<string, int>,
                  batches: seq<seq<Record>>, b: seq<Record>, raises: Callback -> bool)
    ensures StatsAfter(s, filters, batches + [b]) == AfterBatch(StatsAfter(s, filters, batches), filters, b)
    ensures CallsAfter(callbacks, filters, batches + [b], raises) ==
      CallsAfter(callbacks, filters, batches, raises) + CallsFor(callbacks, Admitted(filters, b), raises)
  {
    assert (batches + [b])[..|batches|] == batches;
  }

  /** What a run of batches does to the counters: one payload per batch, all
      their records counted, and the accepted, on-ground and too-low records
      summed over the batches; the configuration is untouched and, once a
      batch has been seen and there is a record, the rate is the exact ratio. */
  lemma {:induction false} StatsAfterCounts(s: Stats, filters: map<string, int>, batches: seq<seq<Record>>)
    ensures var t := StatsAfter(s, filters, batches);
      && t.payloadsProcessed == s.payloadsProcessed + |batches|
      && t.totalAircraft == s.totalAircraft + TotalRecords(batches)
      && t.filteredAircraft == s.filteredAircraft + AdmittedTotal(filters, batches)
      && t.groundFiltered == s.groundFiltered + VerdictTotal(filters, batches, OnGround)
      && t.lowAltitudeFiltered == s.lowAltitudeFiltered + VerdictTotal(filters, batches, TooLow)
      && t.currentFilters == s.currentFilters
      && (batches != [] && t.totalAircraft > 0 ==> t.filterPassRate == PassRate(t.filteredAircraft, t.totalAircraft))
      && (batches == [] ==> t == s)
  {
    if batches != [] {
      StatsAfterCounts(s, filters, batches[..|batches| - 1]);
    }
  }

  /** Every callback call over a run of batches goes to a registered callback,
      with a non-empty batch accepted from one of the batches, and records
      whether that callback raised. */
  lemma {:induction false} CallsAfterShape(callbacks: seq<Callback>, filters: map<string, int>,
                                           batches: seq<seq<Record>>, raises: Callback -> bool)
    ensures forall c :: c in CallsAfter(callbacks, filters, batches, raises) ==>
      && c.callback in callbacks
      && c.aircraft != []
      && c.raised == raises(c.callback)
      && exists b :: b in batches && c.aircraft == Admitted(filters, b)
  {
    if batches != [] {
      var init := batches[..|batches| - 1];
      var last := batches[|batches| - 1];
      CallsAfterShape(callbacks, filters, init, raises);
      forall c | c in CallsAfter(callbacks, filters, batches, raises)
        ensures && c.callback in callbacks && c.aircraft != [] && c.raised == raises(c.callback)
                && exists b :: b in batches && c.aircraft == Admitted(filters, b)
      {
        if c in CallsAfter(callbacks, filters, init, raises) {
          var b :| b in init && c.aircraft == Admitted(filters, b);
          assert b in batches;
        } else {
          var cs := CallsFor(callbacks, Admitted(filters, last), raises);
          var i :| 0 <= i < |cs| && cs[i] == c;
          assert last in batches;
        }
      }
    }
  }

  class DataProcessor {
    var filters: map<string, int>
    var stats: Stats
    var callbacks: seq<Callback>

    /** The counters agree with each other and with the configuration. */
    ghost predicate Valid()
      reads this
    {
      && stats.currentFilters == filters
      && stats.filteredAircraft + stats.groundFiltered + stats.lowAltitudeFiltered <= stats.totalAircraft
      && (stats.totalAircraft == 0 ==> stats.filterPassRate == 0.0)
      && (stats.totalAircraft > 0 ==>
            stats.filterPassRate == PassRate(stats.filteredAircraft, stats.totalAircraft))
    }

    /** `__init__`: an empty (or absent) configuration means the defaults. */
    constructor (initial: map<string, int>)
      ensures Valid()
      ensures filters == (if initial == map[] then DefaultFilters else initial)
      ensures stats == Stats(0, 0, 0, 0, 0, 0.0, filters)
      ensures callbacks == []
    {
      filters := if initial == map[] then DefaultFilters else initial;
      stats := Stats(0, 0, 0, 0, 0, 0.0, if initial == map[] then DefaultFilters else initial);
      callbacks := [];
    }

    method AddCallback(callback: Callback)
      modifies this`callbacks
      ensures callbacks == old(callbacks) + [callback]
      ensures filters == old(filters) && stats == old(stats)
    {
      callbacks := callbacks + [callback];
    }

    /** `_passes_filters`: the verdict of `Screen`, and one count for an
        on-ground or too-low record. */
    method PassesFilters(aircraft: Record) returns (passes: bool)
      modifies this`stats
      ensures passes <==> Screen(filters, aircraft) == Pass
      ensures stats == old(stats).(
        groundFiltered := old(stats.groundFiltered) + (if Screen(filters, aircraft) == OnGround then 1 else 0),
        lowAltitudeFiltered := old(stats.lowAltitudeFiltered) + (if Screen(filters, aircraft) == TooLow then 1 else 0))
      ensures filters == old(filters) && callbacks == old(callbacks)
    {
      if aircraft.lat.Get().None? || aircraft.lon.Get().None? {
        return false;
      }
      if aircraft.isOnGround {
        stats := stats.(groundFiltered := stats.groundFiltered + 1);
        return false;
      }
      var altitude := aircraft.altitude.Get();
      if altitude.None? {
        return false;
      }
      if MinAltitudeKey in filters && altitude.value < filters[MinAltitudeKey] {
        stats := stats.(lowAltitudeFiltered := stats.lowAltitudeFiltered + 1);
        return false;
      }
      if MaxAltitudeKey in filters && altitude.value > filters[MaxAltitudeKey] {
        return false;
      }
      return true;
    }

    /** `process_aircraft_data`, given the values of the decoded mapping in
        order. `raises` says which callbacks raise; each is caught, so every
        callback is called whatever the earlier ones did. */
    method ProcessAircraftData(aircraft: seq<Record>, raises: Callback -> bool)
      returns (accepted: seq<Record>, calls: seq<Invocation>)
      requires Valid()
      modifies this`stats
      ensures Valid()
      ensures filters == old(filters) && callbacks == old(callbacks)
      ensures accepted == Admitted(filters, aircraft)
      ensures stats.payloadsProcessed == old(stats.payloadsProcessed) + 1
      ensures stats.totalAircraft == old(stats.totalAircraft) + |aircraft|
      ensures stats.filteredAircraft == old(stats.filteredAircraft) + |accepted|
      ensures stats.groundFiltered == old(stats.groundFiltered) + CountVerdict(filters, aircraft, OnGround)
      ensures stats.lowAltitudeFiltered == old(stats.lowAltitudeFiltered) + CountVerdict(filters, aircraft, TooLow)
      ensures stats.filterPassRate ==
        if stats.totalAircraft > 0 then PassRate(stats.filteredAircraft, stats.totalAircraft)
        else old(stats.filterPassRate)
      ensures stats.currentFilters == old(stats.currentFilters)
      ensures |calls| == (if accepted == [] then 0 else |callbacks|)
      ensures forall i :: 0 <= i < |calls| ==>
        calls[i] == Invocation(callbacks[i], accepted, raises(callbacks[i]))
      ensures stats == AfterBatch(old(stats), filters, aircraft)
      ensures calls == CallsFor(callbacks, accepted, raises)
    {
      stats := stats.(payloadsProcessed := stats.payloadsProcessed + 1);
      stats := stats.(totalAircraft := stats.totalAircraft + |aircraft|);
      ghost var counted := stats;

      accepted := [];
      var k := 0;
      while k < |aircraft|
        invariant 0 <= k <= |aircraft|
        invariant accepted == Admitted(filters, aircraft[..k])
        invariant stats == counted.(
          groundFiltered := counted.groundFiltered + CountVerdict(filters, aircraft[..k], OnGround),
          lowAltitudeFiltered := counted.lowAltitudeFiltered + CountVerdict(filters, aircraft[..k], TooLow))
      {
        AdmittedStep(filters, aircraft, k);
        var passes := PassesFilters(aircraft[k]);
        if passes {
          accepted := accepted + [aircraft[k]];
        }
        k := k + 1;
      }
      assert aircraft[..k] == aircraft;

      stats := stats.(filteredAircraft := stats.filteredAircraft + |accepted|);
      if stats.totalAircraft > 0 {
        stats := stats.(filterPassRate := PassRate(stats.filteredAircraft, stats.totalAircraft));
      }
      assert stats == AfterBatch(old(stats), filters, aircraft);
      AfterBatchCounts(old(stats), filters, aircraft);

      calls := NotifyCallbacks(accepted, raises);
    }

    /** The callback loop of `process_aircraft_data`: nothing for an empty
        batch, otherwise each callback in turn, a raising one included. */
    method NotifyCallbacks(accepted: seq<Record>, raises: Callback -> bool) returns (calls: seq<Invocation>)
      ensures calls == CallsFor(callbacks, accepted, raises)
    {
      calls := [];
      if accepted != [] && callbacks != [] {
        var c := 0;
        while c < |callbacks|
          invariant 0 <= c <= |callbacks|
          invariant |calls| == c
          invariant forall i :: 0 <= i < c ==>
            calls[i] == Invocation(callbacks[i], accepted, raises(callbacks[i]))
        {
          calls := calls + [Invocation(callbacks[c], accepted, raises(callbacks[c]))];
          c := c + 1;
        }
      }
    }

    /** `update_filters`: exactly the given keys are overwritten, the others
        keep their values, and the reported configuration follows. */
    method UpdateFilters(newFilters: map<string, int>)
      requires Valid()
      modifies this`filters, this`stats
      ensures Valid()
      ensures filters == old(filters) + newFilters
      ensures filters.Keys == old(filters).Keys + newFilters.Keys
      ensures forall key :: key in newFilters ==> filters[key] == newFilters[key]
      ensures forall key :: key in old(filters) && key !in newFilters ==> filters[key] == old(filters)[key]
      ensures stats == old(stats).(currentFilters := filters)
      ensures callbacks == old(callbacks)
    {
      filters := filters + newFilters;
      stats := stats.(currentFilters := filters);
    }

    /** `get_stats`: a copy of the counters. */
    method GetStats() returns (snapshot: Stats)
      requires Valid()
      ensures snapshot == stats
      ensures snapshot.currentFilters == filters
      ensures snapshot.filteredAircraft <= snapshot.totalAircraft
    {
      snapshot := stats;
    }
  }
}
