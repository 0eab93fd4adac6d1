/** `OptimizedKMZGenerator` (kmz_generator.py): the aircraft database it
    updates in place and the placemark list of the minimal KML document. Each
    method call is atomic (the source's lock is not modelled) and the clock is
    the parameter `now`. */
module KmzGenerator {
  import opened Records
  import opened OrderedDict
  import opened AircraftCache
  import opened KmlPlacemarks

  const DefaultRefreshInterval := 1
  const DefaultPersistenceTime := 15

  class OptimizedKmzGenerator {
    const refreshInterval: int
    /** Seconds an aircraft stays after its last record. */
    const persistenceTime: int
    /** Hex code to stored entry, in insertion order. */
    var aircraftDatabase: Database
    /** The clock reading of the last update, None before the first one. */
    var lastUpdateTime: Option<int>

    ghost predicate Valid()
      reads this
    {
      aircraftDatabase.WellFormed() && Coherent(aircraftDatabase)
    }

    /** `__init__`, with the source's defaults of a 1-second refresh and a
        15-second persistence. */
    constructor (refreshInterval: int := DefaultRefreshInterval, persistenceTime: int := DefaultPersistenceTime)
      ensures Valid()
      ensures this.refreshInterval == refreshInterval && this.persistenceTime == persistenceTime
      ensures aircraftDatabase == Dict([], map[]) && lastUpdateTime == None
    {
      this.refreshInterval := refreshInterval;
      this.persistenceTime := persistenceTime;
      aircraftDatabase := Dict([], map[]);
      lastUpdateTime := None;
    }

    /** `update_aircraft_data`: upsert every keyed record, set every entry's
        age, then delete the entries older than the persistence window. */
    method UpdateAircraftData(aircraftList: seq<Record>, now: int)
      requires Valid()
      modifies this
      ensures Valid()
      ensures aircraftDatabase == Swept(Upserted(old(aircraftDatabase), aircraftList, now), now, persistenceTime)
      ensures lastUpdateTime == Some(now)
    {
      lastUpdateTime := Some(now);
      var i := 0;
      while i < |aircraftList|
        invariant 0 <= i <= |aircraftList|
        invariant aircraftDatabase == Upserted(old(aircraftDatabase), aircraftList[..i], now)
        invariant lastUpdateTime == Some(now)
      {
        assert aircraftList[..i + 1][..i] == aircraftList[..i];
        var aircraft := aircraftList[i];
        var aircraftId := Key(aircraft);
        if aircraftId.Some? {
          aircraftDatabase := aircraftDatabase.Put(aircraftId.value, Minimal(aircraftId.value, aircraft, now));
        }
        i := i + 1;
      }
      assert aircraftList[..i] == aircraftList;
      ghost var upserted := aircraftDatabase;
      var expiredAircraft := AgeEntries(now);
      RemovedNothing(aircraftDatabase, upserted, now);
      RemoveExpired(expiredAircraft, upserted, now);
    }

    /** The ageing loop: every entry gets its age at `now`; the keys of the
        entries past the window are collected in order. */
    method AgeEntries(now: int) returns (expired: seq<string>)
      requires aircraftDatabase.WellFormed()
      modifies this`aircraftDatabase
      ensures aircraftDatabase.keys == old(aircraftDatabase.keys)
      ensures aircraftDatabase.entries == map k | k in old(aircraftDatabase.entries) :: Aged(old(aircraftDatabase.entries)[k], now)
      ensures forall x :: x in expired <==> x in old(aircraftDatabase.entries) && Stale(old(aircraftDatabase.entries)[x], now, persistenceTime)
    {
      ghost var d0 := aircraftDatabase;
      var keys := aircraftDatabase.keys;
      expired := [];
      var j := 0;
      while j < |keys|
        invariant 0 <= j <= |keys| && keys == d0.keys
        invariant AgedUpTo(aircraftDatabase, d0, j, now)
        invariant forall x :: x in expired <==> x in keys[..j] && Stale(d0.entries[x], now, persistenceTime)
      {
        var aircraftId := keys[j];
        AgeStep(aircraftDatabase, d0, j, now);
        var aircraftData := aircraftDatabase.entries[aircraftId];
        var age := now - aircraftData.lastSeen;
        aircraftDatabase := aircraftDatabase.Put(aircraftId, aircraftData.(ageSeconds := age));
        assert keys[..j + 1] == keys[..j] + [aircraftId];
        if age > persistenceTime {
          expired := expired + [aircraftId];
        }
        j := j + 1;
      }
      assert keys[..j] == keys;
      AgedAll(aircraftDatabase, d0, now);
    }

    /** The deletion loop over the collected keys. */
    method RemoveExpired(expired: seq<string>, ghost upserted: Database, now: int)
      requires upserted.WellFormed() && Coherent(upserted)
      requires RemovedSoFar(aircraftDatabase, upserted, {}, now)
      requires forall x :: x in expired <==> x in upserted.entries && Stale(upserted.entries[x], now, persistenceTime)
      modifies this`aircraftDatabase
      ensures Valid()
      ensures aircraftDatabase == Swept(upserted, now, persistenceTime)
    {
      var t := 0;
      while t < |expired|
        invariant 0 <= t <= |expired|
        invariant RemovedSoFar(aircraftDatabase, upserted, Elements(expired[..t]), now)
      {
        RemoveNext(aircraftDatabase, upserted, expired, t, now);
        aircraftDatabase := aircraftDatabase.Delete(expired[t]);
        t := t + 1;
      }
      RemovedEvery(aircraftDatabase, upserted, expired, now, persistenceTime);
    }

    /** `get_current_aircraft`: the stored entries, in insertion order, as of
        the last update (no sweep happens here). */
    function GetCurrentAircraft(): (current: seq<Entry>)
      requires Valid()
      reads this
      ensures |current| == |aircraftDatabase.keys|
      ensures forall e :: e in current <==> exists k :: k in aircraftDatabase.entries && aircraftDatabase.entries[k] == e
    {
      aircraftDatabase.Values()
    }

    /** The placemarks of `generate_minimal_kml`, in document order; None
        where the source raises. */
    method GenerateMinimalKml() returns (placemarks: Option<seq<Placemark>>)
      requires Valid()
      ensures placemarks == Placemarks(GetCurrentAircraft())
    {
      var currentAircraft := GetCurrentAircraft();
      var parts: seq<Placemark> := [];
      var i := 0;
      while i < |currentAircraft|
        invariant 0 <= i <= |currentAircraft|
        invariant Placemarks(currentAircraft[..i]) == Some(parts)
      {
        assert currentAircraft[..i + 1][..i] == currentAircraft[..i];
        var rendered := Render(currentAircraft[i]);
        if rendered.None? {
          PlacemarksFail(currentAircraft[..i + 1]);
          PlacemarksFail(currentAircraft);
          assert currentAircraft[..i + 1][i] == currentAircraft[i];
          return None;
        }
        parts := parts + rendered.value;
        i := i + 1;
      }
      assert currentAircraft[..i] == currentAircraft;
      return Some(parts);
    }
  }
}
