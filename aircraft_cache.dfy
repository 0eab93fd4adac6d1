/** The aircraft database kept by the KMZ generator, as values: the stored
    entry, the upsert of a batch of records and the expiry sweep
    (`OptimizedKMZGenerator.update_aircraft_data` in kmz_generator.py). The
    wall clock is the integer parameter `now`, in seconds. */
module AircraftCache {
  import opened Records
  import opened OrderedDict

  /** A stored aircraft: the position, altitude, vertical rate, heading and
      speed of its latest record, when it was last seen and its age as of the
      last sweep. */
  datatype Entry = Entry(
    adshex: string,
    lat: Option<real>,
    lon: Option<real>,
    altitude: Option<int>,
    vertRate: Option<int>,
    heading: Option<real>,
    speed: Option<real>,
    lastSeen: int,
    ageSeconds: int)

  /** The database, keyed by ICAO hex code, in insertion order. */
  type Database = Dict<string, Entry>

  /** The key a record is stored under: its `adshex` when that is truthy. */
  function Key(a: Record): Option<string>
  {
    if a.adshex.Has? && a.adshex.value != "" then Some(a.adshex.value) else None
  }

  /** The entry stored for record `a` seen at `now`: lat, lon, heading and
      speed as read with `get` (absent and null are both None); altitude and
      vertical rate default to 0 only when absent. */
  function Minimal(id: string, a: Record, now: int): Entry
  {
    Entry(id, a.lat.Get(), a.lon.Get(), a.altitude.GetOr(0), a.vertRate.GetOr(0),
          a.heading.Get(), a.speed.Get(), now, 0)
  }

  /** Every entry is stored under its own non-empty hex code. */
  ghost predicate Coherent(d: Database)
  {
    forall k :: k in d.entries ==> k != "" && d.entries[k].adshex == k
  }

  /** Some record of the batch is stored under `k`. */
  ghost predicate KeyedIn(list: seq<Record>, k: string)
  {
    exists i :: 0 <= i < |list| && Key(list[i]) == Some(k)
  }

  /** The database after the upsert loop over a batch. */
  function Upserted(d: Database, list: seq<Record>, now: int): (r: Database)
    requires d.WellFormed()
    ensures r.WellFormed()
    ensures Coherent(d) ==> Coherent(r)
    decreases |list|
  {
    if list == [] then d
    else
      var r0 := Upserted(d, list[..|list| - 1], now);
      var a := list[|list| - 1];
      match Key(a)
      case None => r0
      case Some(id) => r0.Put(id, Minimal(id, a, now))
  }

  /** The age of an entry at `now`. */
  function Aged(e: Entry, now: int): Entry
  {
    e.(ageSeconds := now - e.lastSeen)
  }

  /** An entry older than the persistence window. */
  predicate Stale(e: Entry, now: int, persistence: int)
  {
    now - e.lastSeen > persistence
  }

  /** The keys the sweep removes. */
  ghost function StaleKeys(d: Database, now: int, persistence: int): set<string>
  {
    set k | k in d.entries && Stale(d.entries[k], now, persistence)
  }

  /** The database after the sweep: stale entries are gone, the rest keep
      their order and have their age set. */
  ghost function Swept(d: Database, now: int, persistence: int): (r: Database)
    requires d.WellFormed()
    ensures r.WellFormed()
    ensures Coherent(d) ==> Coherent(r)
    ensures forall k :: k in r.entries <==> k in d.entries && now - d.entries[k].lastSeen <= persistence
    ensures forall k :: k in r.entries ==> r.entries[k] == Aged(d.entries[k], now) && r.entries[k].ageSeconds <= persistence
  {
    var gone := StaleKeys(d, now, persistence);
    Dict(WithoutAll(d.keys, gone),
         map k | k in d.entries && k !in gone :: Aged(d.entries[k], now))
  }

  /** Part way through the ageing loop: the first `j` keys of `d0` have their
      age set in `d`, the others are as in `d0`, and the order is the same. */
  ghost predicate AgedUpTo(d: Database, d0: Database, j: nat, now: int)
  {
    && d0.WellFormed() && d.WellFormed() && d.keys == d0.keys && j <= |d0.keys|
    && (forall t :: 0 <= t < j ==> d.entries[d0.keys[t]] == Aged(d0.entries[d0.keys[t]], now))
    && (forall t :: j <= t < |d0.keys| ==> d.entries[d0.keys[t]] == d0.entries[d0.keys[t]])
  }

  /** One step of the ageing loop. */
  lemma AgeStep(d: Database, d0: Database, j: nat, now: int)
    requires AgedUpTo(d, d0, j, now) && j < |d0.keys|
    ensures d0.keys[j] in d.entries
    ensures d.entries[d0.keys[j]] == d0.entries[d0.keys[j]]
    ensures AgedUpTo(d.Put(d0.keys[j], Aged(d.entries[d0.keys[j]], now)), d0, j + 1, now)
  {
  }

  /** At the end of the ageing loop every entry has its age set. */
  lemma AgedAll(d: Database, d0: Database, now: int)
    requires AgedUpTo(d, d0, |d0.keys|, now)
    ensures d.entries == map k | k in d0.entries :: Aged(d0.entries[k], now)
  {
    forall k | k in d0.entries
      ensures d.entries[k] == Aged(d0.entries[k], now)
    {
      var t := IndexOf(d0.keys, k);
    }
  }

  /** Part way through the deletion loop: the keys in `removed` are gone
      from the aged database. */
  ghost predicate RemovedSoFar(d: Database, d0: Database, removed: set<string>, now: int)
  {
    && d0.WellFormed() && d.WellFormed()
    && d.keys == WithoutAll(d0.keys, removed)
    && d.entries == map k | k in d0.entries && k !in removed :: Aged(d0.entries[k], now)
  }

  /** Before the deletion loop nothing is removed yet. */
  lemma RemovedNothing(d: Database, d0: Database, now: int)
    requires d0.WellFormed() && d.keys == d0.keys
    requires d.entries == map k | k in d0.entries :: Aged(d0.entries[k], now)
    ensures RemovedSoFar(d, d0, {}, now)
  {
    WithoutNothing(d0.keys);
  }

  /** Dropping one more key from the aged entries that survive `removed`. */
  lemma AgedWithout(m: map<string, Entry>, m0: map<string, Entry>, removed: set<string>, k: string, now: int)
    requires m == map x | x in m0 && x !in removed :: Aged(m0[x], now)
    ensures m - {k} == map x | x in m0 && x !in removed + {k} :: Aged(m0[x], now)
  {
  }

  /** One step of the deletion loop. */
  lemma RemoveStep(d: Database, d0: Database, removed: set<string>, k: string, now: int)
    requires RemovedSoFar(d, d0, removed, now)
    ensures RemovedSoFar(d.Delete(k), d0, removed + {k}, now)
  {
    var e := d.Delete(k);
    assert e == Dict(WithoutAll(d.keys, {k}), d.entries - {k});
    WithoutAllStep(d0.keys, removed, k);
    AgedWithout(d.entries, d0.entries, removed, k, now);
  }

  /** Once exactly the stale keys are removed, the database is the sweep's. */
  lemma RemovedAll(d: Database, d0: Database, removed: set<string>, expired: seq<string>, now: int, persistence: int)
    requires RemovedSoFar(d, d0, removed, now)
    requires forall x :: x in removed <==> x in expired
    requires forall x :: x in expired <==> x in d0.entries && Stale(d0.entries[x], now, persistence)
    ensures d == Swept(d0, now, persistence)
  {
    assert removed == StaleKeys(d0, now, persistence);
  }

  /** One step of the deletion loop over the collected keys. */
  lemma RemoveNext(d: Database, d0: Database, expired: seq<string>, t: nat, now: int)
    requires t < |expired| && RemovedSoFar(d, d0, Elements(expired[..t]), now)
    ensures RemovedSoFar(d.Delete(expired[t]), d0, Elements(expired[..t + 1]), now)
  {
    assert expired[..t + 1][..t] == expired[..t];
    RemoveStep(d, d0, Elements(expired[..t]), expired[t], now);
  }

  /** Once every collected key is removed, the database is the sweep's. */
  lemma RemovedEvery(d: Database, d0: Database, expired: seq<string>, now: int, persistence: int)
    requires RemovedSoFar(d, d0, Elements(expired[..|expired|]), now)
    requires forall x :: x in expired <==> x in d0.entries && Stale(d0.entries[x], now, persistence)
    ensures d == Swept(d0, now, persistence)
  {
    assert expired[..|expired|] == expired;
    ElementsMembers(expired);
    RemovedAll(d, d0, Elements(expired), expired, now, persistence);
  }

  /** The upsert stores exactly the old keys and those of the keyed records,
      and appends new keys after the old ones. */
  lemma {:induction false} UpsertedKeys(d: Database, list: seq<Record>, now: int)
    requires d.WellFormed()
    ensures forall k :: k in Upserted(d, list, now).entries <==> k in d.entries || KeyedIn(list, k)
    ensures d.keys <= Upserted(d, list, now).keys
    decreases |list|
  {
    if list != [] {
      var init := list[..|list| - 1];
      UpsertedKeys(d, init, now);
      forall k | KeyedIn(init, k) ensures KeyedIn(list, k) {
        var i :| 0 <= i < |init| && Key(init[i]) == Some(k);
        assert list[i] == init[i];
      }
    }
  }

  /** Last write wins: the entry under a record's key is built from the last
      record of the batch with that key. */
  lemma {:induction false} UpsertLastWins(d: Database, list: seq<Record>, now: int, i: nat)
    requires d.WellFormed()
    requires i < |list| && Key(list[i]).Some?
    requires forall j :: i < j < |list| ==> Key(list[j]) != Key(list[i])
    ensures Key(list[i]).value in Upserted(d, list, now).entries
    ensures Upserted(d, list, now).entries[Key(list[i]).value] == Minimal(Key(list[i]).value, list[i], now)
    decreases |list|
  {
    var init := list[..|list| - 1];
    if i < |list| - 1 {
      UpsertLastWins(d, init, now, i);
    }
  }

  /** A key no record of the batch carries keeps its entry unchanged. */
  lemma {:induction false} UpsertUntouched(d: Database, list: seq<Record>, now: int, k: string)
    requires d.WellFormed() && k in d.entries && !KeyedIn(list, k)
    ensures k in Upserted(d, list, now).entries
    ensures Upserted(d, list, now).entries[k] == d.entries[k]
    decreases |list|
  {
    if list != [] {
      var init := list[..|list| - 1];
      UpsertUntouched(d, init, now, k);
      assert Key(list[|list| - 1]) != Some(k);
    }
  }

  /** An entry refreshed by the batch was seen at `now` and has age 0. */
  lemma {:induction false} UpsertRefreshes(d: Database, list: seq<Record>, now: int, k: string)
    requires d.WellFormed() && KeyedIn(list, k)
    ensures k in Upserted(d, list, now).entries
    ensures Upserted(d, list, now).entries[k].lastSeen == now
    ensures Upserted(d, list, now).entries[k].ageSeconds == 0
    decreases |list|
  {
    var init := list[..|list| - 1];
    if Key(list[|list| - 1]) != Some(k) {
      var i :| 0 <= i < |list| && Key(list[i]) == Some(k);
      assert i < |list| - 1 && init[i] == list[i];
      UpsertRefreshes(d, init, now, k);
    }
  }

  /** With a non-negative window, the sweep of the same call never removes an
      entry the batch refreshed. */
  lemma RefreshedSurvive(d: Database, list: seq<Record>, now: int, persistence: int, k: string)
    requires d.WellFormed() && persistence >= 0 && KeyedIn(list, k)
    ensures k in Swept(Upserted(d, list, now), now, persistence).entries
    ensures Swept(Upserted(d, list, now), now, persistence).entries[k].ageSeconds == 0
  {
    UpsertRefreshes(d, list, now, k);
  }

  /** An unexpired entry the batch did not touch keeps every field except its
      age. */
  lemma UntouchedKeepFields(d: Database, list: seq<Record>, now: int, persistence: int, k: string)
    requires d.WellFormed() && k in d.entries && !KeyedIn(list, k)
    requires now - d.entries[k].lastSeen <= persistence
    ensures k in Swept(Upserted(d, list, now), now, persistence).entries
    ensures Swept(Upserted(d, list, now), now, persistence).entries[k] == d.entries[k].(ageSeconds := now - d.entries[k].lastSeen)
  {
    UpsertUntouched(d, list, now, k);
  }
}
