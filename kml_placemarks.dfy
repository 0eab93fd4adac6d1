/** What `generate_minimal_kml` (kmz_generator.py) emits per stored aircraft:
    the altitude label and the rules that decide which placemarks appear. The
    XML text itself and the position of a prediction line's far end are not
    modelled; a placemark keeps the values the XML is built from. */
module KmlPlacemarks {
  import opened Records
  import opened DecimalFormat
  import opened AircraftCache

  /** Python's `round(a / 100)` for an integer altitude: nearest integer,
      halves to the even neighbour. */
  function RoundHundreds(a: int): (n: int)
    ensures 100 * n - 50 <= a <= 100 * n + 50
    ensures a == 100 * n - 50 || a == 100 * n + 50 ==> n % 2 == 0
  {
    var q := a / 100;
    var r := a % 100;
    if r < 50 then q
    else if r > 50 then q + 1
    else if q % 2 == 0 then q else q + 1
  }

  /** Rounding to the nearest hundred, halves to even, has only one answer. */
  lemma RoundHundredsUnique(a: int, m: int)
    requires 100 * m - 50 <= a <= 100 * m + 50
    requires a == 100 * m - 50 || a == 100 * m + 50 ==> m % 2 == 0
    ensures m == RoundHundreds(a)
  {
    var n := RoundHundreds(a);
    assert -1 <= m - n <= 1;
  }

  datatype Tendency = Climbing | Descending | Level

  /** Climbing above 200, descending below -200, level otherwise. */
  function TendencyOf(vertRate: int): Tendency
  {
    if vertRate > 200 then Climbing else if vertRate < -200 then Descending else Level
  }

  function Arrow(t: Tendency): string
  {
    match t
    case Climbing => " ^"
    case Descending => " v"
    case Level => ""
  }

  /** The placemark name: four spaces, the altitude in hundreds as three
      figures, then the climb or descent arrow. */
  function AltitudeLabel(altitude: int, vertRate: int): string
  {
    "    " + Format03(RoundHundreds(altitude)) + Arrow(TendencyOf(vertRate))
  }

  /** Reads a label back into its altitude in hundreds and its tendency. */
  function ParseLabel(s: string): Option<(int, Tendency)>
  {
    if |s| < 4 || s[..4] != "    " then None
    else
      var body := s[4..];
      if |body| >= 2 && body[|body| - 2..] == " ^" then Some((ParseInt(body[..|body| - 2]), Climbing))
      else if |body| >= 2 && body[|body| - 2..] == " v" then Some((ParseInt(body[..|body| - 2]), Descending))
      else Some((ParseInt(body), Level))
  }

  /** A figure ending in a digit, with a tendency arrow after it, parses
      back into the two. */
  lemma ParseArrow(f: string, t: Tendency)
    requires |f| >= 1 && IsDigit(f[|f| - 1])
    ensures ParseLabel("    " + f + Arrow(t)) == Some((ParseInt(f), t))
  {
    var s := "    " + f + Arrow(t);
    assert s[..4] == "    ";
    var body := s[4..];
    assert body == f + Arrow(t);
    match t
    case Climbing =>
      assert body[..|body| - 2] == f;
    case Descending =>
      assert body[..|body| - 2] == f;
    case Level =>
      assert body == f;
  }

  /** The label carries the rounded altitude and the tendency, and nothing is
      lost in writing them out. */
  lemma LabelRoundTrip(altitude: int, vertRate: int)
    ensures ParseLabel(AltitudeLabel(altitude, vertRate)) == Some((RoundHundreds(altitude), TendencyOf(vertRate)))
  {
    var n := RoundHundreds(altitude);
    FormatShape(n);
    FormatRoundTrip(n);
    var f := Format03(n);
    assert IsDigit(f[|f| - 1]);
    ParseArrow(f, TendencyOf(vertRate));
  }

  /** A point with its label, or a prediction line from the same position. */
  datatype Placemark =
    | Point(name: string, lat: real, lon: real)
    | PredictionLine(lat: real, lon: real, heading: real, speed: real)

  predicate Positioned(e: Entry)
  {
    e.lat.Some? && e.lon.Some?
  }

  predicate HasPrediction(e: Entry)
  {
    Positioned(e) && e.heading.Some? && e.speed.Some? && e.speed.value > 0.0
  }

  /** The placemarks of one entry, or None where the source raises a
      TypeError because a positioned entry's altitude or vertical rate is null. */
  function Render(e: Entry): Option<seq<Placemark>>
  {
    if !Positioned(e) then Some([])
    else if e.altitude.None? || e.vertRate.None? then None
    else
      var point := Point(AltitudeLabel(e.altitude.value, e.vertRate.value), e.lat.value, e.lon.value);
      if HasPrediction(e) then Some([point, PredictionLine(e.lat.value, e.lon.value, e.heading.value, e.speed.value)])
      else Some([point])
  }

  /** The placemarks of a list of entries, in order; None if any entry fails. */
  function Placemarks(es: seq<Entry>): Option<seq<Placemark>>
  {
    if es == [] then Some([])
    else
      match Placemarks(es[..|es| - 1])
      case None => None
      case Some(ps) =>
        match Render(es[|es| - 1])
        case None => None
        case Some(qs) => Some(ps + qs)
  }

  /** A positioned entry whose altitude or vertical rate is null. */
  predicate Fails(e: Entry)
  {
    Positioned(e) && (e.altitude.None? || e.vertRate.None?)
  }

  /** Null and absent differ for altitude and vertical rate: the stored entry
      of a record with a position fails to render exactly when one of the two
      is an explicit null, while an absent one is drawn as 0. A record without
      a position never fails. */
  lemma NullVersusAbsent(id: string, a: Record, now: int)
    ensures Fails(Minimal(id, a, now)) <==>
      a.lat.Has? && a.lon.Has? && (a.altitude.Null? || a.vertRate.Null?)
    ensures a.lat.Has? && a.lon.Has? && !a.altitude.Null? && !a.vertRate.Null? ==>
      var r := Render(Minimal(id, a, now));
      && r.Some? && |r.value| >= 1
      && r.value[0] == Point(AltitudeLabel(if a.altitude.Has? then a.altitude.value else 0,
                                           if a.vertRate.Has? then a.vertRate.value else 0),
                             a.lat.value, a.lon.value)
  {
  }

  function CountPositioned(es: seq<Entry>): nat
  {
    if es == [] then 0 else CountPositioned(es[..|es| - 1]) + (if Positioned(es[|es| - 1]) then 1 else 0)
  }

  function CountPredicted(es: seq<Entry>): nat
  {
    if es == [] then 0 else CountPredicted(es[..|es| - 1]) + (if HasPrediction(es[|es| - 1]) then 1 else 0)
  }

  function CountPoints(ps: seq<Placemark>): nat
  {
    if ps == [] then 0 else CountPoints(ps[..|ps| - 1]) + (if ps[|ps| - 1].Point? then 1 else 0)
  }

  function CountLines(ps: seq<Placemark>): nat
  {
    if ps == [] then 0 else CountLines(ps[..|ps| - 1]) + (if ps[|ps| - 1].PredictionLine? then 1 else 0)
  }

  lemma {:induction false} CountsAppend(ps: seq<Placemark>, qs: seq<Placemark>)
    ensures CountPoints(ps + qs) == CountPoints(ps) + CountPoints(qs)
    ensures CountLines(ps + qs) == CountLines(ps) + CountLines(qs)
    decreases |qs|
  {
    if qs == [] {
      assert ps + qs == ps;
    } else {
      CountsAppend(ps, qs[..|qs| - 1]);
      assert (ps + qs)[..|ps + qs| - 1] == ps + qs[..|qs| - 1];
    }
  }

  /** The document fails exactly when some entry fails. */
  lemma {:induction false} PlacemarksFail(es: seq<Entry>)
    ensures Placemarks(es).None? <==> exists i :: 0 <= i < |es| && Fails(es[i])
  {
    if es != [] {
      var init := es[..|es| - 1];
      PlacemarksFail(init);
      if exists i :: 0 <= i < |init| && Fails(init[i]) {
        var i :| 0 <= i < |init| && Fails(init[i]);
        assert es[i] == init[i];
      }
      if exists i :: 0 <= i < |es| && Fails(es[i]) {
        var i :| 0 <= i < |es| && Fails(es[i]);
        if i < |es| - 1 {
          assert init[i] == es[i];
        }
      }
    }
  }

  lemma CountPair(p: Placemark, q: Placemark)
    ensures CountPoints([p, q]) == (if p.Point? then 1 else 0) + (if q.Point? then 1 else 0)
    ensures CountLines([p, q]) == (if p.PredictionLine? then 1 else 0) + (if q.PredictionLine? then 1 else 0)
  {
    var pq := [p, q];
    assert pq[..1] == [p];
    assert [p][..0] == [];
    assert CountPoints([p]) == if p.Point? then 1 else 0;
    assert CountLines([p]) == if p.PredictionLine? then 1 else 0;
    assert CountPoints(pq) == CountPoints([p]) + (if q.Point? then 1 else 0);
    assert CountLines(pq) == CountLines([p]) + (if q.PredictionLine? then 1 else 0);
  }

  /** The counts for one entry. */
  lemma RenderCounts(e: Entry)
    requires Render(e).Some?
    ensures CountPoints(Render(e).value) == if Positioned(e) then 1 else 0
    ensures CountLines(Render(e).value) == if HasPrediction(e) then 1 else 0
  {
    var qs := Render(e).value;
    if !Positioned(e) {
      assert qs == [];
    } else if HasPrediction(e) {
      assert |qs| == 2;
      CountPair(qs[0], qs[1]);
      assert qs == [qs[0], qs[1]];
    } else {
      assert |qs| == 1;
      assert qs[..0] == [];
    }
  }

  /** One point per positioned entry and one prediction line per positioned
      entry that has a heading and a positive speed; so there are never more
      lines than points. */
  lemma {:induction false} PlacemarkCounts(es: seq<Entry>)
    requires Placemarks(es).Some?
    ensures CountPoints(Placemarks(es).value) == CountPositioned(es)
    ensures CountLines(Placemarks(es).value) == CountPredicted(es)
    ensures CountPredicted(es) <= CountPositioned(es)
  {
    if es != [] {
      var init := es[..|es| - 1];
      var last := es[|es| - 1];
      PlacemarkCounts(init);
      RenderCounts(last);
      CountsAppend(Placemarks(init).value, Render(last).value);
    }
  }

  /** Every prediction line comes right after the point of the same aircraft,
      at the same position. */
  lemma {:induction false} LineFollowsPoint(es: seq<Entry>)
    requires Placemarks(es).Some?
    ensures forall i :: 0 <= i < |Placemarks(es).value| && Placemarks(es).value[i].PredictionLine? ==>
      && i > 0
      && Placemarks(es).value[i - 1].Point?
      && Placemarks(es).value[i - 1].lat == Placemarks(es).value[i].lat
      && Placemarks(es).value[i - 1].lon == Placemarks(es).value[i].lon
  {
    if es != [] {
      var init := es[..|es| - 1];
      LineFollowsPoint(init);
      var ps: seq<Placemark> := Placemarks(init).value;
      var qs: seq<Placemark> := Render(es[|es| - 1]).value;
      var all := ps + qs;
      assert Placemarks(es).value == all;
      forall i: int | 0 <= i < |all| && all[i].PredictionLine?
        ensures i > 0 && all[i - 1].Point? && all[i - 1].lat == all[i].lat && all[i - 1].lon == all[i].lon
      {
        if i >= |ps| {
          assert qs[i - |ps|].PredictionLine?;
          assert i - |ps| == 1;
        } else {
          assert all[i] == ps[i] && all[i - 1] == ps[i - 1];
        }
      }
    }
  }
}
