/** The DLE/STX/ETX framing of the firehose stream (`DLEProtocol` in
    firehose_client.py). A frame is `DLE STX payload DLE ETX`; inside the
    payload a literal DLE is sent doubled. `ExtractFrames` is the scanner as the
    source writes it (two nested index loops); `Scan` and `ReadBody` are the
    same scan stated over suffixes of the buffer, and the lemmas below are
    about them. */
module DleProtocol {
  import opened Records

  const DLE: byte := 0x10
  const STX: byte := 0x02
  const ETX: byte := 0x03

  /** What a scan yields: the complete frame payloads, in order, and the bytes
      kept for the next call. */
  datatype Extraction = Extraction(frames: seq<seq<byte>>, remainder: seq<byte>)

  /** The outcome of reading a frame body: either the terminating `DLE ETX`
      was found, with the un-doubled payload and the bytes after the
      terminator, or the buffer ended first. */
  datatype Body = Open | Closed(payload: seq<byte>, rest: seq<byte>)

  function Prepend(p: seq<byte>, b: Body): (r: Body)
  {
    match b
    case Open => Open
    case Closed(q, rest) => Closed(p + q, rest)
  }

  /** Reads a frame body from the byte after `DLE STX`: a DLE followed by ETX
      ends the frame; a DLE followed by DLE stands for one DLE; any other byte,
      a lone DLE included, is copied and the scan moves on by one. Two bytes of
      lookahead are needed, so fewer than two bytes left means the frame is
      still open. */
  function ReadBody(t: seq<byte>): (b: Body)
    ensures b.Closed? ==> |b.rest| <= |t| - 2
    decreases |t|
  {
    if |t| < 2 then Open
    else if t[0] == DLE && t[1] == ETX then Closed([], t[2..])
    else if t[0] == DLE && t[1] == DLE then Prepend([DLE], ReadBody(t[2..]))
    else Prepend([t[0]], ReadBody(t[1..]))
  }

  /** The scan of a buffer: bytes are skipped until `DLE STX`; then the body is
      read; a closed frame is emitted and the scan resumes after it, an open one
      makes the suffix from its `DLE STX` the remainder. A last byte on its own
      is neither a start marker nor kept. */
  function Scan(s: seq<byte>): (x: Extraction)
    decreases |s|
  {
    if |s| < 2 then Extraction([], [])
    else if s[0] == DLE && s[1] == STX then
      match ReadBody(s[2..])
      case Open => Extraction([], s)
      case Closed(p, rest) =>
        var x := Scan(rest); Extraction([p] + x.frames, x.remainder)
    else Scan(s[1..])
  }

  /** `unstuff_data`: a copy of its argument. The un-doubling of DLE happens
      while the body is scanned, not here. */
  function Unstuff(data: seq<byte>): seq<byte>
  {
    data
  }

  lemma PrependTwice(a: seq<byte>, b: seq<byte>, x: Body)
    ensures Prepend(a, Prepend(b, x)) == Prepend(a + b, x)
  {
    if x.Closed? {
      assert a + (b + x.payload) == (a + b) + x.payload;
    }
  }

  // ---------------------------------------------------------------------
  // The same scan by index into one buffer, as the loops of `extract_frames`
  // walk it. Both readings are kept on purpose: the suffix form above is the
  // one the round-trip and splitting lemmas are easy to state in, while loop
  // invariants phrased over suffixes (`s[j..]`) make every loop step reason
  // about slices of slices, which is far more costly to verify than an index
  // into the one buffer. `FrameAtSuffix` and `ScanAtSuffix` show the two
  // readings agree, so the method's contract is stated over `Scan`.

  /** A frame body read from an index: `Complete` with the payload and the
      index just after `DLE ETX`, or `Incomplete`. */
  datatype Frame = Incomplete | Complete(payload: seq<byte>, next: nat)

  function Shift(p: seq<byte>, f: Frame): Frame
  {
    match f
    case Incomplete => Incomplete
    case Complete(q, k) => Complete(p + q, k)
  }

  /** `ReadBody` of the bytes of `s` from index `j` on. */
  ghost function FrameAt(s: seq<byte>, j: nat): (f: Frame)
    requires j <= |s|
    ensures f.Complete? ==> j + 2 <= f.next <= |s|
    decreases |s| - j
  {
    if |s| - j < 2 then Incomplete
    else if s[j] == DLE && s[j + 1] == ETX then Complete([], j + 2)
    else if s[j] == DLE && s[j + 1] == DLE then Shift([DLE], FrameAt(s, j + 2))
    else Shift([s[j]], FrameAt(s, j + 1))
  }

  /** `Scan` of the bytes of `s` from index `i` on. */
  ghost function ScanAt(s: seq<byte>, i: nat): Extraction
    requires i <= |s|
    decreases |s| - i
  {
    if |s| - i < 2 then Extraction([], [])
    else if s[i] == DLE && s[i + 1] == STX then
      match FrameAt(s, i + 2)
      case Incomplete => Extraction([], s[i..])
      case Complete(p, k) =>
        var x := ScanAt(s, k); Extraction([p] + x.frames, x.remainder)
    else ScanAt(s, i + 1)
  }

  /** Reading by index is reading the suffix. */
  lemma {:induction false} FrameAtSuffix(s: seq<byte>, j: nat)
    requires j <= |s|
    ensures FrameAt(s, j).Incomplete? <==> ReadBody(s[j..]).Open?
    ensures FrameAt(s, j).Complete? ==> ReadBody(s[j..]) == Closed(FrameAt(s, j).payload, s[FrameAt(s, j).next..])
    decreases |s| - j
  {
    if |s| - j >= 2 {
      if s[j] == DLE && s[j + 1] == ETX {
        assert s[j..][2..] == s[j + 2..];
      } else if s[j] == DLE && s[j + 1] == DLE {
        FrameAtSuffix(s, j + 2);
        assert s[j..][2..] == s[j + 2..];
      } else {
        FrameAtSuffix(s, j + 1);
        assert s[j..][1..] == s[j + 1..];
      }
    }
  }

  /** Scanning by index is scanning the suffix. */
  lemma {:induction false} ScanAtSuffix(s: seq<byte>, i: nat)
    requires i <= |s|
    ensures ScanAt(s, i) == Scan(s[i..])
    decreases |s| - i
  {
    if |s| - i >= 2 {
      if s[i] == DLE && s[i + 1] == STX {
        FrameAtSuffix(s, i + 2);
        assert s[i..][2..] == s[i + 2..];
        match FrameAt(s, i + 2)
        case Incomplete =>
        case Complete(p, k) =>
          ScanAtSuffix(s, k);
      } else {
        ScanAtSuffix(s, i + 1);
        assert s[i..][1..] == s[i + 1..];
      }
    }
  }

  lemma ShiftTwice(a: seq<byte>, b: seq<byte>, f: Frame)
    ensures Shift(a, Shift(b, f)) == Shift(a + b, f)
  {
    if f.Complete? {
      assert a + (b + f.payload) == (a + b) + f.payload;
    }
  }

  /** The inner loop of `extract_frames`: reads the body that starts at
      `frameStart` (just after `DLE STX`). When `closed`, `frameData` is the
      payload and `next` the index just after `DLE ETX`. */
  method ReadFrame(buffer: seq<byte>, frameStart: nat) returns (closed: bool, frameData: seq<byte>, next: nat)
    requires frameStart <= |buffer|
    ensures closed ==> FrameAt(buffer, frameStart) == Complete(frameData, next)
    ensures !closed ==> FrameAt(buffer, frameStart) == Incomplete
  {
    var j := frameStart;
    frameData := [];
    closed, next := false, 0;
    while j < |buffer| - 1
      invariant frameStart <= j <= |buffer|
      invariant FrameAt(buffer, frameStart) == Shift(frameData, FrameAt(buffer, j))
      decreases |buffer| - j
    {
      if buffer[j] == DLE {
        if buffer[j + 1] == ETX {
          assert frameData + [] == frameData;
          closed, next := true, j + 2;
          return;
        } else if buffer[j + 1] == DLE {
          // an escaped DLE
          ShiftTwice(frameData, [DLE], FrameAt(buffer, j + 2));
          frameData := frameData + [DLE];
          j := j + 2;
        } else {
          ShiftTwice(frameData, [buffer[j]], FrameAt(buffer, j + 1));
          frameData := frameData + [buffer[j]];
          j := j + 1;
        }
      } else {
        ShiftTwice(frameData, [buffer[j]], FrameAt(buffer, j + 1));
        frameData := frameData + [buffer[j]];
        j := j + 1;
      }
    }
  }

  /** `extract_frames`: the outer loop looks for `DLE STX`; each complete frame
      is appended, an incomplete one ends the scan with the rest of the buffer
      from its start marker as the remainder. */
  method ExtractFrames(buffer: seq<byte>) returns (frames: seq<seq<byte>>, remaining: seq<byte>)
    ensures Extraction(frames, remaining) == Scan(buffer)
  {
    frames := [];
    remaining := [];
    var i := 0;
    while i < |buffer| - 1
      invariant 0 <= i <= |buffer|
      invariant ScanAt(buffer, 0) == Extraction(frames + ScanAt(buffer, i).frames, ScanAt(buffer, i).remainder)
      decreases |buffer| - i
    {
      if buffer[i] == DLE && buffer[i + 1] == STX {
        var closed, frameData, next := ReadFrame(buffer, i + 2);
        if closed {
          assert frames + ([frameData] + ScanAt(buffer, next).frames) == (frames + [Unstuff(frameData)]) + ScanAt(buffer, next).frames;
          frames := frames + [Unstuff(frameData)];
          i := next;
        } else {
          // the while-else of the source: no terminator before the end
          assert frames + [] == frames;
          remaining := buffer[i..];
          break;
        }
      } else {
        i := i + 1;
      }
    }
    if !(i < |buffer| - 1) {
      assert frames + [] == frames;
    }
    ScanAtSuffix(buffer, 0);
    assert buffer[0..] == buffer;
  }

  // ---------------------------------------------------------------------
  // The sender's side: a payload with every DLE doubled, between markers.

  /** The payload with every DLE doubled. */
  function Stuff(p: seq<byte>): seq<byte>
  {
    if p == [] then []
    else (if p[0] == DLE then [DLE, DLE] else [p[0]]) + Stuff(p[1..])
  }

  function Wrap(p: seq<byte>): seq<byte>
  {
    [DLE, STX] + Stuff(p) + [DLE, ETX]
  }

  /** The frames one after the other, with nothing between them. */
  function Encode(ps: seq<seq<byte>>): seq<byte>
  {
    if ps == [] then [] else Wrap(ps[0]) + Encode(ps[1..])
  }

  /** Stuffing adds exactly one byte per DLE of the payload. */
  lemma {:induction false} StuffLength(p: seq<byte>)
    ensures |Stuff(p)| == |p| + multiset(p)[DLE]
  {
    if p != [] {
      StuffLength(p[1..]);
      assert p == [p[0]] + p[1..];
      assert multiset(p) == multiset([p[0]]) + multiset(p[1..]);
    }
  }

  lemma ReadEscapedDle(tail: seq<byte>)
    ensures ReadBody([DLE, DLE] + tail) == Prepend([DLE], ReadBody(tail))
  {
    assert ([DLE, DLE] + tail)[2..] == tail;
  }

  lemma ReadOrdinary(c: byte, tail: seq<byte>)
    requires c != DLE && |tail| >= 1
    ensures ReadBody([c] + tail) == Prepend([c], ReadBody(tail))
  {
    assert ([c] + tail)[1..] == tail;
  }

  /** One payload byte of a stuffed body is read back as itself. */
  lemma ReadStuffedStep(p: seq<byte>, rest: seq<byte>)
    requires p != []
    ensures ReadBody(Stuff(p) + [DLE, ETX] + rest)
         == Prepend([p[0]], ReadBody(Stuff(p[1..]) + [DLE, ETX] + rest))
  {
    var tail := Stuff(p[1..]) + [DLE, ETX] + rest;
    var front: seq<byte> := if p[0] == DLE then [DLE, DLE] else [p[0]];
    assert Stuff(p) == front + Stuff(p[1..]);
    assert Stuff(p) + [DLE, ETX] + rest == front + tail;
    if p[0] == DLE {
      ReadEscapedDle(tail);
    } else {
      ReadOrdinary(p[0], tail);
    }
  }

  /** The body of a stuffed payload reads back as the payload, whatever
      follows the terminator. */
  lemma {:induction false} ReadStuffed(p: seq<byte>, rest: seq<byte>)
    ensures ReadBody(Stuff(p) + [DLE, ETX] + rest) == Closed(p, rest)
  {
    if p == [] {
      assert Stuff(p) + [DLE, ETX] + rest == [DLE, ETX] + rest;
      assert ([DLE, ETX] + rest)[2..] == rest;
    } else {
      ReadStuffed(p[1..], rest);
      ReadStuffedStep(p, rest);
      assert [p[0]] + p[1..] == p;
    }
  }

  lemma ScanWrapped(p: seq<byte>, rest: seq<byte>)
    ensures Scan(Wrap(p) + rest) == Extraction([p] + Scan(rest).frames, Scan(rest).remainder)
  {
    var s := Wrap(p) + rest;
    assert s[2..] == Stuff(p) + [DLE, ETX] + rest;
    ReadStuffed(p, rest);
  }

  lemma ScanEncodedStep(ps: seq<seq<byte>>, rest: seq<byte>)
    requires ps != []
    ensures var x := Scan(Encode(ps[1..]) + rest);
      Scan(Encode(ps) + rest) == Extraction([ps[0]] + x.frames, x.remainder)
  {
    var x := Encode(ps[1..]) + rest;
    assert Encode(ps) + rest == Wrap(ps[0]) + x;
    ScanWrapped(ps[0], x);
  }

  lemma FramesCons(ps: seq<seq<byte>>, x: Extraction, y: Extraction, f: seq<seq<byte>>)
    requires ps != [] && x.frames == ps[1..] + f
    requires y == Extraction([ps[0]] + x.frames, x.remainder)
    ensures y.frames == ps + f && y.remainder == x.remainder
  {
    assert [ps[0]] + (ps[1..] + f) == ps + f;
  }

  /** Encoded frames followed by anything: the frames come out first, in
      order, and the scan then goes on as on the bytes after them. */
  lemma {:induction false} ScanEncodedThen(ps: seq<seq<byte>>, rest: seq<byte>)
    ensures Scan(Encode(ps) + rest).frames == ps + Scan(rest).frames
    ensures Scan(Encode(ps) + rest).remainder == Scan(rest).remainder
  {
    if ps == [] {
      assert Encode(ps) + rest == rest;
      assert ps + Scan(rest).frames == Scan(rest).frames;
    } else {
      ScanEncodedThen(ps[1..], rest);
      ScanEncodedStep(ps, rest);
      FramesCons(ps, Scan(Encode(ps[1..]) + rest), Scan(Encode(ps) + rest), Scan(rest).frames);
    }
  }

  /** Round trip: the encoded payloads are extracted unchanged, in order, and
      nothing is left over. */
  lemma RoundTrip(ps: seq<seq<byte>>)
    ensures Scan(Encode(ps)) == Extraction(ps, [])
  {
    ScanEncodedThen(ps, []);
    assert Encode(ps) + [] == Encode(ps);
  }

  /** A single byte after the last complete frame is dropped, not kept: the
      outer loop stops one byte short of the end. A `DLE` here is the first
      half of a start marker whose `STX` has not arrived yet. */
  lemma TrailingByteDropped(ps: seq<seq<byte>>, b: byte)
    ensures Scan(Encode(ps) + [b]) == Extraction(ps, [])
  {
    ScanEncodedThen(ps, [b]);
  }

  // ---------------------------------------------------------------------
  // Noise outside frames.

  predicate StartAt(t: seq<byte>, k: int)
  {
    0 <= k && k + 1 < |t| && t[k] == DLE && t[k + 1] == STX
  }

  /** Bytes before the first start marker are skipped and appear in no frame. */
  lemma {:induction false} SkipNoise(t: seq<byte>, n: nat)
    requires n <= |t|
    requires forall k :: 0 <= k < n ==> !StartAt(t, k)
    ensures Scan(t) == Scan(t[n..])
    decreases n
  {
    if n > 0 {
      assert !StartAt(t, 0);
      if |t| >= 2 {
        assert t[1..][n - 1..] == t[n..];
        forall k | 0 <= k < n - 1 ensures !StartAt(t[1..], k) {
          assert !StartAt(t, k + 1);
        }
        SkipNoise(t[1..], n - 1);
      }
    }
  }

  /** Noise that holds no DLE, in front of a frame, is dropped. */
  lemma NoiseBetweenFrames(noise: seq<byte>, p: seq<byte>, rest: seq<byte>)
    requires DLE !in noise
    ensures Scan(noise + Wrap(p) + rest) == Extraction([p] + Scan(rest).frames, Scan(rest).remainder)
  {
    var t := noise + (Wrap(p) + rest);
    assert noise + Wrap(p) + rest == t;
    forall k | 0 <= k < |noise| ensures !StartAt(t, k) {
      assert t[k] == noise[k];
    }
    assert t[|noise|..] == Wrap(p) + rest;
    SkipNoise(t, |noise|);
    ScanWrapped(p, rest);
  }

  // ---------------------------------------------------------------------
  // Escape bytes inside a frame.

  /** A DLE followed by a byte that is neither ETX nor DLE is copied with that
      byte, and scanning goes on after them. */
  lemma LoneEscapeCopied(x: byte, u: seq<byte>)
    requires x != ETX && x != DLE
    ensures ReadBody([DLE, x] + u) == Prepend([DLE, x], ReadBody(u))
  {
    var t := [DLE, x] + u;
    assert t[1..] == [x] + u;
    if |u| == 0 {
      assert ReadBody(t[1..]) == Open;
    } else {
      assert ([x] + u)[1..] == u;
    }
    PrependTwice([DLE], [x], ReadBody(u));
  }

  /** Bytes without DLE are copied into the payload as they are. */
  lemma {:induction false} ReadPlain(a: seq<byte>, u: seq<byte>)
    requires DLE !in a
    requires |u| >= 2
    ensures ReadBody(a + u) == Prepend(a, ReadBody(u))
  {
    if a == [] {
      assert a + u == u;
      if ReadBody(u).Closed? { assert a + ReadBody(u).payload == ReadBody(u).payload; }
    } else {
      assert a[0] in a;
      assert (a + u)[1..] == a[1..] + u;
      assert forall b :: b in a[1..] ==> b in a;
      ReadPlain(a[1..], u);
      PrependTwice([a[0]], a[1..], ReadBody(u));
      assert [a[0]] + a[1..] == a;
    }
  }

  /** A second `DLE STX` inside a frame does not start a new frame: it is data
      of the frame that is being read. */
  lemma NestedStartIsData(a: seq<byte>, b: seq<byte>, rest: seq<byte>)
    requires DLE !in a && DLE !in b
    ensures Scan([DLE, STX] + a + [DLE, STX] + b + [DLE, ETX] + rest).frames
         == [a + [DLE, STX] + b] + Scan(rest).frames
  {
    var s := [DLE, STX] + a + [DLE, STX] + b + [DLE, ETX] + rest;
    var tail := [DLE, ETX] + rest;
    assert s[2..] == a + ([DLE, STX] + (b + tail));
    assert ReadBody(tail) == Closed([], rest) by { assert tail[2..] == rest; }
    ReadPlain(b, tail);
    LoneEscapeCopied(STX, b + tail);
    ReadPlain(a, [DLE, STX] + (b + tail));
    PrependTwice([DLE, STX], b, ReadBody(tail));
    PrependTwice(a, [DLE, STX] + b, ReadBody(tail));
    assert a + ([DLE, STX] + b) + [] == a + [DLE, STX] + b;
  }

  /** The name notwithstanding, `unstuff_data` does not undo stuffing: a
      stuffed payload with a DLE in it comes back longer than the payload. */
  lemma UnstuffLeavesStuffing(p: seq<byte>)
    requires DLE in p
    ensures Unstuff(Stuff(p)) != p
  {
    StuffLength(p);
  }

  // ---------------------------------------------------------------------
  // The remainder, and scanning across two reads.

  predicate IsSuffix(r: seq<byte>, s: seq<byte>)
  {
    |r| <= |s| && s[|s| - |r|..] == r
  }

  /** The remainder is empty, or else the suffix of `s` from a start marker
      whose frame has no terminator; scanning it again on its own yields no
      frame and keeps all of it. */
  ghost predicate RemainderOk(s: seq<byte>)
  {
    var r := Scan(s).remainder;
    && (r == [] || (IsSuffix(r, s) && |r| >= 2 && r[0] == DLE && r[1] == STX && ReadBody(r[2..]) == Open))
    && Scan(r) == Extraction([], r)
  }

  lemma RemainderFrameCase(s: seq<byte>)
    requires |s| >= 2 && s[0] == DLE && s[1] == STX && ReadBody(s[2..]).Closed?
    requires RemainderOk(ReadBody(s[2..]).rest)
    ensures RemainderOk(s)
  {
    var rest := ReadBody(s[2..]).rest;
    ReadBodyRestIsSuffix(s[2..]);
    var r := Scan(rest).remainder;
    assert Scan(s).remainder == r;
    if r != [] {
      assert s[|s| - |rest|..] == rest;
      assert s[|s| - |r|..] == rest[|rest| - |r|..];
    }
  }

  lemma RemainderSkipCase(s: seq<byte>)
    requires |s| >= 2 && !(s[0] == DLE && s[1] == STX)
    requires RemainderOk(s[1..])
    ensures RemainderOk(s)
  {
    var r := Scan(s[1..]).remainder;
    assert Scan(s).remainder == r;
    if r != [] {
      assert s[|s| - |r|..] == s[1..][|s| - 1 - |r|..];
    }
  }

  /** The remainder is empty, or else the suffix of the input from a start
      marker whose frame has no terminator; scanning it again on its own
      yields no frame and keeps all of it. */
  lemma {:induction false} RemainderShape(s: seq<byte>)
    ensures var r := Scan(s).remainder;
      r == [] ||
      (IsSuffix(r, s) && |r| >= 2 && r[0] == DLE && r[1] == STX && ReadBody(r[2..]) == Open)
    ensures Scan(Scan(s).remainder) == Extraction([], Scan(s).remainder)
    decreases |s|
  {
    if |s| >= 2 {
      if s[0] == DLE && s[1] == STX {
        if ReadBody(s[2..]).Closed? {
          RemainderShape(ReadBody(s[2..]).rest);
          RemainderFrameCase(s);
        }
      } else {
        RemainderShape(s[1..]);
        RemainderSkipCase(s);
      }
    }
    assert RemainderOk(s);
  }

  /** The bytes after a frame's terminator are a suffix of the body read. */
  lemma {:induction false} ReadBodyRestIsSuffix(t: seq<byte>)
    requires ReadBody(t).Closed?
    ensures IsSuffix(ReadBody(t).rest, t)
    decreases |t|
  {
    var r := ReadBody(t).rest;
    if t[0] == DLE && t[1] == ETX {
    } else if t[0] == DLE && t[1] == DLE {
      ReadBodyRestIsSuffix(t[2..]);
      assert t[|t| - |r|..] == t[2..][|t| - 2 - |r|..];
    } else {
      ReadBodyRestIsSuffix(t[1..]);
      assert t[|t| - |r|..] == t[1..][|t| - 1 - |r|..];
    }
  }

  /** A frame body that is complete stays complete, with the same payload,
      when more bytes arrive. */
  lemma {:induction false} ReadBodyExtends(t: seq<byte>, u: seq<byte>)
    requires ReadBody(t).Closed?
    ensures ReadBody(t + u) == Closed(ReadBody(t).payload, ReadBody(t).rest + u)
    decreases |t|
  {
    if t[0] == DLE && t[1] == ETX {
      assert (t + u)[2..] == t[2..] + u;
    } else if t[0] == DLE && t[1] == DLE {
      ReadBodyExtends(t[2..], u);
      assert (t + u)[2..] == t[2..] + u;
    } else {
      ReadBodyExtends(t[1..], u);
      assert (t + u)[1..] == t[1..] + u;
    }
  }

  lemma ScanShortPrefix(c1: seq<byte>, c2: seq<byte>)
    requires |c1| < 2
    requires !(|c1| > 0 && c1[|c1| - 1] == DLE && |c2| > 0 && c2[0] == STX)
    ensures Scan(c1 + c2) == Scan(c2)
  {
    if |c1| == 0 {
      assert c1 + c2 == c2;
    } else if |c2| > 0 {
      assert (c1 + c2)[1..] == c2;
    }
  }

  lemma ScanSkipExtends(c1: seq<byte>, c2: seq<byte>)
    requires |c1| >= 2 && !(c1[0] == DLE && c1[1] == STX)
    ensures Scan(c1 + c2) == Scan(c1[1..] + c2)
  {
    assert (c1 + c2)[1..] == c1[1..] + c2;
  }

  lemma ScanFrameExtends(c1: seq<byte>, c2: seq<byte>)
    requires |c1| >= 2 && c1[0] == DLE && c1[1] == STX && ReadBody(c1[2..]).Closed?
    ensures var b := ReadBody(c1[2..]); var x := Scan(b.rest + c2);
      Scan(c1 + c2) == Extraction([b.payload] + x.frames, x.remainder)
  {
    assert (c1 + c2)[2..] == c1[2..] + c2;
    ReadBodyExtends(c1[2..], c2);
  }

  /** Scanning `c1`, then the remainder followed by `c2`, gives the frames and
      the remainder of one scan of `c1 + c2`. */
  ghost predicate SplitAgrees(c1: seq<byte>, c2: seq<byte>)
  {
    var x1 := Scan(c1);
    var x2 := Scan(x1.remainder + c2);
    x1.frames + x2.frames == Scan(c1 + c2).frames && x2.remainder == Scan(c1 + c2).remainder
  }

  /** A split that does not fall inside a start marker. */
  predicate CleanSplit(c1: seq<byte>, c2: seq<byte>)
  {
    !(|c1| > 0 && c1[|c1| - 1] == DLE && |c2| > 0 && c2[0] == STX)
  }

  /** The case of a complete first frame, given the agreement for the bytes
      after it. */
  lemma SplitFrameCase(c1: seq<byte>, c2: seq<byte>)
    requires |c1| >= 2 && c1[0] == DLE && c1[1] == STX && ReadBody(c1[2..]).Closed?
    requires SplitAgrees(ReadBody(c1[2..]).rest, c2)
    ensures SplitAgrees(c1, c2)
  {
    var p := ReadBody(c1[2..]).payload;
    var rest := ReadBody(c1[2..]).rest;
    ScanFrameExtends(c1, c2);
    var x2 := Scan(Scan(rest).remainder + c2);
    assert [p] + Scan(rest).frames + x2.frames == [p] + (Scan(rest).frames + x2.frames);
  }

  /** The bytes after a complete frame end where `c1` ends, so the split
      stays clean. */
  lemma FrameRestClean(c1: seq<byte>, c2: seq<byte>)
    requires |c1| >= 2 && ReadBody(c1[2..]).Closed? && CleanSplit(c1, c2)
    ensures CleanSplit(ReadBody(c1[2..]).rest, c2)
  {
    var rest := ReadBody(c1[2..]).rest;
    ReadBodyRestIsSuffix(c1[2..]);
    assert c1[2..][|c1| - 2 - |rest|..] == rest;
    if |rest| > 0 {
      assert rest[|rest| - 1] == c1[|c1| - 1];
    }
  }

  /** Two reads scanned one after the other, the remainder of the first
      carried over, agree with one scan of both, unless the first read leaves
      no remainder, ends with a DLE, and the second begins with STX (see
      SplitStartMarkerLosesFrame). When the first read ends inside an open
      frame, all of it is kept, so any split agrees. */
  lemma {:induction false} SplitEquivalence(c1: seq<byte>, c2: seq<byte>)
    requires Scan(c1).remainder != [] || CleanSplit(c1, c2)
    ensures SplitAgrees(c1, c2)
    decreases |c1|
  {
    if |c1| < 2 {
      ScanShortPrefix(c1, c2);
      assert [] + c2 == c2;
    } else if c1[0] == DLE && c1[1] == STX {
      if ReadBody(c1[2..]).Closed? {
        if CleanSplit(c1, c2) {
          FrameRestClean(c1, c2);
        }
        SplitEquivalence(ReadBody(c1[2..]).rest, c2);
        SplitFrameCase(c1, c2);
      }
    } else {
      ScanSkipExtends(c1, c2);
      assert c1[1..][|c1| - 2] == c1[|c1| - 1];
      SplitEquivalence(c1[1..], c2);
    }
  }

  /** A split that falls between a doubled DLE and a payload STX is not a
      split start marker: the open frame is kept whole and read on the next
      call, as one read of the whole stream reads it. */
  lemma SplitInsideEscapeAgrees()
    ensures var c1: seq<byte> := [DLE, STX, 0x41, DLE, DLE]; var c2: seq<byte> := [STX, DLE, ETX];
      c1 + c2 == Wrap([0x41, DLE, STX]) && !CleanSplit(c1, c2) && SplitAgrees(c1, c2)
  {
    var c1: seq<byte> := [DLE, STX, 0x41, DLE, DLE];
    var c2: seq<byte> := [STX, DLE, ETX];
    var p: seq<byte> := [0x41, DLE, STX];
    assert p[1..] == [DLE, STX] && p[1..][1..] == [STX] && p[1..][1..][1..] == [];
    assert Stuff([STX]) == [STX];
    assert Stuff([DLE, STX]) == [DLE, DLE] + [STX];
    assert Stuff(p) == [0x41] + [DLE, DLE, STX];
    var t: seq<byte> := [0x41, DLE, DLE];
    var u: seq<byte> := [DLE, DLE];
    assert c1[2..] == t && t[1..] == u && u[2..] == [];
    assert ReadBody(u) == Open;
    assert ReadBody(t) == Open;
    assert Scan(c1) == Extraction([], c1);
    SplitEquivalence(c1, c2);
  }

  /** The exception is real: a start marker split across two reads between its
      DLE and its STX loses the whole frame. */
  lemma SplitStartMarkerLosesFrame()
    ensures var c1: seq<byte> := [DLE]; var c2: seq<byte> := [STX, 0x41, DLE, ETX];
      Scan(c1) == Extraction([], []) &&
      Scan(Scan(c1).remainder + c2) == Extraction([], []) &&
      Scan(c1 + c2) == Extraction([[0x41]], [])
  {
    var c2: seq<byte> := [STX, 0x41, DLE, ETX];
    assert [] + c2 == c2;
    var a: seq<byte> := [0x41, DLE, ETX];
    var b: seq<byte> := [DLE, ETX];
    var e: seq<byte> := [ETX];
    assert c2[1..] == a && a[1..] == b && b[1..] == e;
    assert Scan(b) == Scan(e);
    assert Scan(a) == Scan(b);
    assert Scan(c2) == Scan(a);
    var s: seq<byte> := [DLE] + c2;
    assert s[2..] == a && b[2..] == [];
    assert ReadBody(b) == Closed([], []);
    assert ReadBody(a) == Closed([0x41], []);
  }
}
