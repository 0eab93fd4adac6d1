/** The firehose client's buffer handling and frame forwarding (`FirehoseClient`
    in firehose_client.py). The socket, TLS, authentication and reconnection
    are not modelled; a received chunk arrives as the argument of `Receive`.
    Decompression and JSON parsing are the parameters `gunzip` and `parseJson`:
    each returns None where the source raises (and catches), and `parseJson`
    gives the values of the decoded JSON object, in order. */
module Firehose {
  import opened Records
  import opened DleProtocol
  import opened DataProcessing

  /** The two-byte gzip signature. */
  predicate IsGzip(frame: seq<byte>)
  {
    |frame| >= 2 && frame[0] == 0x1F && frame[1] == 0x8B
  }

  /** A frame's records: gzip frames are decompressed first, others are
      parsed as they are; a failure at either step drops the frame. */
  function Decode(frame: seq<byte>, gunzip: seq<byte> -> Option<seq<byte>>,
                  parseJson: seq<byte> -> Option<seq<Record>>): Option<seq<Record>>
  {
    if IsGzip(frame) then
      match gunzip(frame)
      case None => None
      case Some(text) => parseJson(text)
    else parseJson(frame)
  }

  /** The batches handed to the processor for a list of frames, in order: a
      frame counts only when it decodes to a non-empty mapping. */
  function Forwarded(frames: seq<seq<byte>>, gunzip: seq<byte> -> Option<seq<byte>>,
                     parseJson: seq<byte> -> Option<seq<Record>>): seq<seq<Record>>
  {
    if frames == [] then []
    else
      var d := Decode(frames[|frames| - 1], gunzip, parseJson);
      Forwarded(frames[..|frames| - 1], gunzip, parseJson) +
      (if d.Some? && d.value != [] then [d.value] else [])
  }

  /** No forwarded batch is empty, there is at most one per frame, and each
      comes from a frame that decodes to it. */
  lemma {:induction false} ForwardedShape(frames: seq<seq<byte>>, gunzip: seq<byte> -> Option<seq<byte>>,
                                          parseJson: seq<byte> -> Option<seq<Record>>)
    ensures |Forwarded(frames, gunzip, parseJson)| <= |frames|
    ensures forall b :: b in Forwarded(frames, gunzip, parseJson) ==>
      b != [] && exists f :: f in frames && Decode(f, gunzip, parseJson) == Some(b)
  {
    if frames != [] {
      var init := frames[..|frames| - 1];
      ForwardedShape(init, gunzip, parseJson);
      forall b | b in Forwarded(frames, gunzip, parseJson)
        ensures b != [] && exists f :: f in frames && Decode(f, gunzip, parseJson) == Some(b)
      {
        if b in Forwarded(init, gunzip, parseJson) {
          var f :| f in init && Decode(f, gunzip, parseJson) == Some(b);
          assert f in frames;
        } else {
          assert frames[|frames| - 1] in frames;
        }
      }
    }
  }

  /** Frames from two reads in a row forward the batches of the first read
      followed by those of the second. */
  lemma {:induction false} ForwardedAppend(fs: seq<seq<byte>>, more: seq<seq<byte>>,
                                           gunzip: seq<byte> -> Option<seq<byte>>,
                                           parseJson: seq<byte> -> Option<seq<Record>>)
    ensures Forwarded(fs + more, gunzip, parseJson) == Forwarded(fs, gunzip, parseJson) + Forwarded(more, gunzip, parseJson)
    decreases |more|
  {
    if more == [] {
      assert fs + more == fs;
    } else {
      var init := more[..|more| - 1];
      ForwardedAppend(fs, init, gunzip, parseJson);
      assert (fs + more)[..|fs + more| - 1] == fs + init;
      assert (fs + more)[|fs + more| - 1] == more[|more| - 1];
    }
  }

  /** One more frame: its batch, if any, comes after the earlier ones. */
  lemma ForwardedStep(frames: seq<seq<byte>>, k: nat, gunzip: seq<byte> -> Option<seq<byte>>,
                      parseJson: seq<byte> -> Option<seq<Record>>)
    requires k < |frames|
    ensures var d := Decode(frames[k], gunzip, parseJson);
      Forwarded(frames[..k + 1], gunzip, parseJson) ==
      Forwarded(frames[..k], gunzip, parseJson) + (if d.Some? && d.value != [] then [d.value] else [])
  {
    assert frames[..k + 1][..k] == frames[..k];
  }

  class FirehoseClient {
    /** Bytes received and not yet part of a complete frame. */
    var buffer: seq<byte>
    var connected: bool
    const processor: DataProcessor?

    constructor (processor: DataProcessor?)
      ensures buffer == [] && !connected && this.processor == processor
    {
      buffer := [];
      connected := false;
      this.processor := processor;
    }

    /** The state reset done once a connection is up and authentication has
        been sent: a fresh connection starts with an empty buffer. */
    method BeginSession()
      modifies this
      ensures connected && buffer == []
    {
      connected := true;
      buffer := [];
    }

    /** `_process_buffer`: the complete frames leave the buffer, which keeps
        the remainder; each frame that decodes to a non-empty mapping is passed
        to the processor, in order, and `calls` lists the callback calls this
        makes. The counters end as the batches, one after the other, leave
        them. */
    method ProcessBuffer(gunzip: seq<byte> -> Option<seq<byte>>,
                         parseJson: seq<byte> -> Option<seq<Record>>,
                         raises: Callback -> bool)
      returns (forwarded: seq<seq<Record>>, calls: seq<Invocation>)
      requires processor != null ==> processor.Valid()
      modifies this, processor
      ensures buffer == Scan(old(buffer)).remainder
      ensures connected == old(connected)
      ensures forwarded == if processor == null then [] else Forwarded(Scan(old(buffer)).frames, gunzip, parseJson)
      ensures processor == null ==> calls == []
      ensures processor != null ==>
        && processor.Valid()
        && processor.filters == old(processor.filters)
        && processor.callbacks == old(processor.callbacks)
        && processor.stats == StatsAfter(old(processor.stats), old(processor.filters), forwarded)
        && calls == CallsAfter(old(processor.callbacks), old(processor.filters), forwarded, raises)
      ensures processor != null ==>
        && processor.stats.payloadsProcessed == old(processor.stats.payloadsProcessed) + |forwarded|
        && processor.stats.totalAircraft == old(processor.stats.totalAircraft) + TotalRecords(forwarded)
        && processor.stats.filteredAircraft ==
             old(processor.stats.filteredAircraft) + AdmittedTotal(old(processor.filters), forwarded)
        && processor.stats.groundFiltered ==
             old(processor.stats.groundFiltered) + VerdictTotal(old(processor.filters), forwarded, OnGround)
        && processor.stats.lowAltitudeFiltered ==
             old(processor.stats.lowAltitudeFiltered) + VerdictTotal(old(processor.filters), forwarded, TooLow)
    {
      var frames, remaining := ExtractFrames(buffer);
      buffer := remaining;
      forwarded := [];
      calls := [];
      var k := 0;
      while k < |frames|
        invariant 0 <= k <= |frames|
        invariant buffer == remaining && connected == old(connected)
        invariant forwarded == if processor == null then [] else Forwarded(frames[..k], gunzip, parseJson)
        invariant processor == null ==> calls == []
        invariant processor != null ==>
          && processor.Valid()
          && processor.filters == old(processor.filters)
          && processor.callbacks == old(processor.callbacks)
          && processor.stats == StatsAfter(old(processor.stats), old(processor.filters), forwarded)
          && calls == CallsAfter(old(processor.callbacks), old(processor.filters), forwarded, raises)
      {
        ForwardedStep(frames, k, gunzip, parseJson);
        var frame := frames[k];
        var aircraftData := Decode(frame, gunzip, parseJson);
        if aircraftData.Some? && aircraftData.value != [] && processor != null {
          BatchStep(old(processor.stats), processor.callbacks, processor.filters, forwarded, aircraftData.value, raises);
          var _, made := processor.ProcessAircraftData(aircraftData.value, raises);
          forwarded := forwarded + [aircraftData.value];
          calls := calls + made;
        }
        k := k + 1;
      }
      assert frames[..k] == frames;
      if processor != null {
        StatsAfterCounts(old(processor.stats), old(processor.filters), forwarded);
      }
    }

    /** One chunk from the socket: appended to the buffer, which is then
        processed. */
    method Receive(data: seq<byte>, gunzip: seq<byte> -> Option<seq<byte>>,
                   parseJson: seq<byte> -> Option<seq<Record>>,
                   raises: Callback -> bool)
      returns (forwarded: seq<seq<Record>>, calls: seq<Invocation>)
      requires processor != null ==> processor.Valid()
      modifies this, processor
      ensures buffer == Scan(old(buffer) + data).remainder
      ensures connected == old(connected)
      ensures forwarded == if processor == null then [] else Forwarded(Scan(old(buffer) + data).frames, gunzip, parseJson)
      ensures processor == null ==> calls == []
      ensures processor != null ==>
        && processor.Valid()
        && processor.filters == old(processor.filters)
        && processor.callbacks == old(processor.callbacks)
        && processor.stats == StatsAfter(old(processor.stats), old(processor.filters), forwarded)
        && calls == CallsAfter(old(processor.callbacks), old(processor.filters), forwarded, raises)
    {
      buffer := buffer + data;
      forwarded, calls := ProcessBuffer(gunzip, parseJson, raises);
    }
  }
}
