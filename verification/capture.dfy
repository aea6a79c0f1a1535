/**
 * The capture loop on the secondary backend's connection.  The connection
 * is abstracted as the sequence of outcomes its successive reads return;
 * once the sequence is exhausted every further read fails (end of stream).
 * A read that times out after its one-second deadline is simply an `Err`.
 */
module Capture {

  /** The outcome of one read: bytes read, or an error with any bytes it returned. */
  datatype ReadResult = Ok(chunk: string) | Err(partial: string)

  /** A read that ends the loop: an error, or a read of zero bytes. */
  predicate Stops(r: ReadResult) {
    r.Err? || |r.chunk| == 0
  }

  /** The outcome of read number `i`; past the end of the script, end of stream. */
  function ReadAt(stream: seq<ReadResult>, i: nat): ReadResult {
    if i < |stream| then stream[i] else Err("")
  }

  /** The position of the first read that ends the loop, or `|stream|` when none does. */
  function FirstStop(stream: seq<ReadResult>): (k: nat)
    ensures k <= |stream|
    ensures k < |stream| ==> Stops(stream[k])
    ensures forall j :: 0 <= j < k ==> !Stops(stream[j])
  {
    if |stream| == 0 || Stops(stream[0]) then 0
    else 1 + FirstStop(stream[1..])
  }

  /** The bytes that successful reads returned, in order. */
  function Chunks(rs: seq<ReadResult>): string {
    if |rs| == 0 then ""
    else (if rs[0].Ok? then rs[0].chunk else "") + Chunks(rs[1..])
  }

  /** What the secondary capture buffer holds once the loop has ended. */
  function Captured(stream: seq<ReadResult>): string {
    Chunks(stream[..FirstStop(stream)])
  }

  lemma {:induction false} ChunksAppend(rs: seq<ReadResult>, r: ReadResult)
    ensures Chunks(rs + [r]) == Chunks(rs) + (if r.Ok? then r.chunk else "")
    decreases |rs|
  {
    if |rs| == 0 {
      assert rs + [r] == [r];
    } else {
      assert (rs + [r])[0] == rs[0] && (rs + [r])[1..] == rs[1..] + [r];
      ChunksAppend(rs[1..], r);
    }
  }

  /**
   * The secondary read loop: appends each chunk to the buffer until a read
   * fails (its bytes are dropped) or returns zero bytes.  `calls` is the
   * number of reads made, the last of them the one that ended the loop.
   */
  method CaptureSecondary(stream: seq<ReadResult>) returns (buffer: string, calls: nat)
    ensures buffer == Captured(stream)
    ensures calls == FirstStop(stream) + 1
  {
    buffer := "";
    calls := 0;
    while true
      invariant calls <= |stream|
      invariant forall j :: 0 <= j < calls ==> !Stops(stream[j])
      invariant buffer == Chunks(stream[..calls])
      decreases |stream| - calls
    {
      var r := ReadAt(stream, calls);
      if r.Err? {
        break;
      }
      ChunksAppend(stream[..calls], r);
      assert stream[..calls + 1] == stream[..calls] + [r];
      buffer := buffer + r.chunk;
      if |r.chunk| == 0 {
        break;
      }
      calls := calls + 1;
    }
    calls := calls + 1;
  }

  /**
   * The buffer does not depend on the read that ends the loop (the bytes
   * an erroring read returned are dropped) nor on anything after it.
   */
  lemma {:induction false} CapturedUpToStop(before: seq<ReadResult>, stop: ReadResult, after: seq<ReadResult>)
    requires forall j :: 0 <= j < |before| ==> !Stops(before[j])
    requires Stops(stop)
    ensures Captured(before + [stop] + after) == Chunks(before)
  {
    var s := before + [stop] + after;
    FirstStopAt(s, |before|);
    assert s[..|before|] == before;
  }

  /** When the script runs out without a stopping read, the buffer holds every chunk. */
  lemma CapturedToEnd(stream: seq<ReadResult>)
    requires forall j :: 0 <= j < |stream| ==> !Stops(stream[j])
    ensures Captured(stream) == Chunks(stream)
  {
    FirstStopAt(stream, |stream|);
    assert stream[..|stream|] == stream;
  }

  /** `FirstStop` is determined by where the first stopping read is. */
  lemma FirstStopAt(stream: seq<ReadResult>, k: nat)
    requires k <= |stream|
    requires forall j :: 0 <= j < k ==> !Stops(stream[j])
    requires k < |stream| ==> Stops(stream[k])
    ensures FirstStop(stream) == k
  {
  }
}
