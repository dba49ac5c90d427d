/** Bounded capture of one output stream (src/execution_cli.rs). */
module Capture {
  import opened Basics

  /** What one `read` returns: bytes (none at the end of the stream) or an error. */
  datatype Read = Data(bytes: string) | Failed

  datatype CaptureError = ReadFailed | SizeOverflow | LimitExceeded | DrainTimeout | Disconnected

  datatype Outcome = Outcome(bytes: string, error: Option<CaptureError>)

  /** The stream: everything before the first empty or failed read. */
  function Stream(chunks: seq<Read>): string {
    if chunks == [] || chunks[0] == Failed || chunks[0].bytes == "" then ""
    else chunks[0].bytes + Stream(chunks[1..])
  }

  /** Whether the stream ends in a read error. */
  predicate Breaks(chunks: seq<Read>) {
    chunks != [] && (chunks[0] == Failed || (chunks[0].bytes != "" && Breaks(chunks[1..])))
  }

  /** The buffer when the loop stops, having already collected `collected`. */
  function Collect(collected: string, chunks: seq<Read>, max: u64): Outcome
    decreases |chunks|
  {
    if chunks == [] then Outcome(collected, None)
    else if chunks[0] == Failed then Outcome(collected, Some(ReadFailed))
    else if chunks[0].bytes == "" then Outcome(collected, None)
    else if |collected| + |chunks[0].bytes| > U64_MAX then Outcome(collected, Some(SizeOverflow))
    else if |collected| + |chunks[0].bytes| > max then Outcome(collected, Some(LimitExceeded))
    else Collect(collected + chunks[0].bytes, chunks[1..], max)
  }

  /** `capture_stream`. */
  method CaptureStream(chunks: seq<Read>, max: u64) returns (o: Outcome)
    ensures o == Collect("", chunks, max)
  {
    var bytes := "";
    var index := 0;
    while index < |chunks|
      invariant 0 <= index <= |chunks|
      invariant Collect("", chunks, max) == Collect(bytes, chunks[index..], max)
    {
      assert chunks[index..][1..] == chunks[index + 1..];
      match chunks[index] {
        case Failed =>
          return Outcome(bytes, Some(ReadFailed));
        case Data(chunk) =>
          if chunk == "" {
            break;
          }
          var next := |bytes| + |chunk|;
          if next > U64_MAX {
            return Outcome(bytes, Some(SizeOverflow));
          }
          if next > max {
            return Outcome(bytes, Some(LimitExceeded));
          }
          bytes := bytes + chunk;
      }
      index := index + 1;
    }
    return Outcome(bytes, None);
  }

  /** However the stream is split into chunks: the capture has no error exactly when the stream
      ends without one and fits the limit, and then it is the whole stream; in every case what is
      returned is a prefix of the stream within the limit. */
  lemma {:induction false} CollectIff(collected: string, chunks: seq<Read>, max: u64)
    requires |collected| <= max
    ensures var o := Collect(collected, chunks, max);
            var whole := collected + Stream(chunks);
            && (o.error.None? <==> !Breaks(chunks) && |whole| <= max)
            && (o.error.None? ==> o.bytes == whole)
            && o.bytes <= whole && |o.bytes| <= max
    decreases |chunks|
  {
    if chunks == [] || chunks[0] == Failed || chunks[0].bytes == "" {
      assert collected + Stream(chunks) == collected;
    } else {
      var chunk := chunks[0].bytes;
      assert (collected + chunk) + Stream(chunks[1..]) == collected + Stream(chunks);
      if |collected| + |chunk| <= max {
        CollectIff(collected + chunk, chunks[1..], max);
      }
    }
  }

  lemma CaptureIff(chunks: seq<Read>, max: u64)
    ensures var o := Collect("", chunks, max);
            && (o.error.None? <==> !Breaks(chunks) && |Stream(chunks)| <= max)
            && (o.error.None? ==> o.bytes == Stream(chunks))
            && o.bytes <= Stream(chunks) && |o.bytes| <= max
  {
    CollectIff("", chunks, max);
    assert "" + Stream(chunks) == Stream(chunks);
  }

  /** The bytes are the whole chunks before the n-th, which would have passed the limit. */
  ghost predicate CutAt(collected: string, chunks: seq<Read>, max: u64, bytes: string, n: nat) {
    && n < |chunks| && chunks[n].Data? && bytes == collected + Stream(chunks[..n])
    && |bytes| + |chunks[n].bytes| > max
  }

  /** What is kept when a capture fails: after a read error everything read before it, and past the
      limit all chunks before the one that would pass it. */
  lemma {:induction false} CollectKeeps(collected: string, chunks: seq<Read>, max: u64)
    requires |collected| <= max
    ensures var o := Collect(collected, chunks, max);
            var whole := collected + Stream(chunks);
            && (o.error == Some(ReadFailed) <==> Breaks(chunks) && |whole| <= max)
            && (o.error == Some(ReadFailed) ==> o.bytes == whole)
            && (o.error == Some(LimitExceeded) || o.error == Some(SizeOverflow) <==> |whole| > max)
            && (o.error == Some(SizeOverflow) ==> |whole| > U64_MAX)
            && (|whole| > max ==> exists n: nat :: CutAt(collected, chunks, max, o.bytes, n))
    decreases |chunks|
  {
    if chunks == [] || chunks[0] == Failed || chunks[0].bytes == "" {
      assert collected + Stream(chunks) == collected;
    } else {
      var chunk, rest := chunks[0].bytes, chunks[1..];
      assert (collected + chunk) + Stream(rest) == collected + Stream(chunks);
      if |collected| + |chunk| <= max {
        CollectKeeps(collected + chunk, rest, max);
        var o := Collect(collected, chunks, max);
        if n: nat :| CutAt(collected + chunk, rest, max, o.bytes, n) {
          assert chunks[..n + 1] == [chunks[0]] + rest[..n];
          assert (collected + chunk) + Stream(rest[..n]) == collected + Stream(chunks[..n + 1]);
          assert CutAt(collected, chunks, max, o.bytes, n + 1);
        }
      } else {
        assert collected + Stream(chunks[..0]) == collected;
        assert CutAt(collected, chunks, max, collected, 0);
      }
    }
  }

  lemma CaptureKeeps(chunks: seq<Read>, max: u64)
    ensures var o := Collect("", chunks, max);
            && (o.error == Some(ReadFailed) <==> Breaks(chunks) && |Stream(chunks)| <= max)
            && (o.error == Some(ReadFailed) ==> o.bytes == Stream(chunks))
            && (o.error == Some(LimitExceeded) || o.error == Some(SizeOverflow) <==> |Stream(chunks)| > max)
            && (|Stream(chunks)| > max ==> exists n: nat :: CutAt("", chunks, max, o.bytes, n))
  {
    CollectKeeps("", chunks, max);
    assert "" + Stream(chunks) == Stream(chunks);
  }

  /** The verdict does not depend on how the stream was split into chunks. */
  lemma ChunkingIrrelevant(a: seq<Read>, b: seq<Read>, max: u64)
    requires Stream(a) == Stream(b) && !Breaks(a) && !Breaks(b)
    ensures Collect("", a, max).error.None? <==> Collect("", b, max).error.None?
    ensures Collect("", a, max).error.None? ==> Collect("", a, max) == Collect("", b, max)
  {
    CaptureIff(a, max);
    CaptureIff(b, max);
  }
}
