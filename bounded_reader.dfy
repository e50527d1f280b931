/**
 * `AbstractURLHandler.readTruncated`: copies bytes from a stream until the
 * stream ends or `maxLen` bytes are held, and closes the stream whatever
 * happens. The handler uses it with a limit of 512 bytes to quote the start
 * of an error response body.
 */
module BoundedReader {
  import opened Wrappers
  import opened ByteStreams

  /** `ERROR_BODY_TRUNCATE_LEN`. */
  const ErrorBodyTruncateLen: nat := 512

  /** The result of a bounded read and the position it leaves the stream at. */
  datatype ReadOutcome = ReadOutcome(result: Io<seq<int>>, pos: nat)

  /**
   * What `readTruncated(in, maxLen)` returns. The loop reads the positions
   * `pos .. pos + Min(available, maxLen)`: one byte per copied byte, plus one
   * more read that meets either the end of the stream or the first byte
   * beyond the limit. The first of those reads that throws ends the call with
   * that `IOException`.
   */
  function TruncatedRead(v: StreamView, maxLen: nat): (o: ReadOutcome)
    requires v.pos <= |v.data|
    ensures o.result.IoException? <==>
              exists p :: v.pos <= p <= v.pos + Min(|v.data| - v.pos, maxLen) && FailsAt(v, p)
    ensures o.result.Returned? ==>
              var bytes := o.result.value;
              |bytes| == Min(|v.data| - v.pos, maxLen) && bytes <= v.Remaining()
    ensures o.result.Returned? && |v.data| - v.pos <= maxLen ==> o.result.value == v.Remaining()
    ensures v.pos <= o.pos <= |v.data| && o.pos - v.pos <= maxLen + 1
  {
    var available := |v.data| - v.pos;
    match FirstFailure(v, v.pos, v.pos + Min(available, maxLen))
    case Some(f) => ReadOutcome(IoException, f)
    case None => ReadOutcome(Returned(v.data[v.pos..v.pos + Min(available, maxLen)]),
                             v.pos + Min(available, maxLen + 1))
  }

  /**
   * The source method. The stream is closed on every exit path, as the
   * `finally` block of the source does.
   */
  method ReadTruncated(input: ByteSource, maxLen: nat) returns (r: Io<seq<int>>)
    requires input.Valid()
    modifies input`pos, input`closed
    ensures input.Valid() && input.closed
    ensures ReadOutcome(r, input.pos) == TruncatedRead(old(input.View()), maxLen)
  {
    ghost var v := input.View();
    var os: seq<int> := [];
    var count := 0;
    var b := input.Read();
    if b.IoException? {
      input.Close();
      FailedRead(v, maxLen, 0);
      return IoException;
    }
    var truncated := false;
    while !truncated && b.value >= 0
      invariant input.Valid() && !input.closed && input.data == v.data && input.failAt == v.failAt
      invariant b.Returned? && count == |os| <= maxLen
      invariant v.pos + count <= |v.data| && os == v.data[v.pos..v.pos + count]
      // the last read was made at position v.pos + count and did not throw
      invariant forall p :: v.pos <= p <= v.pos + count ==> !FailsAt(v, p)
      invariant b.value >= 0 ==> v.pos + count < |v.data| && b.value == v.data[v.pos + count] &&
                                 input.pos == v.pos + count + 1
      invariant b.value < 0 ==> v.pos + count == |v.data| && input.pos == v.pos + count
      invariant truncated ==> count == maxLen && b.value >= 0
      decreases maxLen - count, if truncated then 0 else 1
    {
      if count >= maxLen {
        truncated := true;
      } else {
        os := os + [b.value];
        count := count + 1;
        b := input.Read();
        if b.IoException? {
          input.Close();
          FailedRead(v, maxLen, count);
          return IoException;
        }
      }
    }
    input.Close();
    r := Returned(os);
    CompletedRead(v, maxLen, count);
  }

  /** A read that throws after `count` copied bytes ends the call at that position. */
  lemma FailedRead(v: StreamView, maxLen: nat, count: nat)
    requires v.pos + count <= |v.data| && count <= maxLen
    requires forall p :: v.pos <= p < v.pos + count ==> !FailsAt(v, p)
    requires FailsAt(v, v.pos + count)
    ensures TruncatedRead(v, maxLen) == ReadOutcome(IoException, v.pos + count)
  {
  }

  /** The call that copied `count` bytes without a failing read. */
  lemma CompletedRead(v: StreamView, maxLen: nat, count: nat)
    requires v.pos + count <= |v.data| && count == Min(|v.data| - v.pos, maxLen)
    requires forall p :: v.pos <= p <= v.pos + count ==> !FailsAt(v, p)
    ensures TruncatedRead(v, maxLen) ==
              ReadOutcome(Returned(v.data[v.pos..v.pos + count]), v.pos + Min(|v.data| - v.pos, maxLen + 1))
  {
  }

  /** A stream longer than the limit yields exactly `maxLen` bytes, its first ones. */
  lemma LongStreamTruncated(v: StreamView, maxLen: nat)
    requires v.pos <= |v.data| && maxLen <= |v.data| - v.pos
    requires forall p :: v.pos <= p <= v.pos + maxLen ==> !FailsAt(v, p)
    ensures TruncatedRead(v, maxLen).result == Returned(v.data[v.pos..v.pos + maxLen])
  {
  }
}
