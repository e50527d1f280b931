/**
 * The byte input streams the URL handler reads: `InputStream.read()`,
 * `read(byte[])`, `close()`, and the `mark`/`reset` pair of the
 * `BufferedInputStream` it wraps a stream in.
 *
 * A stream holds a fixed sequence of bytes and a read position. An
 * `IOException` is modelled by `failAt`: a read at that position throws, and
 * so does every read of a closed stream.
 */
module ByteStreams {
  import opened Wrappers

  const EndOfStream: int := -1

  predicate IsByte(b: int) { 0 <= b < 256 }

  /** The value a stream call returns, or the `IOException` it throws. */
  datatype Io<+T> = Returned(value: T) | IoException

  /** Everything about a stream that decides what its reads return. */
  datatype StreamView = StreamView(data: seq<int>, pos: nat, closed: bool, failAt: Option<nat>)
  {
    ghost predicate Valid()
    {
      pos <= |data| && forall i :: 0 <= i < |data| ==> IsByte(data[i])
    }

    /** The bytes not read yet. */
    function Remaining(): seq<int>
      requires pos <= |data|
    {
      data[pos..]
    }
  }

  /** A read at position `p` throws. */
  predicate FailsAt(v: StreamView, p: nat)
  {
    v.closed || v.failAt == Some(p)
  }

  /**
   * The first position in `lo..hi` at which a read throws, when reads are made
   * at every one of those positions in order.
   */
  function FirstFailure(v: StreamView, lo: nat, hi: nat): (f: Option<nat>)
    requires lo <= hi
    ensures f.Some? <==> exists p :: lo <= p <= hi && FailsAt(v, p)
    ensures f.Some? ==> lo <= f.value <= hi && FailsAt(v, f.value) &&
                        forall p :: lo <= p < f.value ==> !FailsAt(v, p)
  {
    if v.closed then assert FailsAt(v, lo); Some(lo)
    else if v.failAt.Some? && lo <= v.failAt.value <= hi then assert FailsAt(v, v.failAt.value); v.failAt
    else None
  }

  function Min(a: int, b: int): int { if a <= b then a else b }

  class ByteSource {
    const data: seq<int>
    const failAt: Option<nat>
    var pos: nat
    var closed: bool
    /** The position saved by `mark`, if any. */
    var mark: Option<nat>

    ghost predicate Valid()
      reads this
    {
      View().Valid() && (mark.Some? ==> mark.value <= pos)
    }

    function View(): StreamView
      reads this
    {
      StreamView(data, pos, closed, failAt)
    }

    constructor (data: seq<int>, failAt: Option<nat>)
      requires forall i :: 0 <= i < |data| ==> IsByte(data[i])
      ensures Valid()
      ensures this.data == data && this.failAt == failAt
      ensures pos == 0 && !closed && mark == None
    {
      this.data := data;
      this.failAt := failAt;
      pos := 0;
      closed := false;
      mark := None;
    }

    /** `read()`: the next byte, advancing; -1 at the end; or an `IOException`. */
    method Read() returns (r: Io<int>)
      requires Valid()
      modifies this`pos
      ensures Valid()
      ensures FailsAt(old(View()), old(pos)) ==> r == IoException && pos == old(pos)
      ensures !FailsAt(old(View()), old(pos)) && old(pos) < |data| ==>
                r == Returned(data[old(pos)]) && pos == old(pos) + 1
      ensures !FailsAt(old(View()), old(pos)) && old(pos) == |data| ==>
                r == Returned(EndOfStream) && pos == old(pos)
    {
      if closed || failAt == Some(pos) {
        r := IoException;
      } else if pos < |data| {
        r := Returned(data[pos]);
        pos := pos + 1;
      } else {
        r := Returned(EndOfStream);
      }
    }

    /** `close()`; a failure while closing is not modelled. */
    method Close()
      requires Valid()
      modifies this`closed
      ensures Valid() && closed
    {
      closed := true;
    }

    /** `mark(readLimit)`: remembers the position; the limit is not modelled. */
    method Mark(readLimit: nat)
      requires Valid()
      modifies this`mark
      ensures Valid() && mark == Some(pos)
    {
      mark := Some(pos);
    }

    /** `reset()`: back to the marked position; throws without a mark or when closed. */
    method Reset() returns (r: Io<()>)
      requires Valid()
      modifies this`pos
      ensures Valid()
      ensures r.Returned? <==> !closed && mark.Some?
      ensures pos == if r.Returned? then mark.value else old(pos)
    {
      if closed || mark.None? {
        r := IoException;
      } else {
        pos := mark.value;
        r := Returned(());
      }
    }

    /**
     * `read(buffer)` with a buffer of `size` bytes: the bytes read and their
     * number, which is -1 when the stream is at its end and nothing was read.
     * The bytes are read one at a time.
     */
    method ReadBlock(size: nat) returns (r: Io<(int, seq<int>)>)
      requires Valid()
      modifies this`pos
      ensures Valid()
      ensures (r, pos) == BlockRead(old(View()), size)
    {
      ghost var start := pos;
      var bytes: seq<int> := [];
      var atEnd := false;
      while |bytes| < size && !atEnd
        invariant Valid()
        invariant start <= pos <= |data| && pos == start + |bytes| <= start + size
        invariant bytes == data[start..pos]
        invariant atEnd ==> pos == |data| && |bytes| < size
        // no read made so far has thrown
        invariant |bytes| > 0 || atEnd ==>
                    FirstFailure(old(View()), start, start + |bytes| + (if atEnd then 0 else -1)) == None
        decreases size - |bytes|, if atEnd then 0 else 1
      {
        var b := Read();
        if b.IoException? {
          return IoException;
        }
        if b.value < 0 {
          atEnd := true;
        } else {
          bytes := bytes + [b.value];
        }
      }
      var count := if |bytes| == 0 && atEnd then EndOfStream else |bytes|;
      r := Returned((count, bytes));
    }
  }

  /**
   * What `read(buffer)` on a buffer of `size` bytes returns and where it
   * leaves the stream: up to `size` bytes, and -1 for the count when the
   * stream is exhausted before the first byte.
   */
  function BlockRead(v: StreamView, size: nat): (o: (Io<(int, seq<int>)>, nat))
    requires v.pos <= |v.data|
    ensures v.pos <= o.1 <= |v.data| && o.1 <= v.pos + size
    ensures o.0.Returned? ==>
              var (count, bytes) := o.0.value;
              bytes == v.data[v.pos..o.1] && |bytes| == Min(|v.data| - v.pos, size) &&
              count == (if size > 0 && v.pos == |v.data| then EndOfStream else |bytes|)
  {
    var n := Min(|v.data| - v.pos, size);
    if size == 0 then (Returned((0, [])), v.pos)
    else
      var last := if n < size then v.pos + n else v.pos + n - 1;
      match FirstFailure(v, v.pos, last)
      case Some(f) => (IoException, f)
      case None =>
        (Returned((if n == 0 then EndOfStream else n, v.data[v.pos..v.pos + n])), v.pos + n)
  }
}
