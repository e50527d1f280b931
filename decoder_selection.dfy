/**
 * `AbstractURLHandler.getDecodingInputStream`: picks the decompressing
 * stream for a Content-Encoding token. `gzip` and `x-gzip` select the gzip
 * format of RFC 1952; `deflate` is ambiguous between the zlib format of RFC
 * 1950 and the raw deflate data of RFC 1951, so the first 100 bytes are read
 * after a mark, the stream is reset to the mark, and a trial zlib inflate of
 * those bytes decides; any other token, and a missing header, leave the
 * stream as it is. The match on the token is exact and case-sensitive.
 *
 * The trial inflate is a parameter `zlibProbeOk`: true when
 * `Inflater.inflate` accepts the probe bytes, false when it throws a
 * `DataFormatException`. The decompressors themselves are not modelled; a
 * `Decoder` says which one is built and over which stream.
 */
module DecoderSelection {
  import opened Wrappers
  import opened ByteStreams

  /** The bytes read to tell the two deflate variants apart. */
  const ProbeSize: nat := 100

  datatype DecoderKind =
    | Gzip        // GZIPInputStream
    | Zlib        // InflaterInputStream with a default Inflater
    | RawDeflate  // InflaterInputStream with new Inflater(true)
    | Identity    // the input stream itself

  datatype Decoder = Decoder(kind: DecoderKind, source: ByteSource)

  datatype SelectError =
    | ReadFailed       // an IOException from read or reset
    | ProbeOutOfBounds // Inflater.setInput rejects a negative length

  predicate IsGzipToken(encoding: Option<string>)
  {
    encoding == Some("gzip") || encoding == Some("x-gzip")
  }

  predicate IsDeflateToken(encoding: Option<string>)
  {
    encoding == Some("deflate")
  }

  /** The variant the trial inflate points to. */
  function DeflateVariant(probe: seq<int>, zlibProbeOk: seq<int> -> bool): (k: DecoderKind)
    ensures k == Zlib <==> zlibProbeOk(probe)
    ensures k == RawDeflate <==> !zlibProbeOk(probe)
  {
    if zlibProbeOk(probe) then Zlib else RawDeflate
  }

  /**
   * The decoder `getDecodingInputStream` chooses, as the source is written.
   * For `deflate` the count returned by `read(bytes)` goes to
   * `inflater.setInput(bytes, 0, nbBytes)` unchecked, so an empty body
   * (count -1) makes `setInput` throw.
   */
  function SelectedDecoder(encoding: Option<string>, v: StreamView, zlibProbeOk: seq<int> -> bool)
    : (r: Result<DecoderKind, SelectError>)
    requires v.pos <= |v.data|
    ensures IsGzipToken(encoding) ==> r == Ok(Gzip)
    ensures !IsGzipToken(encoding) && !IsDeflateToken(encoding) ==> r == Ok(Identity)
    ensures IsDeflateToken(encoding) && r.Ok? ==> r.value in {Zlib, RawDeflate}
  {
    if IsGzipToken(encoding) then Ok(Gzip)
    else if IsDeflateToken(encoding) then
      match BlockRead(v, ProbeSize).0
      case IoException => Err(ReadFailed)
      case Returned((count, bytes)) =>
        if count < 0 then Err(ProbeOutOfBounds)
        else Ok(DeflateVariant(bytes[..count], zlibProbeOk))
    else Ok(Identity)
  }

  /**
   * The selection with the evident intent restored: a probe that meets the
   * end of the stream at once is an empty probe, as a count of 0 would be.
   */
  function SelectedDecoderFixed(encoding: Option<string>, v: StreamView, zlibProbeOk: seq<int> -> bool)
    : (r: Result<DecoderKind, SelectError>)
    requires v.pos <= |v.data|
    ensures IsGzipToken(encoding) ==> r == Ok(Gzip)
    ensures !IsGzipToken(encoding) && !IsDeflateToken(encoding) ==> r == Ok(Identity)
    ensures IsDeflateToken(encoding) ==>
              (r.Err? <==> BlockRead(v, ProbeSize).0.IoException?) &&
              (r.Ok? ==> r.value in {Zlib, RawDeflate})
  {
    if IsGzipToken(encoding) then Ok(Gzip)
    else if IsDeflateToken(encoding) then
      match BlockRead(v, ProbeSize).0
      case IoException => Err(ReadFailed)
      case Returned((count, bytes)) =>
        Ok(DeflateVariant(if count < 0 then [] else bytes[..count], zlibProbeOk))
    else Ok(Identity)
  }

  /**
   * The `deflate` branch: mark, read up to `ProbeSize` bytes, reset. On
   * success the stream is back at the mark and `probe` holds the bytes read
   * next to it (`count` is -1 when there were none).
   */
  method ProbeDeflate(input: ByteSource) returns (r: Io<(int, seq<int>)>)
    requires input.Valid()
    modifies input`pos, input`mark
    ensures input.Valid()
    ensures input.mark == Some(old(input.pos))
    ensures r == BlockRead(old(input.View()), ProbeSize).0
    ensures r.Returned? ==> input.pos == old(input.pos)
  {
    input.Mark(ProbeSize);
    r := input.ReadBlock(ProbeSize);
    if r.Returned? {
      // a successful read means the stream is open, so reset() returns
      var reset := input.Reset();
    }
  }

  /**
   * `getDecodingInputStream(encoding, in)` as written. The chosen decoder
   * reads the stream from where it stood before the call.
   */
  method GetDecodingInputStream(encoding: Option<string>, input: ByteSource, zlibProbeOk: seq<int> -> bool)
    returns (r: Result<Decoder, SelectError>)
    requires input.Valid()
    modifies input`pos, input`mark
    ensures input.Valid()
    ensures r.Ok? ==> r.value.source == input && input.pos == old(input.pos)
    ensures (match r case Ok(d) => Ok(d.kind) case Err(e) => Err(e))
            == SelectedDecoder(encoding, old(input.View()), zlibProbeOk)
    ensures !IsDeflateToken(encoding) ==> input.mark == old(input.mark)
  {
    if IsGzipToken(encoding) {
      r := Ok(Decoder(Gzip, input));
    } else if IsDeflateToken(encoding) {
      var probe := ProbeDeflate(input);
      if probe.IoException? {
        r := Err(ReadFailed);
      } else {
        var (count, bytes) := probe.value;
        if count < 0 {
          r := Err(ProbeOutOfBounds);
        } else {
          r := Ok(Decoder(DeflateVariant(bytes[..count], zlibProbeOk), input));
        }
      }
    } else {
      r := Ok(Decoder(Identity, input));
    }
  }

  /** The selection with an empty `deflate` body handled as an empty probe. */
  method GetDecodingInputStreamFixed(encoding: Option<string>, input: ByteSource, zlibProbeOk: seq<int> -> bool)
    returns (r: Result<Decoder, SelectError>)
    requires input.Valid()
    modifies input`pos, input`mark
    ensures input.Valid()
    ensures r.Ok? ==> r.value.source == input && input.pos == old(input.pos)
    ensures (match r case Ok(d) => Ok(d.kind) case Err(e) => Err(e))
            == SelectedDecoderFixed(encoding, old(input.View()), zlibProbeOk)
    ensures !IsDeflateToken(encoding) ==> input.mark == old(input.mark)
  {
    if IsGzipToken(encoding) {
      r := Ok(Decoder(Gzip, input));
    } else if IsDeflateToken(encoding) {
      var probe := ProbeDeflate(input);
      if probe.IoException? {
        r := Err(ReadFailed);
      } else {
        var (count, bytes) := probe.value;
        var probed := if count < 0 then [] else bytes[..count];
        r := Ok(Decoder(DeflateVariant(probed, zlibProbeOk), input));
      }
    } else {
      r := Ok(Decoder(Identity, input));
    }
  }

  /** The probe never reads past `ProbeSize` bytes. */
  lemma ProbeIsBounded(v: StreamView)
    requires v.pos <= |v.data|
    ensures BlockRead(v, ProbeSize).1 <= v.pos + ProbeSize
    ensures BlockRead(v, ProbeSize).0.Returned? ==>
              BlockRead(v, ProbeSize).0.value.1 == v.data[v.pos..v.pos + Min(|v.data| - v.pos, ProbeSize)]
  {
  }

  /**
   * For `deflate` over a body with at least one byte, zlib is chosen exactly
   * when the trial inflate of the first bytes (at most `ProbeSize` of them)
   * succeeds, and raw deflate exactly when it fails.
   */
  lemma DeflateChoosesByProbe(v: StreamView, zlibProbeOk: seq<int> -> bool)
    requires v.pos < |v.data|
    requires forall p :: v.pos <= p < v.pos + Min(|v.data| - v.pos, ProbeSize) ==> !FailsAt(v, p)
    requires |v.data| - v.pos < ProbeSize ==> !FailsAt(v, |v.data|)
    ensures var probe := v.data[v.pos..v.pos + Min(|v.data| - v.pos, ProbeSize)];
            SelectedDecoder(Some("deflate"), v, zlibProbeOk) ==
              if zlibProbeOk(probe) then Ok(Zlib) else Ok(RawDeflate)
  {
    var n := Min(|v.data| - v.pos, ProbeSize);
    var last := if n < ProbeSize then v.pos + n else v.pos + n - 1;
    assert FirstFailure(v, v.pos, last) == None;
    var probe := v.data[v.pos..v.pos + n];
    assert BlockRead(v, ProbeSize).0 == Returned((n, probe));
    assert probe[..n] == probe;
  }

  /** Header values match exactly: another casing of `gzip` leaves the stream alone. */
  lemma TokenIsCaseSensitive(v: StreamView, zlibProbeOk: seq<int> -> bool)
    requires v.pos <= |v.data|
    ensures SelectedDecoder(Some("GZIP"), v, zlibProbeOk) == Ok(Identity)
    ensures SelectedDecoder(Some("Deflate"), v, zlibProbeOk) == Ok(Identity)
    ensures SelectedDecoder(None, v, zlibProbeOk) == Ok(Identity)
  {
    assert "GZIP" != "gzip" && "GZIP" != "x-gzip" by { assert "GZIP"[0] != "gzip"[0]; }
    assert "Deflate" != "deflate" by { assert "Deflate"[0] != "deflate"[0]; }
  }

  /**
   * As written, `deflate` over an empty body fails: `read` returns -1 and
   * `setInput(bytes, 0, -1)` throws. The fixed selection picks a decoder.
   */
  lemma EmptyDeflateBodyRejected(v: StreamView, zlibProbeOk: seq<int> -> bool)
    requires v.pos == |v.data| && !FailsAt(v, v.pos)
    ensures SelectedDecoder(Some("deflate"), v, zlibProbeOk) == Err(ProbeOutOfBounds)
    ensures SelectedDecoderFixed(Some("deflate"), v, zlibProbeOk) == Ok(DeflateVariant([], zlibProbeOk))
  {
    assert FirstFailure(v, v.pos, v.pos) == None;
  }

  /** Apart from the empty body, the fixed selection is the one written. */
  lemma FixedAgreesOnNonEmptyBodies(encoding: Option<string>, v: StreamView, zlibProbeOk: seq<int> -> bool)
    requires v.pos < |v.data|
    ensures SelectedDecoderFixed(encoding, v, zlibProbeOk) == SelectedDecoder(encoding, v, zlibProbeOk)
  {
  }

  /** With the fix, `deflate` yields a decoder whenever the probe read succeeds. */
  lemma FixedDeflateAlwaysDecodes(v: StreamView, zlibProbeOk: seq<int> -> bool)
    requires v.pos <= |v.data| && BlockRead(v, ProbeSize).0.Returned?
    ensures SelectedDecoderFixed(Some("deflate"), v, zlibProbeOk).Ok?
  {
  }
}
