/**
 * The first step of a marker-byte binary decoder (PackStream, the value
 * encoding of a graph-database wire protocol). `Unpack` looks at the marker
 * byte that starts the buffer and decodes a boolean: 0xC2 is `false`, 0xC3 is
 * `true`. The Rust `unpack` panics in its two failure cases (an empty
 * buffer, an unknown marker); here each panic is an explicit `Err` outcome,
 * so the verifier can reason about every input.
 */
module PackStream {

  /** An unsigned 8-bit byte, as the buffer's element type. */
  newtype u8 = x: int | 0 <= x < 0x100

  /** Marker byte of the boolean `false`. */
  const FalseMarker: u8 := 0xC2

  /** Marker byte of the boolean `true`. */
  const TrueMarker: u8 := 0xC3

  /** Why a decode fails (in the Rust code, why it panics). */
  datatype Failure =
    | IndexOutOfBounds          // the buffer has no byte 0 to read
    | UnknownHeader(marker: u8) // byte 0 is not a marker this decoder knows

  datatype Result<+T> = Ok(value: T) | Err(failure: Failure)

  /** The markers the decoder accepts. */
  predicate IsBooleanMarker(m: u8) {
    m == FalseMarker || m == TrueMarker
  }

  /**
   * Decodes the boolean whose marker is the first byte of `bytes`; nothing
   * after the first byte is read.
   */
  function Unpack(bytes: seq<u8>): (r: Result<bool>)
    ensures r.Ok? <==> |bytes| > 0 && IsBooleanMarker(bytes[0])
    ensures r.Ok? ==> (r.value <==> bytes[0] == TrueMarker)
    ensures r.Err? ==> r.failure == if |bytes| == 0 then IndexOutOfBounds else UnknownHeader(bytes[0])
  {
    if |bytes| == 0 then
      Err(IndexOutOfBounds)
    else if bytes[0] == FalseMarker then
      Ok(false)
    else if bytes[0] == TrueMarker then
      Ok(true)
    else
      Err(UnknownHeader(bytes[0]))
  }

  /** The marker that encodes `value`: the reference table `Unpack` inverts. */
  function MarkerOf(value: bool): (m: u8)
    ensures IsBooleanMarker(m)
    ensures Unpack([m]) == Ok(value)
  {
    if value then TrueMarker else FalseMarker
  }

  // ---------------------------------------------------------------------
  // The individual outcomes

  /** A buffer that starts with 0xC2 decodes to `false`, whatever follows. */
  lemma UnpacksFalse(rest: seq<u8>)
    ensures Unpack([FalseMarker] + rest) == Ok(false)
  {
  }

  /** A buffer that starts with 0xC3 decodes to `true`, whatever follows. */
  lemma UnpacksTrue(rest: seq<u8>)
    ensures Unpack([TrueMarker] + rest) == Ok(true)
  {
  }

  /** Any other first byte is rejected, carrying that byte, and never yields a boolean. */
  lemma UnknownMarkerRejected(bytes: seq<u8>)
    requires |bytes| > 0 && !IsBooleanMarker(bytes[0])
    ensures Unpack(bytes) == Err(UnknownHeader(bytes[0]))
    ensures forall v: bool :: Unpack(bytes) != Ok(v)
  {
  }

  /** An empty buffer is rejected: there is no byte 0 to read. */
  lemma EmptyInputRejected(bytes: seq<u8>)
    requires |bytes| == 0
    ensures Unpack(bytes) == Err(IndexOutOfBounds)
  {
  }

  // ---------------------------------------------------------------------
  // Relations between inputs and outputs

  /** Only the first byte matters: trailing bytes never change the outcome. */
  lemma TrailingBytesIgnored(prefix: seq<u8>, rest: seq<u8>)
    requires |prefix| > 0
    ensures Unpack(prefix + rest) == Unpack(prefix)
    ensures Unpack(prefix + rest) == Unpack(prefix[..1])
  {
  }

  /**
   * `Unpack` succeeds with `value` exactly when the buffer starts with the
   * marker that encodes `value`.
   */
  lemma UnpackInvertsMarkerOf(bytes: seq<u8>, value: bool)
    ensures Unpack(bytes) == Ok(value) <==> |bytes| > 0 && bytes[0] == MarkerOf(value)
  {
  }

  /**
   * On accepted buffers the decoded value determines the marker: two buffers
   * decode to the same boolean if and only if they start with the same byte.
   */
  lemma AcceptedMarkersDecodeDistinctly(a: seq<u8>, b: seq<u8>)
    requires Unpack(a).Ok? && Unpack(b).Ok?
    ensures Unpack(a) == Unpack(b) <==> a[0] == b[0]
  {
  }

  // ---------------------------------------------------------------------
  // Over the whole byte range

  /** The marker bytes a one-byte buffer is decoded from successfully. */
  ghost function AcceptedMarkers(): set<u8> {
    set m: u8 | Unpack([m]).Ok?
  }

  /** The marker bytes a one-byte buffer is rejected for. */
  ghost function RejectedMarkers(): set<u8> {
    set m: u8 | Unpack([m]).Err?
  }

  /** The byte values below `hi`. */
  predicate Below(m: u8, hi: int) {
    m as int < hi
  }

  /** Every byte value, 0x00 to 0xFF. */
  ghost function AllBytes(): set<u8> {
    set m: u8 | Below(m, 0x100)
  }

  /**
   * A fact about `u8` alone, not about decoding: exactly `hi` byte values lie
   * below `hi`. `MarkerCensus` uses it to turn its set equalities into counts.
   */
  lemma {:induction false} ByteRangeSize(hi: int)
    requires 0 <= hi <= 0x100
    ensures |set m: u8 | Below(m, hi)| == hi
  {
    if hi > 0 {
      var top := hi - 1;
      ByteRangeSize(top);
      assert (set m: u8 | Below(m, hi)) == (set m: u8 | Below(m, top)) + {top as u8};
    } else {
      assert (set m: u8 | Below(m, hi)) == {};
    }
  }

  /**
   * Of the 256 possible marker bytes exactly two are accepted, 0xC2 and
   * 0xC3; the other 254 are all rejected.
   */
  lemma {:induction false} MarkerCensus()
    ensures AcceptedMarkers() == {FalseMarker, TrueMarker}
    ensures |AcceptedMarkers()| == 2
    ensures RejectedMarkers() == AllBytes() - {FalseMarker, TrueMarker}
    ensures |RejectedMarkers()| == 254
  {
    ByteRangeSize(0x100);
    assert AcceptedMarkers() == {FalseMarker, TrueMarker} by {
      forall m: u8 | m in AcceptedMarkers() ensures m in {FalseMarker, TrueMarker} {
        assert Unpack([m]).Ok?;
      }
    }
    assert RejectedMarkers() == AllBytes() - AcceptedMarkers();
  }
}
