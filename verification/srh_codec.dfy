/** The Segment Routing Header codec of the Go control plane (`Srv6Layer`):
    byte-level decode and encode of the header of section 2 of RFC 8754,
    an 8-octet fixed part followed by 16-octet segments. */
module SrhCodec {
  import opened Bytes
  import opened Wrappers

  /** `Srv6Layer`: the fixed fields, the decoded segment list (in wire order)
      and the two slices of the embedded gopacket `BaseLayer`. */
  datatype Srv6Layer = Srv6Layer(
    nextHeader: Byte,
    hdrExtLen: Byte,
    routingType: Byte,
    segmentsLeft: Byte,
    lastEntry: Byte,
    flags: Byte,
    tag: U16,
    segments: seq<Addr16>,
    contents: seq<Byte>,
    payload: seq<Byte>)

  /** A freshly allocated layer, as `decodeSrv6Layer` creates before decoding. */
  const Fresh: Srv6Layer := Srv6Layer(0, 0, 0, 0, 0, 0, 0, [], [], [])

  /** Octets of the fixed part of the header. */
  const FixedLen: nat := 8

  /** `Truncated`: the error return for fewer than 8 octets.
      `IndexOutOfRange`: the Go runtime panic of reading a segment past the
      end of the input. */
  datatype DecodeError = Truncated | IndexOutOfRange

  /** What `DecodeFromBytes` leaves behind: the receiver after the call and
      the error it returned, if any. */
  datatype Decoded = Decoded(layer: Srv6Layer, err: Option<DecodeError>)

  /** The number of segments the decoder reads: `LastEntry+1` computed in
      8-bit arithmetic, so a `LastEntry` of 255 wraps to zero segments. */
  function SegmentCount(lastEntry: Byte): (n: nat)
    ensures n <= 255
    ensures lastEntry < 255 ==> n == lastEntry + 1
    ensures lastEntry == 255 ==> n == 0
  {
    ToU8(lastEntry + 1)
  }

  /** The decoder checks only for the 8-octet fixed part: it stays within
      its input exactly when every segment octet the header announces is
      there, and otherwise panics reading past the end. */
  predicate Decodable(data: seq<Byte>)
  {
    |data| < FixedLen || FixedLen + 16 * SegmentCount(data[4]) <= |data|
  }

  /** Segment j of the input is the 16 octets `[8+16j, 24+16j)`. */
  function SegmentsAt(data: seq<Byte>, count: nat): (segs: seq<Addr16>)
    requires FixedLen + 16 * count <= |data|
    ensures |segs| == count
    ensures forall j | 0 <= j < count :: segs[j] == data[8 + 16 * j..24 + 16 * j]
  {
    seq(count, j requires 0 <= j < count => data[8 + 16 * j..24 + 16 * j])
  }

  /** `Srv6Layer.DecodeFromBytes`: on fewer than 8 octets the receiver is left
      untouched and `Truncated` is reported. Otherwise every fixed field is
      overwritten and the decoded segments are appended to the receiver's
      list. When the input holds every announced segment, `Contents` is the
      fixed part and `Payload` everything after it; when it does not, the
      loop panics at the first segment cut short, with the whole segments
      before it appended and `Contents` and `Payload` not yet set. */
  function DecodeFromBytes(l: Srv6Layer, data: seq<Byte>): (r: Decoded)
    ensures r.err == Some(Truncated) <==> |data| < FixedLen
    ensures r.err == Some(IndexOutOfRange) <==> !Decodable(data)
    ensures |data| < FixedLen ==> r == Decoded(l, Some(Truncated))
    ensures |data| >= FixedLen ==>
      var whole := if Decodable(data) then SegmentCount(data[4]) else (|data| - FixedLen) / 16;
      && r.layer.nextHeader == data[0]
      && r.layer.hdrExtLen == data[1]
      && r.layer.routingType == data[2]
      && r.layer.segmentsLeft == data[3]
      && r.layer.lastEntry == data[4]
      && r.layer.flags == data[5]
      && r.layer.tag == ReadBE16(data, 6)
      && |r.layer.segments| == |l.segments| + whole
      && r.layer.segments[..|l.segments|] == l.segments
      && (forall j | 0 <= j < whole :: r.layer.segments[|l.segments| + j] == data[8 + 16 * j..24 + 16 * j])
    ensures |data| >= FixedLen && Decodable(data) ==>
      r.err == None && r.layer.contents == data[..FixedLen] && r.layer.payload == data[FixedLen..]
    ensures !Decodable(data) ==>
      && (|data| - FixedLen) / 16 < SegmentCount(data[4])
      && r.layer.contents == l.contents && r.layer.payload == l.payload
  {
    if |data| < FixedLen then
      Decoded(l, Some(Truncated))
    else
      var count := SegmentCount(data[4]);
      if FixedLen + 16 * count <= |data| then
        Decoded(
          Srv6Layer(data[0], data[1], data[2], data[3], data[4], data[5], ReadBE16(data, 6),
                    l.segments + SegmentsAt(data, count), data[..FixedLen], data[FixedLen..]),
          None)
      else
        Decoded(
          Srv6Layer(data[0], data[1], data[2], data[3], data[4], data[5], ReadBE16(data, 6),
                    l.segments + SegmentsAt(data, (|data| - FixedLen) / 16), l.contents, l.payload),
          Some(IndexOutOfRange))
  }

  /** The octets `SerializeTo` writes for a layer: `HdrExtLen*8+8` of them. */
  function EncodedLen(l: Srv6Layer): nat
  {
    l.hdrExtLen * 8 + 8
  }

  /** `SerializeTo` writes each segment at `8+16i` with `PutUint64`, which
      panics past the end of the `HdrExtLen*8+8` octets it prepended: every
      segment fits exactly when the segments take at most `8*HdrExtLen`
      octets. The length fields themselves are taken as given, never
      recomputed. */
  predicate Serializable(l: Srv6Layer)
  {
    16 * |l.segments| <= 8 * l.hdrExtLen
  }

  /** `Srv6Layer.SerializeTo`, where `buf` is what the `HdrExtLen*8+8`
      octets `PrependBytes` returns held before (gopacket leaves them
      indeterminate). The call panics (`None`) when a segment runs past
      those octets; otherwise it writes the six 1-octet fields, the tag
      big-endian and every segment unchanged at `8+16i`, and the octets the
      segments do not reach keep what they held. */
  function SerializeTo(l: Srv6Layer, buf: seq<Byte>): (r: Option<seq<Byte>>)
    requires |buf| == EncodedLen(l)
    ensures r.Some? <==> Serializable(l)
    ensures r.Some? ==>
      var bytes := r.value;
      && |bytes| == EncodedLen(l)
      && bytes[0] == l.nextHeader && bytes[1] == l.hdrExtLen && bytes[2] == l.routingType
      && bytes[3] == l.segmentsLeft && bytes[4] == l.lastEntry && bytes[5] == l.flags
      && ReadBE16(bytes, 6) == l.tag
      && (forall i | 0 <= i < |l.segments| :: bytes[8 + 16 * i..24 + 16 * i] == l.segments[i])
      && (forall k | 8 + 16 * |l.segments| <= k < |bytes| :: bytes[k] == buf[k])
  {
    if !Serializable(l) then None
    else
      var fixed := [l.nextHeader, l.hdrExtLen, l.routingType, l.segmentsLeft, l.lastEntry, l.flags] + BE16(l.tag);
      var segs := Flatten(l.segments);
      var bytes := fixed + segs + buf[8 + 16 * |l.segments|..];
      assert bytes[6..8] == BE16(l.tag);
      assert forall i | 0 <= i < |l.segments| :: bytes[8 + 16 * i..24 + 16 * i] == l.segments[i] by {
        forall i | 0 <= i < |l.segments|
          ensures bytes[8 + 16 * i..24 + 16 * i] == l.segments[i]
        {
          assert bytes[8 + 16 * i..24 + 16 * i] == segs[16 * i..16 * i + 16];
        }
      }
      Some(bytes)
  }

  /** The length fields as the test packet builders set them for `n` segments:
      `HdrExtLen = 2n` and `LastEntry = n-1` in 8-bit arithmetic. */
  predicate BuilderLengths(l: Srv6Layer)
  {
    && |l.segments| <= 127
    && l.hdrExtLen == 2 * |l.segments|
    && l.lastEntry == ToU8(|l.segments| - 1)
  }

  /** Every field and segment of a header survives an encode followed by a
      decode into a fresh layer, whatever the buffer held before and
      whatever follows the header on the wire. */
  lemma {:induction false} RoundTrip(l: Srv6Layer, buf: seq<Byte>, rest: seq<Byte>)
    requires BuilderLengths(l) && |buf| == EncodedLen(l)
    ensures SerializeTo(l, buf).Some?
    ensures Decodable(SerializeTo(l, buf).value + rest)
    ensures
      var data := SerializeTo(l, buf).value + rest;
      DecodeFromBytes(Fresh, data)
        == Decoded(l.(contents := data[..FixedLen], payload := data[FixedLen..]), None)
  {
    var n := |l.segments|;
    assert |Fresh.segments| == 0;
    hide *;
    BuilderLengthsFit(l);
    var enc := SerializeTo(l, buf).value;
    var data := enc + rest;
    assert data[4] == l.lastEntry;
    DecodableWhenLongEnough(data);
    var r := DecodeFromBytes(Fresh, data);
    forall j | 0 <= j < n
      ensures r.layer.segments[j] == l.segments[j]
    {
      PrefixWindow(enc, rest, 8 + 16 * j, 24 + 16 * j);
    }
    ReadBE16Prefix(enc, rest, 6);
  }

  /** The builder lengths make room for exactly the segments, so nothing is
      left over for padding, and the decoder reads them all back. */
  lemma BuilderLengthsFit(l: Srv6Layer)
    requires BuilderLengths(l)
    ensures Serializable(l) && EncodedLen(l) == FixedLen + 16 * |l.segments|
    ensures SegmentCount(l.lastEntry) == |l.segments|
  {
  }

  lemma DecodableWhenLongEnough(data: seq<Byte>)
    requires |data| >= FixedLen && FixedLen + 16 * SegmentCount(data[4]) <= |data|
    ensures Decodable(data)
  {
  }

  lemma ReadBE16Prefix(a: seq<Byte>, b: seq<Byte>, off: nat)
    requires off + 2 <= |a|
    ensures ReadBE16(a + b, off) == ReadBE16(a, off)
  {
  }

  lemma PrefixWindow(a: seq<Byte>, b: seq<Byte>, lo: nat, hi: nat)
    requires lo <= hi <= |a|
    ensures (a + b)[lo..hi] == a[lo..hi]
  {
  }

  /** A header announcing `LastEntry = 255` decodes with no segments at all,
      even though the encoder would have written one. */
  lemma LastEntryWrapsToNoSegments(data: seq<Byte>)
    requires |data| >= FixedLen && data[4] == 255
    ensures Decodable(data)
    ensures DecodeFromBytes(Fresh, data).layer.segments == []
  {
  }
}
