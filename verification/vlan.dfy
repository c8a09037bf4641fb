/** Ethernet and VLAN parsing: up to two IEEE 802.1Q / 802.1ad tags are
    skipped after the Ethernet header, giving the protocol and offset of the
    layer-3 header. */
module Vlan {
  import opened Bytes
  import opened Xdp

  /** `MAX_VLAN_DEPTH`: tags parsed at most (QinQ). */
  const MaxVlanDepth: nat := 2

  /** The fields of `struct pkt_ctx` the parser fills in. `ethProto` is
      held as the value the big-endian field denotes. */
  datatype PktCtx = PktCtx(ethProto: U16, vlanDepth: U16, l3Offset: U16)

  predicate IsVlanTag(proto: U16)
  {
    proto == EthP8021Q || proto == EthP8021AD
  }

  /** The EtherType seen after `j` tags: the Ethernet header's own field for
      `j = 0`, otherwise the encapsulated protocol of tag `j`. Each sits in
      the two octets before the header that follows it. */
  function ProtoAt(frame: seq<Byte>, j: nat): (p: U16)
    requires EthHlen + VlanHlen * j <= |frame|
  {
    ReadBE16(frame, EthProtoOff + VlanHlen * j)
  }

  /** The frame carries exactly `k` tags in the parser's sense: the first
      `k` EtherTypes are tag types, the next one is not (unless the depth
      limit stops the parse), and all `k` tag headers are inside the frame. */
  predicate WellTagged(frame: seq<Byte>, k: nat)
  {
    && k <= MaxVlanDepth
    && EthHlen + VlanHlen * k <= |frame|
    && (forall j | 0 <= j < k :: IsVlanTag(ProtoAt(frame, j)))
    && (k < MaxVlanDepth ==> !IsVlanTag(ProtoAt(frame, k)))
  }

  /** A frame has at most one tag count. */
  lemma WellTaggedUnique(frame: seq<Byte>, k: nat, k': nat)
    requires WellTagged(frame, k) && WellTagged(frame, k')
    ensures k == k'
  {
  }

  /** A parse stopped at tag `i` whose header does not fit leaves no tag
      count that works. */
  lemma TruncatedTagHasNoCount(frame: seq<Byte>, i: nat)
    requires i < MaxVlanDepth && EthHlen + VlanHlen * i <= |frame| < EthHlen + VlanHlen * (i + 1)
    requires forall j | 0 <= j <= i :: IsVlanTag(ProtoAt(frame, j))
    ensures forall k: nat :: !WellTagged(frame, k)
  {
  }

  lemma ToU16Succ(x: int)
    ensures ToU16(ToU16(x) + 1) == ToU16(x + 1)
  {
  }

  /** `parse_eth_vlan`: fails on a frame without an Ethernet header and on a
      tag header cut short by the frame end; consumes tags while the current
      EtherType is a tag type, at most two. The depth counter is the
      caller's, incremented once per consumed tag and never reset, also on
      the failure after a consumed tag; the protocol and offset are written
      only on success. */
  method ParseEthVlan(frame: seq<Byte>, pctx: PktCtx) returns (ok: bool, out: PktCtx)
    ensures ok <==> exists k :: WellTagged(frame, k)
    ensures forall k | WellTagged(frame, k) ::
      out == PktCtx(ProtoAt(frame, k), ToU16(pctx.vlanDepth + k), EthHlen + VlanHlen * k)
    ensures |frame| < EthHlen ==> out == pctx
    ensures !ok ==> out.ethProto == pctx.ethProto && out.l3Offset == pctx.l3Offset
    ensures !ok && |frame| >= EthHlen ==>
      out.vlanDepth == ToU16(pctx.vlanDepth + (|frame| - EthHlen) / VlanHlen)
  {
    if |frame| < EthHlen {
      return false, pctx;
    }
    var ethProto := ReadBE16(frame, EthProtoOff);
    var offset := EthHlen;
    var depth := pctx.vlanDepth;
    var i := 0;
    while i < MaxVlanDepth && IsVlanTag(ethProto)
      invariant 0 <= i <= MaxVlanDepth
      invariant offset == EthHlen + VlanHlen * i <= |frame|
      invariant ethProto == ProtoAt(frame, i)
      invariant depth == ToU16(pctx.vlanDepth + i)
      invariant forall j | 0 <= j < i :: IsVlanTag(ProtoAt(frame, j))
    {
      if offset + VlanHlen > |frame| {
        TruncatedTagHasNoCount(frame, i);
        assert (|frame| - EthHlen) / VlanHlen == i;
        return false, pctx.(vlanDepth := depth);
      }
      ethProto := ReadBE16(frame, offset + 2);
      offset := offset + VlanHlen;
      ToU16Succ(pctx.vlanDepth + i);
      depth := ToU16(depth as int + 1);
      i := i + 1;
    }
    assert WellTagged(frame, i);
    forall k: nat | WellTagged(frame, k)
      ensures k == i
    {
      WellTaggedUnique(frame, k, i);
    }
    return true, PktCtx(ethProto, depth, offset);
  }

  /** `get_l3_header`: the frame from the layer-3 offset on. */
  function GetL3Header(frame: seq<Byte>, pctx: PktCtx): (l3: seq<Byte>)
    requires pctx.l3Offset <= |frame|
    ensures frame[..pctx.l3Offset] + l3 == frame
    ensures |l3| == |frame| - pctx.l3Offset
  {
    frame[pctx.l3Offset..]
  }

  /** After a successful parse the layer-3 header starts right behind the
      last consumed tag, and its EtherType is the one just before it. */
  lemma L3HeaderFollowsTags(frame: seq<Byte>, k: nat, depth: U16)
    requires WellTagged(frame, k)
    ensures var pctx := PktCtx(ProtoAt(frame, k), depth, EthHlen + VlanHlen * k);
      && GetL3Header(frame, pctx) == frame[EthHlen + VlanHlen * k..]
      && ReadBE16(frame, pctx.l3Offset - 2) == pctx.ethProto
  {
  }

  /** The VLAN identifier: the low 12 bits of the TCI field. */
  const VlanVidMask: nat := 0x0FFF

  /** `get_vlan_id`: 0 when no tag was counted or the first tag header is
      cut short; otherwise the low 12 bits of the first tag's TCI. */
  function GetVlanId(frame: seq<Byte>, pctx: PktCtx): (id: U16)
    ensures id <= VlanVidMask
    ensures pctx.vlanDepth == 0 || |frame| < EthHlen + VlanHlen ==> id == 0
    ensures pctx.vlanDepth != 0 && |frame| >= EthHlen + VlanHlen ==>
      exists pcp: nat | pcp < 16 :: ReadBE16(frame, EthHlen) == pcp * 0x1000 + id
  {
    if pctx.vlanDepth == 0 then 0
    else if EthHlen + VlanHlen > |frame| then 0
    else
      var tci := ReadBE16(frame, EthHlen);
      assert tci == (tci / 0x1000) * 0x1000 + tci % 0x1000;
      tci % 0x1000
  }

  /** A frame whose first tag carries the TCI `tci`, parsed from a zero
      depth, yields that tag's 12-bit VLAN identifier. */
  lemma {:induction false} VlanIdOfFirstTag(frame: seq<Byte>, k: nat, tci: U16)
    requires WellTagged(frame, k) && k >= 1
    requires frame[EthHlen..EthHlen + 2] == BE16(tci)
    ensures GetVlanId(frame, PktCtx(ProtoAt(frame, k), ToU16(k), EthHlen + VlanHlen * k)) == tci % 0x1000
  {
    assert ReadBE16(frame, EthHlen) == ReadBE16(frame[EthHlen..EthHlen + 2], 0);
  }
}
