/** The XDP execution context the data-plane program runs in: the verdicts it
    returns, the packet buffer it sees, the fixed header layout it parses and
    the kernel's head-adjustment helper. */
module Xdp {
  import opened Bytes
  import opened Wrappers

  /** `enum xdp_action`; a redirect carries the interface `bpf_redirect` was
      given. */
  datatype Action = Aborted | Drop | Pass | Tx | Redirect(ifindex: nat)

  /** `struct xdp_md`: `data` is the frame between `ctx->data` and
      `ctx->data_end`; `head` is the headroom in front of it that
      `bpf_xdp_adjust_head` may reclaim. */
  datatype XdpMd = XdpMd(head: seq<Byte>, data: seq<Byte>, ingressIfindex: nat)

  /** A program's verdict together with the context it leaves behind. */
  datatype Verdict = Verdict(action: Action, ctx: XdpMd)

  // Header sizes.
  const EthHlen: nat := 14
  const Ipv6Hlen: nat := 40
  const Ipv4Hlen: nat := 20
  const SrhFixedLen: nat := 8
  const VlanHlen: nat := 4

  // EtherTypes.
  const EthPIp: U16 := 0x0800
  const EthPIpv6: U16 := 0x86DD
  const EthP8021Q: U16 := 0x8100
  const EthP8021AD: U16 := 0x88A8

  // IP protocol numbers and the routing type of the Segment Routing Header.
  const IpprotoIpip: Byte := 4
  const IpprotoRouting: Byte := 43
  const IpprotoIpv6: Byte := 41
  const Ipv6SrcrtType4: Byte := 4

  /** `MAX_SEGMENTS`, the fixed capacity of a segment list in a table entry. */
  const MaxSegments: nat := 10

  // Offsets of the fields the data plane touches when the Ethernet header is
  // followed directly by the IPv6 header and that by the SRH.
  const EthProtoOff: nat := 12
  const Ip6Off: nat := 14
  const Ip6NexthdrOff: nat := 20
  const Ip6SaddrOff: nat := 22
  const Ip6DaddrOff: nat := 38
  const SrhOff: nat := 54
  const SrhNexthdrOff: nat := 54
  const SrhHdrlenOff: nat := 55
  const SrhTypeOff: nat := 56
  const SrhSlOff: nat := 57
  const SrhFirstSegmentOff: nat := 58
  const SrhSegmentsOff: nat := 62

  /** The EtherType field of the frame's Ethernet header. */
  function EthProto(frame: seq<Byte>): U16
    requires |frame| >= EthHlen
  {
    ReadBE16(frame, EthProtoOff)
  }

  /** `bpf_xdp_adjust_head`: moves the start of the frame by `offset` octets,
      negative to grow the frame into the headroom, positive to shrink it.
      The kernel refuses a start before the headroom or one that leaves fewer
      than `ETH_HLEN` octets; the underlying buffer is never changed. */
  function AdjustHead(ctx: XdpMd, offset: int): (r: Option<XdpMd>)
    ensures r.Some? <==> -|ctx.head| <= offset <= |ctx.data| - EthHlen
    ensures r.Some? ==> r.value.head + r.value.data == ctx.head + ctx.data
    ensures r.Some? ==> |r.value.data| == |ctx.data| - offset
    ensures r.Some? ==> r.value.ingressIfindex == ctx.ingressIfindex
  {
    if offset < -|ctx.head| || offset > |ctx.data| - EthHlen then None
    else if offset >= 0 then
      assert ctx.head + ctx.data[..offset] + ctx.data[offset..] == ctx.head + ctx.data;
      Some(ctx.(head := ctx.head + ctx.data[..offset], data := ctx.data[offset..]))
    else
      var cut := |ctx.head| + offset;
      assert ctx.head[..cut] + (ctx.head[cut..] + ctx.data) == ctx.head + ctx.data;
      Some(ctx.(head := ctx.head[..cut], data := ctx.head[cut..] + ctx.data))
  }

  /** Growing the frame exposes exactly the tail of the headroom in front of
      the old frame. */
  lemma AdjustHeadGrow(ctx: XdpMd, len: nat)
    requires len <= |ctx.head| && |ctx.data| + len >= EthHlen
    ensures AdjustHead(ctx, -(len as int)).Some?
    ensures AdjustHead(ctx, -(len as int)).value.data[len..] == ctx.data
  {
  }

  /** Moving the start back by the same amount restores the context: the
      adjustment is invertible whenever the original frame held an Ethernet
      header. */
  lemma {:induction false} AdjustHeadInverse(ctx: XdpMd, offset: int)
    requires AdjustHead(ctx, offset).Some?
    requires |ctx.data| >= EthHlen
    ensures AdjustHead(AdjustHead(ctx, offset).value, -offset) == Some(ctx)
  {
    var mid := AdjustHead(ctx, offset).value;
    var back := AdjustHead(mid, -offset);
    assert back.Some?;
    var b := back.value;
    if offset >= 0 {
      assert mid.head == ctx.head + ctx.data[..offset];
      assert b.head == mid.head[..|mid.head| - offset];
      assert b.head == ctx.head;
    } else {
      assert mid.head == ctx.head[..|ctx.head| + offset];
      assert b.head == ctx.head;
    }
    assert b.data == ctx.data by {
      assert |b.head| == |ctx.head|;
      assert b.head + b.data == ctx.head + ctx.data;
      assert b.data == (b.head + b.data)[|b.head|..];
    }
  }
}
