/** The SRv6 endpoint behaviours of RFC 8986 as the data plane implements
    them, on a frame whose Ethernet header is followed by the IPv6 header and
    that by an SRH whose fixed part lies inside the frame: End (section 4.1),
    End.X and End.T (section 4.2, 4.3; the header update only), End.DX6 and
    End.DX4 (sections 4.5, 4.6) and the End.DT stubs. */
module Endpoint {
  import opened Bytes
  import opened Xdp
  import opened HeadendUtils
  import opened Srv6Fib
  import Decaps

  /** What the caller guarantees: the Ethernet, IPv6 and SRH fixed headers
      are inside the frame. */
  predicate HasSrh(frame: seq<Byte>)
  {
    |frame| >= SrhSegmentsOff
  }

  /** The three outcomes of `endpoint_init`: -1 (Segments Left is 0, hand
      the packet to the upper layer), -2 (the decremented value is not a
      valid index) or 0 with the new Segments Left. */
  datatype InitResult = PassUp | InvalidSl | Ready(newSl: Byte)

  /** `endpoint_init`: Segments Left 0 is a hand-off; otherwise `SL-1` must
      be at most `first_segment` and at most 9, the last slot of a
      ten-segment list. */
  function EndpointInit(frame: seq<Byte>): (r: InitResult)
    requires HasSrh(frame)
    ensures r == PassUp <==> frame[SrhSlOff] == 0
    ensures r.Ready? <==>
      frame[SrhSlOff] != 0 && frame[SrhSlOff] - 1 <= frame[SrhFirstSegmentOff] && frame[SrhSlOff] - 1 <= 9
    ensures r.Ready? ==> r.newSl == frame[SrhSlOff] - 1
  {
    var sl := frame[SrhSlOff];
    if sl == 0 then PassUp
    else
      var newSl := sl - 1;
      if newSl > frame[SrhFirstSegmentOff] || newSl > 9 then InvalidSl
      else Ready(newSl)
  }

  /** `endpoint_update_da`: the destination address becomes segment
      `newSl` of the SRH and Segments Left becomes `newSl`; a failed fetch
      leaves the frame as it was. */
  function EndpointUpdateDa(frame: seq<Byte>, newSl: Byte): (r: Copied)
    requires HasSrh(frame)
    ensures r.ok <==> newSl < MaxSegments && SrhSegmentsOff + 16 * (newSl + 1) <= |frame|
    ensures !r.ok ==> r.buf == frame
    ensures r.ok ==>
      && |r.buf| == |frame|
      && r.buf[Ip6DaddrOff..Ip6DaddrOff + 16] == frame[SrhSegmentsOff + 16 * newSl..SrhSegmentsOff + 16 * newSl + 16]
      && r.buf[SrhSlOff] == newSl
      && (forall p | 0 <= p < |frame| && !(Ip6DaddrOff <= p < Ip6DaddrOff + 16) && p != SrhSlOff ::
            r.buf[p] == frame[p])
  {
    var c := CopySegmentByIndex(frame, Ip6DaddrOff, SrhSegmentsOff, newSl);
    if !c.ok then c
    else Copied(true, Splice(c.buf, SrhSlOff, [newSl]))
  }

  /** `endpoint_fib_redirect`: the FIB on the packet's own addresses decides;
      success rewrites the MACs and redirects. */
  function EndpointFibRedirect(fib: FibOracle, ctx: XdpMd): (r: Verdict)
    requires |ctx.data| >= Ip6Off + Ipv6Hlen
    ensures var fw := FibRedirectV6(fib, ctx.ingressIfindex, ctx.data);
      r == Verdict(fw.action, ctx.(data := fw.frame))
  {
    if |ctx.data| < EthHlen then Verdict(Drop, ctx)
    else
      var u := LookupAndUpdate(fib, ctx.ingressIfindex, ctx.data, 0);
      match u.result
      case FibRedirect => Verdict(Redirect(u.outIfindex), ctx.(data := u.frame))
      case FibDrop => Verdict(Drop, ctx)
      case FibPass => Verdict(Pass, ctx)
  }

  /** The header rewrite shared by End, End.X and End.T: the verdict when
      the packet stops before the rewrite, or the rewritten frame. */
  datatype Advance = Stop(action: Action) | Advanced(frame: seq<Byte>)

  /** `endpoint_init` followed by `endpoint_update_da`: Segments Left 0 stops
      with a pass, an invalid new Segments Left or a failed fetch with a
      drop. */
  function AdvanceSegment(frame: seq<Byte>): (r: Advance)
    requires HasSrh(frame)
    ensures frame[SrhSlOff] == 0 ==> r == Stop(Pass)
    ensures frame[SrhSlOff] != 0 && r.Stop? ==> r == Stop(Drop)
    ensures r.Advanced? <==>
      && frame[SrhSlOff] != 0
      && frame[SrhSlOff] - 1 <= frame[SrhFirstSegmentOff]
      && frame[SrhSlOff] - 1 <= 9
      && SrhSegmentsOff + 16 * frame[SrhSlOff] <= |frame|
    ensures r.Advanced? ==> r.frame == EndpointUpdateDa(frame, frame[SrhSlOff] - 1).buf
  {
    match EndpointInit(frame)
    case PassUp => Stop(Pass)
    case InvalidSl => Stop(Drop)
    case Ready(newSl) =>
      var u := EndpointUpdateDa(frame, newSl);
      if !u.ok then Stop(Drop) else Advanced(u.buf)
  }

  /** `process_end` (End): after the header rewrite the FIB decides. */
  function ProcessEnd(fib: FibOracle, ctx: XdpMd): (r: Verdict)
    requires HasSrh(ctx.data)
    ensures ctx.data[SrhSlOff] == 0 ==> r == Verdict(Pass, ctx)
    ensures AdvanceSegment(ctx.data).Stop? ==> r == Verdict(AdvanceSegment(ctx.data).action, ctx)
    ensures AdvanceSegment(ctx.data).Advanced? ==>
      var f := AdvanceSegment(ctx.data).frame;
      var fw := FibRedirectV6(fib, ctx.ingressIfindex, f);
      r == Verdict(fw.action, ctx.(data := fw.frame))
  {
    match AdvanceSegment(ctx.data)
    case Stop(action) => Verdict(action, ctx)
    case Advanced(f) => EndpointFibRedirect(fib, ctx.(data := f))
  }

  /** `process_end_x` (End.X): the cross-connect to the next hop is not
      implemented; after the header rewrite the packet is passed. */
  function ProcessEndX(ctx: XdpMd): (r: Verdict)
    requires HasSrh(ctx.data)
    ensures r.ctx.head == ctx.head && r.ctx.ingressIfindex == ctx.ingressIfindex
    ensures AdvanceSegment(ctx.data).Stop? ==> r == Verdict(AdvanceSegment(ctx.data).action, ctx)
    ensures AdvanceSegment(ctx.data).Advanced? ==> r == Verdict(Pass, ctx.(data := AdvanceSegment(ctx.data).frame))
  {
    match AdvanceSegment(ctx.data)
    case Stop(action) => Verdict(action, ctx)
    case Advanced(f) => Verdict(Pass, ctx.(data := f))
  }

  /** `process_end_t` (End.T): the table-specific lookup is not implemented;
      it behaves exactly as End.X. */
  function ProcessEndT(ctx: XdpMd): (r: Verdict)
    requires HasSrh(ctx.data)
    ensures r == ProcessEndX(ctx)
  {
    match AdvanceSegment(ctx.data)
    case Stop(action) => Verdict(action, ctx)
    case Advanced(f) => Verdict(Pass, ctx.(data := f))
  }

  /** End, End.X and End.T make the same header rewrite and stop for the same
      reasons; they differ only in what happens to a rewritten packet, which
      End.X and End.T pass while End hands it to the FIB. */
  lemma EndVariantsAgree(fib: FibOracle, ctx: XdpMd)
    requires HasSrh(ctx.data)
    ensures ProcessEndX(ctx).action == Pass || ProcessEndX(ctx) == ProcessEnd(fib, ctx)
    ensures ProcessEndX(ctx).action == Pass ==>
      ProcessEndX(ctx).ctx.data[EthProtoOff..] == ProcessEnd(fib, ctx).ctx.data[EthProtoOff..]
  {
  }

  /** `process_end_dt4`, `process_end_dt6` and `process_end_dt46`: not
      implemented; the packet is passed untouched. */
  function ProcessEndDtStub(ctx: XdpMd): (r: Verdict)
    ensures r.action == Pass && r.ctx == ctx
  {
    Verdict(Pass, ctx)
  }

  /** The oracle standing in for `srv6_fib_redirect_v4`, which the program
      calls but does not define here: from the ingress interface and the
      frame it yields a verdict and the frame afterwards. */
  type FibRedirectV4Oracle = (nat, seq<Byte>) -> Forward

  /** A pass after decapsulation becomes a drop: the frame no longer has the
      shape the caller parsed. */
  function NoPassAfterDecap(a: Action): (b: Action)
    ensures b != Pass
    ensures a == Pass ==> b == Drop
    ensures a != Pass ==> b == a
  {
    if a == Pass then Drop else a
  }

  /** `process_end_dx4` (End.DX4): passed untouched unless Segments Left is
      0; dropped if decapsulation of an IPv4-in-IPv6 packet fails or the
      inner IPv4 header is cut short; otherwise the EtherType becomes IPv4
      and the IPv4 forwarding oracle decides, a pass turned into a drop. */
  function ProcessEndDx4(fib4: FibRedirectV4Oracle, ctx: XdpMd): (r: Verdict)
    requires HasSrh(ctx.data)
    ensures ctx.data[SrhSlOff] != 0 ==> r == Verdict(Pass, ctx)
    ensures ctx.data[SrhSlOff] == 0 ==> r.action != Pass
    ensures ctx.data[SrhSlOff] == 0 && ctx.data[SrhNexthdrOff] != IpprotoIpip ==> r == Verdict(Drop, ctx)
    ensures ctx.data[SrhSlOff] == 0 ==>
      var dc := Decaps.Srv6Decap(ctx, ctx.data[SrhNexthdrOff], ctx.data[SrhHdrlenOff], IpprotoIpip);
      && (!dc.ok ==> r == Verdict(Drop, ctx))
      && (dc.ok && |dc.ctx.data| < EthHlen + Ipv4Hlen ==> r == Verdict(Drop, dc.ctx))
      && (dc.ok && |dc.ctx.data| >= EthHlen + Ipv4Hlen ==>
            var f := Splice(dc.ctx.data, EthProtoOff, BE16(EthPIp));
            var fw := fib4(ctx.ingressIfindex, f);
            r == Verdict(NoPassAfterDecap(fw.action), dc.ctx.(data := fw.frame)))
  {
    var frame := ctx.data;
    if frame[SrhSlOff] != 0 then Verdict(Pass, ctx)
    else
      var dc := Decaps.Srv6Decap(ctx, frame[SrhNexthdrOff], frame[SrhHdrlenOff], IpprotoIpip);
      if !dc.ok then Verdict(Drop, ctx)
      else
        var c := dc.ctx;
        if |c.data| < EthHlen then Verdict(Drop, c)
        else if |c.data| < EthHlen + Ipv4Hlen then Verdict(Drop, c)
        else
          var f := Splice(c.data, EthProtoOff, BE16(EthPIp));
          var fw := fib4(c.ingressIfindex, f);
          Verdict(NoPassAfterDecap(fw.action), c.(data := fw.frame))
  }

  /** `process_end_dx6` (End.DX6): passed untouched unless Segments Left is
      0; dropped if decapsulation of an IPv6-in-IPv6 packet fails or the
      inner IPv6 header is cut short; otherwise the IPv6 FIB on the inner
      addresses decides with the EtherType left as it was, a pass turned
      into a drop. */
  function ProcessEndDx6(fib: FibOracle, ctx: XdpMd): (r: Verdict)
    requires HasSrh(ctx.data)
    ensures ctx.data[SrhSlOff] != 0 ==> r == Verdict(Pass, ctx)
    ensures ctx.data[SrhSlOff] == 0 ==> r.action != Pass
    ensures ctx.data[SrhSlOff] == 0 && ctx.data[SrhNexthdrOff] != IpprotoIpv6 ==> r == Verdict(Drop, ctx)
    ensures ctx.data[SrhSlOff] == 0 ==>
      var dc := Decaps.Srv6Decap(ctx, ctx.data[SrhNexthdrOff], ctx.data[SrhHdrlenOff], IpprotoIpv6);
      && (!dc.ok ==> r == Verdict(Drop, ctx))
      && (dc.ok && |dc.ctx.data| < EthHlen + Ipv6Hlen ==> r == Verdict(Drop, dc.ctx))
      && (dc.ok && |dc.ctx.data| >= EthHlen + Ipv6Hlen ==>
            var fw := FibRedirectV6(fib, ctx.ingressIfindex, dc.ctx.data);
            r == Verdict(NoPassAfterDecap(fw.action), dc.ctx.(data := fw.frame)))
  {
    var frame := ctx.data;
    if frame[SrhSlOff] != 0 then Verdict(Pass, ctx)
    else
      var dc := Decaps.Srv6Decap(ctx, frame[SrhNexthdrOff], frame[SrhHdrlenOff], IpprotoIpv6);
      if !dc.ok then Verdict(Drop, ctx)
      else
        var c := dc.ctx;
        if |c.data| < EthHlen then Verdict(Drop, c)
        else if |c.data| < EthHlen + Ipv6Hlen then Verdict(Drop, c)
        else
          var fw := FibRedirectV6(fib, c.ingressIfindex, c.data);
          Verdict(NoPassAfterDecap(fw.action), c.(data := fw.frame))
  }
}
