/** The XDP entry point `vinbero_main` and its classifier `process_srv6`:
    only IPv6 frames carrying a Segment Routing Header (routing type 4)
    whose destination has an entry in the SID-function table are processed,
    and of the endpoint behaviours only End, by the file's own older
    `process_end`. */
module Dispatcher {
  import opened Bytes
  import opened Xdp
  import opened Wrappers
  import opened Entries
  import opened Srv6Fib
  import Lpm
  import Endpoint

  /** The SID-function table (`sid_function_map`), keyed by IPv6 prefix. */
  type SidTable = Lpm.Trie<SidFunctionEntry>

  /** The table lookup `process_srv6` makes: a 128-bit key holding the
      destination address, answered with the entry of the longest stored
      prefix covering it. */
  function SidLookup(table: SidTable, da: Addr16): (r: Option<SidFunctionEntry>)
    ensures r.Some? <==> Lpm.Lookup(table, da).Some?
    ensures r.Some? ==> r.value == table[Lpm.Lookup(table, da).value].entry
  {
    match Lpm.Lookup(table, da)
    case None => None
    case Some(k) => Some(table[k].entry)
  }

  /** The header rewrite of the older `process_end`: the destination
      address becomes segment `newSl` and Segments Left becomes `newSl`;
      nothing else in the frame changes. */
  function LegacyUpdateDa(frame: seq<Byte>, newSl: Byte): (r: seq<Byte>)
    requires SrhSegmentsOff + 16 * (newSl as int) + 16 <= |frame|
    ensures |r| == |frame|
    ensures r[Ip6DaddrOff..Ip6DaddrOff + 16] == frame[SrhSegmentsOff + 16 * newSl..SrhSegmentsOff + 16 * newSl + 16]
    ensures r[SrhSlOff] == newSl
    ensures forall p | 0 <= p < |frame| && !(Ip6DaddrOff <= p < Ip6DaddrOff + 16) && p != SrhSlOff ::
      r[p] == frame[p]
  {
    var seg := frame[SrhSegmentsOff + 16 * newSl..SrhSegmentsOff + 16 * newSl + 16];
    Splice(Splice(frame, Ip6DaddrOff, seg), SrhSlOff, [newSl])
  }

  /** The older `process_end` of the entry-point file. It checks the new
      Segments Left only against `first_segment` and the frame end (no cap of
      ten segments), rewrites the destination address and Segments Left, and
      maps the FIB lookup on the rewritten header to a verdict itself: the
      same mapping as the shared FIB helper, the rewritten frame kept on
      every path. */
  function LegacyProcessEnd(fib: FibOracle, ctx: XdpMd): (r: Verdict)
    requires |ctx.data| >= SrhSegmentsOff
    ensures r.ctx.head == ctx.head && r.ctx.ingressIfindex == ctx.ingressIfindex
    ensures ctx.data[SrhSlOff] == 0 ==> r == Verdict(Pass, ctx)
    ensures ctx.data[SrhSlOff] != 0 && ctx.data[SrhSlOff] as int - 1 > ctx.data[SrhFirstSegmentOff] as int ==>
      r == Verdict(Drop, ctx)
    ensures ctx.data[SrhSlOff] != 0 && SrhSegmentsOff + 16 * (ctx.data[SrhSlOff] as int) > |ctx.data| ==>
      r == Verdict(Drop, ctx)
    ensures var sl := ctx.data[SrhSlOff] as int;
      sl != 0 && sl - 1 <= ctx.data[SrhFirstSegmentOff] as int && SrhSegmentsOff + 16 * sl <= |ctx.data| ==>
        var fw := FibRedirectV6(fib, ctx.ingressIfindex, LegacyUpdateDa(ctx.data, sl - 1));
        r == Verdict(fw.action, ctx.(data := fw.frame))
  {
    var frame := ctx.data;
    var sl := frame[SrhSlOff];
    if sl == 0 then Verdict(Pass, ctx)
    else
      var newSl: Byte := sl - 1;
      if newSl > frame[SrhFirstSegmentOff] then Verdict(Drop, ctx)
      else if SrhSegmentsOff + 16 * (newSl as int) + 16 > |frame| then Verdict(Drop, ctx)
      else
        var updated := LegacyUpdateDa(frame, newSl);
        var c := ctx.(data := updated);
        var reply := fib(Ipv6Query(ctx.ingressIfindex, updated));
        if reply.ret == FibLkupRetSuccess then
          if |updated| < EthHlen then Verdict(Drop, c)
          else Verdict(Redirect(reply.ifindex), c.(data := RewriteMacs(updated, reply)))
        else if reply.ret == FibLkupRetBlackhole || reply.ret == FibLkupRetUnreachable
             || reply.ret == FibLkupRetProhibit then
          Verdict(Drop, c)
        else
          Verdict(Pass, c)
  }

  /** `process_srv6`: passes anything that is not a type-4 routing header or
      whose destination has no table entry; a failed SRH bound check yields
      `boundFail`; only End is processed, every other action is passed. */
  function ProcessSrv6(fib: FibOracle, table: SidTable, boundFail: Action, ctx: XdpMd): (r: Verdict)
    requires |ctx.data| >= Ip6Off + Ipv6Hlen
    ensures ctx.data[Ip6NexthdrOff] != IpprotoRouting ==> r == Verdict(Pass, ctx)
    ensures ctx.data[Ip6NexthdrOff] == IpprotoRouting && |ctx.data| < SrhSegmentsOff ==> r == Verdict(boundFail, ctx)
    ensures ctx.data[Ip6NexthdrOff] == IpprotoRouting && |ctx.data| >= SrhSegmentsOff ==>
      var entry := SidLookup(table, ctx.data[Ip6DaddrOff..Ip6DaddrOff + 16]);
      && (ctx.data[SrhTypeOff] != Ipv6SrcrtType4 ==> r == Verdict(Pass, ctx))
      && (ctx.data[SrhTypeOff] == Ipv6SrcrtType4 && entry.None? ==> r == Verdict(Pass, ctx))
      && (ctx.data[SrhTypeOff] == Ipv6SrcrtType4 && entry.Some? && entry.value.action != ActionEnd ==>
            r == Verdict(Pass, ctx))
      && (ctx.data[SrhTypeOff] == Ipv6SrcrtType4 && entry.Some? && entry.value.action == ActionEnd ==>
            r == LegacyProcessEnd(fib, ctx))
  {
    var frame := ctx.data;
    if frame[Ip6NexthdrOff] != IpprotoRouting then Verdict(Pass, ctx)
    else if |frame| < SrhSegmentsOff then Verdict(boundFail, ctx)
    else if frame[SrhTypeOff] != Ipv6SrcrtType4 then Verdict(Pass, ctx)
    else
      match SidLookup(table, frame[Ip6DaddrOff..Ip6DaddrOff + 16])
      case None => Verdict(Pass, ctx)
      case Some(entry) =>
        if entry.action == ActionEnd then LegacyProcessEnd(fib, ctx)
        else Verdict(Pass, ctx)
  }

  /** `vinbero_main`: a frame without a whole Ethernet or IPv6 header yields
      `boundFail`; a frame that is not IPv6 is passed; everything else goes
      to `process_srv6`. */
  function VinberoMain(fib: FibOracle, table: SidTable, boundFail: Action, ctx: XdpMd): (r: Verdict)
    ensures |ctx.data| < EthHlen ==> r == Verdict(boundFail, ctx)
    ensures |ctx.data| >= EthHlen && EthProto(ctx.data) != EthPIpv6 ==> r == Verdict(Pass, ctx)
    ensures |ctx.data| >= EthHlen && EthProto(ctx.data) == EthPIpv6 && |ctx.data| < Ip6Off + Ipv6Hlen ==>
      r == Verdict(boundFail, ctx)
    ensures |ctx.data| >= Ip6Off + Ipv6Hlen && EthProto(ctx.data) == EthPIpv6 ==>
      r == ProcessSrv6(fib, table, boundFail, ctx)
  {
    if |ctx.data| < EthHlen then Verdict(boundFail, ctx)
    else if EthProto(ctx.data) != EthPIpv6 then Verdict(Pass, ctx)
    else if |ctx.data| < Ip6Off + Ipv6Hlen then Verdict(boundFail, ctx)
    else ProcessSrv6(fib, table, boundFail, ctx)
  }

  /** The program only ever changes a frame it processes with End: every
      other path returns the context untouched, and with End at most the
      MAC addresses, the destination address and Segments Left change. */
  lemma {:induction false} MainOnlyRewritesForEnd(fib: FibOracle, table: SidTable, boundFail: Action, ctx: XdpMd)
    ensures var r := VinberoMain(fib, table, boundFail, ctx);
      r.ctx != ctx ==>
        && |ctx.data| >= SrhSegmentsOff
        && EthProto(ctx.data) == EthPIpv6
        && ctx.data[Ip6NexthdrOff] == IpprotoRouting
        && ctx.data[SrhTypeOff] == Ipv6SrcrtType4
        && SidLookup(table, ctx.data[Ip6DaddrOff..Ip6DaddrOff + 16]).Some?
        && SidLookup(table, ctx.data[Ip6DaddrOff..Ip6DaddrOff + 16]).value.action == ActionEnd
        && r.ctx.head == ctx.head && r.ctx.ingressIfindex == ctx.ingressIfindex
        && |r.ctx.data| == |ctx.data|
  {
    var r := VinberoMain(fib, table, boundFail, ctx);
    if r.ctx != ctx {
      assert |ctx.data| >= Ip6Off + Ipv6Hlen && EthProto(ctx.data) == EthPIpv6;
      assert r == ProcessSrv6(fib, table, boundFail, ctx);
    }
  }

  /** A destination that no stored key covers, whatever octets the keys
      carry past their prefix lengths, is passed untouched. */
  lemma NoCoveringPrefixPasses(fib: FibOracle, table: SidTable, boundFail: Action, ctx: XdpMd)
    requires |ctx.data| >= SrhSegmentsOff
    requires forall k | k in table :: !Lpm.Covers(Lpm.StoredKey(table, k), ctx.data[Ip6DaddrOff..Ip6DaddrOff + 16])
    ensures VinberoMain(fib, table, boundFail, ctx).action in {Pass, boundFail}
    ensures VinberoMain(fib, table, boundFail, ctx).ctx == ctx
  {
    var da := ctx.data[Ip6DaddrOff..Ip6DaddrOff + 16];
    forall k | k in table
      ensures !Lpm.Covers(k, da)
    {
      Lpm.StoredKeyCovers(table, k, da);
    }
    Lpm.LookupIsLongestMatch(table, da);
  }

  /** With at most ten segments the two header rewrites coincide. */
  lemma {:induction false} UpdateDaVersionsAgree(frame: seq<Byte>, newSl: Byte)
    requires Endpoint.HasSrh(frame)
    requires newSl < MaxSegments && SrhSegmentsOff + 16 * (newSl as int) + 16 <= |frame|
    ensures Endpoint.EndpointUpdateDa(frame, newSl).ok
    ensures Endpoint.EndpointUpdateDa(frame, newSl).buf == LegacyUpdateDa(frame, newSl)
  {
    var a := Endpoint.EndpointUpdateDa(frame, newSl).buf;
    var b := LegacyUpdateDa(frame, newSl);
    forall p | 0 <= p < |frame|
      ensures a[p] == b[p]
    {
      if Ip6DaddrOff <= p < Ip6DaddrOff + 16 {
        assert a[p] == a[Ip6DaddrOff..Ip6DaddrOff + 16][p - Ip6DaddrOff];
        assert b[p] == b[Ip6DaddrOff..Ip6DaddrOff + 16][p - Ip6DaddrOff];
      }
    }
  }

  /** The two `process_end` versions agree, verdict and frame, whenever
      `first_segment` is at most 9: the newer version's extra cap on Segments
      Left and the index check of `copy_segment_by_index` never fire then. */
  lemma {:induction false} ProcessEndVersionsAgree(fib: FibOracle, ctx: XdpMd)
    requires Endpoint.HasSrh(ctx.data)
    requires ctx.data[SrhFirstSegmentOff] <= 9
    ensures LegacyProcessEnd(fib, ctx) == Endpoint.ProcessEnd(fib, ctx)
  {
    var sl := ctx.data[SrhSlOff] as int;
    if sl != 0 && sl - 1 <= ctx.data[SrhFirstSegmentOff] as int && SrhSegmentsOff + 16 * sl <= |ctx.data| {
      AdvancedVersionsAgree(fib, ctx);
    } else if sl != 0 {
      assert Endpoint.AdvanceSegment(ctx.data) == Endpoint.Stop(Drop);
    }
  }

  /** The case of `ProcessEndVersionsAgree` where both versions rewrite the
      header: they rewrite it alike and hand it to the same FIB mapping. */
  lemma {:induction false} AdvancedVersionsAgree(fib: FibOracle, ctx: XdpMd)
    requires Endpoint.HasSrh(ctx.data)
    requires ctx.data[SrhFirstSegmentOff] <= 9
    requires var sl := ctx.data[SrhSlOff] as int;
      sl != 0 && sl - 1 <= ctx.data[SrhFirstSegmentOff] as int && SrhSegmentsOff + 16 * sl <= |ctx.data|
    ensures LegacyProcessEnd(fib, ctx) == Endpoint.ProcessEnd(fib, ctx)
  {
    var newSl: Byte := ctx.data[SrhSlOff] - 1;
    assert SrhSegmentsOff + 16 * (newSl as int) + 16 <= |ctx.data|;
    assert |ctx.data| >= Ip6Off + Ipv6Hlen;
    hide *;
    AdvanceIsLegacyRewrite(ctx.data);
    var fw := FibRedirectV6(fib, ctx.ingressIfindex, LegacyUpdateDa(ctx.data, newSl));
    assert Endpoint.ProcessEnd(fib, ctx) == Verdict(fw.action, ctx.(data := fw.frame));
  }

  /** With `first_segment` at most 9 and a segment to move to, the newer
      header rewrite yields exactly the older one's frame. */
  lemma {:induction false} AdvanceIsLegacyRewrite(frame: seq<Byte>)
    requires Endpoint.HasSrh(frame)
    requires frame[SrhFirstSegmentOff] <= 9
    requires var sl := frame[SrhSlOff] as int;
      sl != 0 && sl - 1 <= frame[SrhFirstSegmentOff] as int && SrhSegmentsOff + 16 * sl <= |frame|
    ensures Endpoint.AdvanceSegment(frame) == Endpoint.Advanced(LegacyUpdateDa(frame, frame[SrhSlOff] - 1))
  {
    var newSl: Byte := frame[SrhSlOff] - 1;
    assert newSl < MaxSegments && SrhSegmentsOff + 16 * (newSl as int) + 16 <= |frame|;
    hide *;
    UpdateDaVersionsAgree(frame, newSl);
  }

  /** Beyond ten segments the two versions part: with `first_segment = 10`
      and Segments Left 11 the newer End drops the packet untouched, while
      the older one rewrites the destination to segment 10 and Segments Left
      to 10 whatever the FIB answers. */
  lemma {:induction false} ProcessEndVersionsDiffer(fib: FibOracle, ctx: XdpMd)
    requires |ctx.data| >= SrhSegmentsOff + 16 * 11
    requires ctx.data[SrhSlOff] == 11 && ctx.data[SrhFirstSegmentOff] == 10
    ensures Endpoint.ProcessEnd(fib, ctx) == Verdict(Drop, ctx)
    ensures LegacyProcessEnd(fib, ctx).ctx.data[SrhSlOff] == 10
    ensures LegacyProcessEnd(fib, ctx).ctx.data[Ip6DaddrOff..Ip6DaddrOff + 16]
      == ctx.data[SrhSegmentsOff + 160..SrhSegmentsOff + 176]
  {
    assert Endpoint.HasSrh(ctx.data);
    hide *;
    var u := LegacyUpdateDa(ctx.data, 10);
    FibRedirectKeepsPacket(fib, ctx.ingressIfindex, u);
    var f := FibRedirectV6(fib, ctx.ingressIfindex, u).frame;
    assert f[SrhSlOff] == f[12..][SrhSlOff - 12] == u[12..][SrhSlOff - 12];
    assert f[Ip6DaddrOff..Ip6DaddrOff + 16] == f[12..][Ip6DaddrOff - 12..Ip6DaddrOff + 4];
  }
}
