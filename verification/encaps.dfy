/** H.Encaps (section 5.1 of RFC 8986): an outer IPv6 header and a fresh
    Segment Routing Header are put in front of the inner packet, which is
    carried unchanged, and the result is forwarded by a FIB lookup on the new
    outer addresses. */
module Encaps {
  import opened Bytes
  import opened Xdp
  import opened Wrappers
  import opened Entries
  import opened HeadendUtils
  import opened Srv6Fib
  import SrhCodec
  import Decaps
  import Endpoint

  /** Octets of an SRH carrying `n` segments. */
  function SrhLen(n: Byte): nat
  {
    SrhFixedLen + 16 * n
  }

  /** The hop limit of the outer header. */
  const OuterHopLimit: Byte := 64

  /** The outer IPv6 header (section 3 of RFC 8200): version 6 with zero
      traffic class and flow label, payload length covering the SRH and the
      inner packet in 16-bit arithmetic, next header Routing, hop limit 64,
      source the entry's source address, destination the entry's first
      segment. The entry's destination address is not used. */
  function OuterIpv6Header(entry: HeadendEntry, innerTotalLen: U16): (h: seq<Byte>)
    ensures |h| == Ipv6Hlen
  {
    [0x60, 0, 0, 0] + BE16(ToU16(SrhLen(entry.numSegments) + innerTotalLen))
      + [IpprotoRouting, OuterHopLimit] + entry.srcAddr + entry.segments[0]
  }

  /** The fixed part of the new SRH: next header the inner protocol, `hdrlen`
      the SRH length in 8-octet units beyond the first, routing type 4,
      `segments_left` and `first_segment` both `n-1` in 8-bit arithmetic,
      flags and tag zero. */
  function SrhFixedPart(innerProto: Byte, n: Byte): (h: seq<Byte>)
    ensures |h| == SrhFixedLen
    ensures n <= 127 ==> h[1] == 2 * n
  {
    assert SrhLen(n) / 8 == 1 + 2 * n;
    [innerProto, ToU8(SrhLen(n) / 8 - 1), Ipv6SrcrtType4, ToU8(n - 1), ToU8(n - 1), 0, 0, 0]
  }

  /** The frame H.Encaps is meant to produce, as a concatenation: the saved
      Ethernet header with EtherType IPv6, the outer IPv6 header, the SRH
      with the segment list in wire order, then the inner packet. */
  function EncapsFrame(savedEth: seq<Byte>, entry: HeadendEntry, innerProto: Byte,
                       innerTotalLen: U16, inner: seq<Byte>): (f: seq<Byte>)
    requires |savedEth| == EthHlen && entry.numSegments <= MaxSegments
    ensures |f| == EthHlen + Ipv6Hlen + SrhLen(entry.numSegments) + |inner|
  {
    savedEth[..EthProtoOff] + BE16(EthPIpv6) + OuterIpv6Header(entry, innerTotalLen)
      + SrhFixedPart(innerProto, entry.numSegments)
      + Flatten(WireOrder(entry.segments, entry.numSegments)) + inner
  }

  /** The four header writes of H.Encaps into a frame `d`, made in the order
      the program makes them, leave the concatenation of the headers followed
      by what `d` held after them. */
  lemma {:induction false} HeaderWrites(d: seq<Byte>, eth: seq<Byte>, ip: seq<Byte>, srh: seq<Byte>, segs: seq<Byte>)
    requires |eth| == EthHlen && |ip| == Ipv6Hlen && |srh| == SrhFixedLen
    requires SrhSegmentsOff + |segs| <= |d|
    ensures
      var d1 := Splice(d, Ip6Off, ip);
      var d2 := Splice(d1, SrhOff, srh);
      var d3 := Splice(d2, SrhSegmentsOff, segs);
      var d4 := Splice(d3, 0, eth);
      Splice(d4, EthProtoOff, BE16(EthPIpv6))
        == eth[..EthProtoOff] + BE16(EthPIpv6) + ip + srh + segs + d[SrhSegmentsOff + |segs|..]
  {
    var d1 := Splice(d, Ip6Off, ip);
    var d2 := Splice(d1, SrhOff, srh);
    var d3 := Splice(d2, SrhSegmentsOff, segs);
    SpliceAdjacent(d, Ip6Off, ip, srh);
    SpliceAdjacent(d, Ip6Off, ip + srh, segs);
    var hdrs := ip + srh + segs;
    assert d3 == Splice(d, EthHlen, hdrs);
    SpliceCommute(d, 0, eth, EthHlen, hdrs);
    SpliceAdjacent(d, 0, eth, hdrs);
    var d4 := Splice(d3, 0, eth);
    assert d4 == Splice(d, 0, eth + hdrs);
    SpliceInside(d, 0, eth + hdrs, EthProtoOff, BE16(EthPIpv6));
    var p := Splice(eth + hdrs, EthProtoOff, BE16(EthPIpv6));
    assert p == eth[..EthProtoOff] + BE16(EthPIpv6) + hdrs;
    assert Splice(d, 0, p) == p + d[|p|..];
  }

  /** Steps 5 to 8 of `do_h_encaps_core` on a frame already grown and bound
      checked: the outer IPv6 header and the SRH's fixed part are written,
      the segments copied (failing, after those writes, for a count outside
      1..10) and the saved Ethernet header put in front with EtherType IPv6.
      On success the frame is the intended layout over whatever followed
      the new SRH. */
  function WriteEncapsHeaders(d: seq<Byte>, savedEth: seq<Byte>, entry: HeadendEntry, innerProto: Byte,
                              innerTotalLen: U16): (r: Copied)
    requires |savedEth| == EthHlen && SrhOff + SrhLen(entry.numSegments) <= |d|
    ensures |r.buf| == |d|
    ensures r.ok <==> 1 <= entry.numSegments <= MaxSegments
    ensures r.ok ==>
      r.buf == EncapsFrame(savedEth, entry, innerProto, innerTotalLen, d[SrhOff + SrhLen(entry.numSegments)..])
  {
    var n := entry.numSegments;
    var ip := OuterIpv6Header(entry, innerTotalLen);
    var srh := SrhFixedPart(innerProto, n);
    var d1 := Splice(d, Ip6Off, ip);
    var d2 := Splice(d1, SrhOff, srh);
    var copied := CopySegmentsToSrh(d2, SrhSegmentsOff, entry.segments, n);
    if !copied.ok then
      copied
    else
      var d3 := Splice(copied.buf, 0, savedEth);
      var d4 := Splice(d3, EthProtoOff, BE16(EthPIpv6));
      HeaderWrites(d, savedEth, ip, srh, Flatten(WireOrder(entry.segments, n)));
      Copied(true, d4)
  }

  /** `do_h_encaps_core`. The frame is first grown by the outer IPv6 header
      and the SRH (a refusal is a drop); a failed bound check yields
      `boundFail`, the verdict of `CHECK_BOUND`; the headers are written and
      the segments copied (a segment count outside 1..10 is a drop); the
      saved Ethernet header goes in front with EtherType IPv6, and the FIB on
      the outer addresses decides the verdict. */
  function DoHEncapsCore(ctx: XdpMd, savedEth: seq<Byte>, entry: HeadendEntry, innerProto: Byte,
                         innerTotalLen: U16, fib: FibOracle, boundFail: Action): (r: Verdict)
    requires |savedEth| == EthHlen
    ensures var grow := Ipv6Hlen + SrhLen(entry.numSegments);
      AdjustHead(ctx, -(grow as int)).None? ==> r == Verdict(Drop, ctx)
    ensures var grow := Ipv6Hlen + SrhLen(entry.numSegments);
      AdjustHead(ctx, -(grow as int)).Some? ==>
        && |r.ctx.data| == |ctx.data| + grow
        && r.ctx.head == AdjustHead(ctx, -(grow as int)).value.head
        && r.ctx.ingressIfindex == ctx.ingressIfindex
  {
    match AdjustHead(ctx, -((Ipv6Hlen + SrhLen(entry.numSegments)) as int))
    case None => Verdict(Drop, ctx)
    case Some(c) => EncapsGrown(c, savedEth, entry, innerProto, innerTotalLen, fib, boundFail)
  }

  /** The two ways `do_h_encaps_core` fails once the frame has grown: a
      frame that held no Ethernet header fails a bound check, and a segment
      count outside 1..10 is a drop. */
  lemma {:induction false} DoHEncapsFails(ctx: XdpMd, savedEth: seq<Byte>, entry: HeadendEntry, innerProto: Byte,
                                         innerTotalLen: U16, fib: FibOracle, boundFail: Action)
    requires |savedEth| == EthHlen
    requires AdjustHead(ctx, -((Ipv6Hlen + SrhLen(entry.numSegments)) as int)).Some?
    ensures var r := DoHEncapsCore(ctx, savedEth, entry, innerProto, innerTotalLen, fib, boundFail);
      && (|ctx.data| < EthHlen ==> r.action == boundFail)
      && (|ctx.data| >= EthHlen && !(1 <= entry.numSegments <= MaxSegments) ==> r.action == Drop)
  {
    var c := AdjustHead(ctx, -((Ipv6Hlen + SrhLen(entry.numSegments)) as int)).value;
    assert DoHEncapsCore(ctx, savedEth, entry, innerProto, innerTotalLen, fib, boundFail)
      == EncapsGrown(c, savedEth, entry, innerProto, innerTotalLen, fib, boundFail);
    if |ctx.data| >= EthHlen {
      AdjustHeadGrow(ctx, Ipv6Hlen + SrhLen(entry.numSegments));
    }
  }

  /** When the frame has grown into `c`, held an Ethernet header and the
      entry has one to ten segments, the verdict and frame of
      `do_h_encaps_core` are the FIB's decision on the intended layout built
      over the original frame after its Ethernet header. */
  lemma {:induction false} DoHEncapsForwards(ctx: XdpMd, c: XdpMd, savedEth: seq<Byte>, entry: HeadendEntry,
                                            innerProto: Byte, innerTotalLen: U16, fib: FibOracle, boundFail: Action)
    requires |savedEth| == EthHlen && 1 <= entry.numSegments <= MaxSegments && |ctx.data| >= EthHlen
    requires AdjustHead(ctx, -((Ipv6Hlen + SrhLen(entry.numSegments)) as int)) == Some(c)
    ensures var r := DoHEncapsCore(ctx, savedEth, entry, innerProto, innerTotalLen, fib, boundFail);
      Forward(r.action, r.ctx.data)
      == FibRedirectV6(fib, ctx.ingressIfindex, EncapsFrame(savedEth, entry, innerProto, innerTotalLen, ctx.data[EthHlen..]))
  {
    hide *;
    CoreIsGrown(ctx, c, savedEth, entry, innerProto, innerTotalLen, fib, boundFail);
    GrowKeepsTail(ctx, c, savedEth, entry, innerProto, innerTotalLen);
  }

  /** Once the head adjustment has succeeded, the rest of the encapsulation
      is `EncapsGrown` on the adjusted context. */
  lemma CoreIsGrown(ctx: XdpMd, c: XdpMd, savedEth: seq<Byte>, entry: HeadendEntry,
                    innerProto: Byte, innerTotalLen: U16, fib: FibOracle, boundFail: Action)
    requires |savedEth| == EthHlen
    requires AdjustHead(ctx, -((Ipv6Hlen + SrhLen(entry.numSegments)) as int)) == Some(c)
    ensures DoHEncapsCore(ctx, savedEth, entry, innerProto, innerTotalLen, fib, boundFail)
      == EncapsGrown(c, savedEth, entry, innerProto, innerTotalLen, fib, boundFail)
  {
  }

  /** The part of `do_h_encaps_core` after the frame has been grown: the
      four `CHECK_BOUND`s (Ethernet, IPv6, the SRH's fixed part, the whole
      SRH) yield `boundFail` on a frame too short for the new headers; then
      the headers are written, a bad segment count is a drop, and the FIB on
      the outer addresses decides. */
  function EncapsGrown(c: XdpMd, savedEth: seq<Byte>, entry: HeadendEntry, innerProto: Byte,
                       innerTotalLen: U16, fib: FibOracle, boundFail: Action): (r: Verdict)
    requires |savedEth| == EthHlen
    ensures |r.ctx.data| == |c.data| && r.ctx.head == c.head && r.ctx.ingressIfindex == c.ingressIfindex
    ensures |c.data| < SrhOff + SrhLen(entry.numSegments) ==> r == Verdict(boundFail, c)
    ensures |c.data| >= SrhOff + SrhLen(entry.numSegments) && !(1 <= entry.numSegments <= MaxSegments) ==>
      r.action == Drop
    ensures |c.data| >= SrhOff + SrhLen(entry.numSegments) && 1 <= entry.numSegments <= MaxSegments ==>
      var frame := EncapsFrame(savedEth, entry, innerProto, innerTotalLen, c.data[SrhOff + SrhLen(entry.numSegments)..]);
      Forward(r.action, r.ctx.data) == FibRedirectV6(fib, c.ingressIfindex, frame)
  {
    var n := entry.numSegments;
    var d := c.data;
    if |d| < EthHlen || |d| < Ip6Off + Ipv6Hlen || |d| < SrhOff + SrhFixedLen || |d| < SrhOff + SrhLen(n) then
      Verdict(boundFail, c)
    else
      var h := WriteEncapsHeaders(d, savedEth, entry, innerProto, innerTotalLen);
      if !h.ok then
        Verdict(Drop, c.(data := h.buf))
      else
        var fw := FibRedirectV6(fib, c.ingressIfindex, h.buf);
        FibOnWrittenHeaders(d, savedEth, entry, innerProto, innerTotalLen, fib, c.ingressIfindex);
        Verdict(fw.action, c.(data := fw.frame))
  }

  /** The FIB decision on the written frame is the decision on the intended
      layout. */
  lemma {:induction false} FibOnWrittenHeaders(d: seq<Byte>, savedEth: seq<Byte>, entry: HeadendEntry, innerProto: Byte,
                                              innerTotalLen: U16, fib: FibOracle, ing: nat)
    requires |savedEth| == EthHlen && SrhOff + SrhLen(entry.numSegments) <= |d|
    requires WriteEncapsHeaders(d, savedEth, entry, innerProto, innerTotalLen).ok
    ensures var fw := FibRedirectV6(fib, ing, WriteEncapsHeaders(d, savedEth, entry, innerProto, innerTotalLen).buf);
      Forward(fw.action, fw.frame)
      == FibRedirectV6(fib, ing, EncapsFrame(savedEth, entry, innerProto, innerTotalLen, d[SrhOff + SrhLen(entry.numSegments)..]))
  {
  }

  /** Growing the frame into `c` for `n` segments leaves the old frame
      behind the new headers: what followed its Ethernet header starts right
      after the SRH, and the encapsulated frame built from either view is
      the same. */
  lemma {:induction false} GrowKeepsTail(ctx: XdpMd, c: XdpMd, savedEth: seq<Byte>, entry: HeadendEntry,
                                        innerProto: Byte, innerTotalLen: U16)
    requires |savedEth| == EthHlen && entry.numSegments <= MaxSegments && |ctx.data| >= EthHlen
    requires AdjustHead(ctx, -((Ipv6Hlen + SrhLen(entry.numSegments)) as int)) == Some(c)
    ensures |c.data| >= SrhOff + SrhLen(entry.numSegments)
    ensures c.data[SrhOff + SrhLen(entry.numSegments)..] == ctx.data[EthHlen..]
    ensures c.ingressIfindex == ctx.ingressIfindex
  {
    var grow := Ipv6Hlen + SrhLen(entry.numSegments);
    AdjustHeadGrow(ctx, grow);
    assert SrhOff + SrhLen(entry.numSegments) == EthHlen + grow;
    assert c.data[EthHlen + grow..] == c.data[grow..][EthHlen..];
  }

  /** The conditions under which H.Encaps gets as far as the FIB lookup: the
      headroom holds the new headers, the frame held an Ethernet header and
      the entry has between one and ten segments. */
  predicate Encapsulates(ctx: XdpMd, entry: HeadendEntry)
  {
    && 1 <= entry.numSegments <= MaxSegments
    && Ipv6Hlen + SrhLen(entry.numSegments) <= |ctx.head|
    && |ctx.data| >= EthHlen
  }

  /** The frame H.Encaps forwards, whatever the FIB decides, is the intended
      layout: the FIB touches at most the two MAC addresses. */
  lemma {:induction false} EncapsLayout(ctx: XdpMd, savedEth: seq<Byte>, entry: HeadendEntry, innerProto: Byte,
                                       innerTotalLen: U16, fib: FibOracle, boundFail: Action)
    requires |savedEth| == EthHlen && Encapsulates(ctx, entry)
    ensures
      var r := DoHEncapsCore(ctx, savedEth, entry, innerProto, innerTotalLen, fib, boundFail);
      var frame := EncapsFrame(savedEth, entry, innerProto, innerTotalLen, ctx.data[EthHlen..]);
      |r.ctx.data| == |frame| && r.ctx.data[EthProtoOff..] == frame[EthProtoOff..]
  {
    var r := DoHEncapsCore(ctx, savedEth, entry, innerProto, innerTotalLen, fib, boundFail);
    var frame := EncapsFrame(savedEth, entry, innerProto, innerTotalLen, ctx.data[EthHlen..]);
    var grow := Ipv6Hlen + SrhLen(entry.numSegments);
    assert AdjustHead(ctx, -(grow as int)).Some?;
    DoHEncapsForwards(ctx, AdjustHead(ctx, -(grow as int)).value, savedEth, entry, innerProto, innerTotalLen, fib, boundFail);
    assert r.ctx.data == FibRedirectV6(fib, ctx.ingressIfindex, frame).frame;
  }

  /** The octets of an H.Encaps frame from the EtherType on, read back field
      by field, for any frame `g` that agrees with the intended layout there
      (the FIB rewrites only the MAC addresses in front of it). */
  lemma {:induction false} FrameFields(g: seq<Byte>, savedEth: seq<Byte>, entry: HeadendEntry, innerProto: Byte,
                                      innerTotalLen: U16, inner: seq<Byte>)
    requires |savedEth| == EthHlen && 1 <= entry.numSegments <= MaxSegments
    requires var frame := EncapsFrame(savedEth, entry, innerProto, innerTotalLen, inner);
      |g| == |frame| && g[EthProtoOff..] == frame[EthProtoOff..]
    ensures
      var n := entry.numSegments;
      && |g| == |inner| + EthHlen + Ipv6Hlen + SrhFixedLen + 16 * n
      && EthProto(g) == EthPIpv6
      && g[Ip6Off] == 0x60 && g[Ip6Off + 1] == 0 && g[Ip6Off + 2] == 0 && g[Ip6Off + 3] == 0
      && ReadBE16(g, Ip6Off + 4) == (SrhFixedLen + 16 * n + innerTotalLen) % 0x1_0000
      && g[Ip6NexthdrOff] == IpprotoRouting && g[Ip6NexthdrOff + 1] == 64
      && g[Ip6SaddrOff..Ip6SaddrOff + 16] == entry.srcAddr
      && g[Ip6DaddrOff..Ip6DaddrOff + 16] == entry.segments[0]
      && g[SrhOff..] == SrhFixedPart(innerProto, n) + Flatten(WireOrder(entry.segments, n)) + inner
      && g[SrhSegmentsOff + 16 * n..] == inner
  {
    var n := entry.numSegments;
    FrameLayout(g, savedEth, entry, innerProto, innerTotalLen, inner);
    OuterHeaderFields(g, entry, innerTotalLen);
    assert g[SrhSegmentsOff + 16 * n..] == g[SrhOff..][SrhFixedLen + 16 * n..];
  }

  /** Where the Ethernet type, the outer header and the SRH onwards lie in a
      frame that agrees with the intended layout from the EtherType on. */
  lemma {:induction false} FrameLayout(g: seq<Byte>, savedEth: seq<Byte>, entry: HeadendEntry, innerProto: Byte,
                                       innerTotalLen: U16, inner: seq<Byte>)
    requires |savedEth| == EthHlen && 1 <= entry.numSegments <= MaxSegments
    requires var frame := EncapsFrame(savedEth, entry, innerProto, innerTotalLen, inner);
      |g| == |frame| && g[EthProtoOff..] == frame[EthProtoOff..]
    ensures |g| == |inner| + EthHlen + Ipv6Hlen + SrhFixedLen + 16 * entry.numSegments
    ensures g[EthProtoOff..EthHlen] == BE16(EthPIpv6)
    ensures g[Ip6Off..Ip6Off + Ipv6Hlen] == OuterIpv6Header(entry, innerTotalLen)
    ensures g[SrhOff..] == SrhFixedPart(innerProto, entry.numSegments)
      + Flatten(WireOrder(entry.segments, entry.numSegments)) + inner
  {
    assert |g| >= EthProtoOff && |BE16(EthPIpv6)| == 2;
    hide *;
    EncapsFrameTail(savedEth, entry, innerProto, innerTotalLen, inner);
    SplitAfterEthernet(g, BE16(EthPIpv6), OuterIpv6Header(entry, innerTotalLen),
      SrhFixedPart(innerProto, entry.numSegments) + Flatten(WireOrder(entry.segments, entry.numSegments)) + inner);
  }

  /** The intended frame from the EtherType on: the EtherType, the outer
      header, then the SRH and the inner packet. */
  lemma {:induction false} EncapsFrameTail(savedEth: seq<Byte>, entry: HeadendEntry, innerProto: Byte,
                                           innerTotalLen: U16, inner: seq<Byte>)
    requires |savedEth| == EthHlen && 1 <= entry.numSegments <= MaxSegments
    ensures EncapsFrame(savedEth, entry, innerProto, innerTotalLen, inner)[EthProtoOff..]
      == BE16(EthPIpv6) + OuterIpv6Header(entry, innerTotalLen)
        + (SrhFixedPart(innerProto, entry.numSegments) + Flatten(WireOrder(entry.segments, entry.numSegments)) + inner)
  {
    hide OuterIpv6Header, SrhFixedPart, Flatten, WireOrder;
  }

  /** A frame whose octets from the EtherType on are the EtherType, an
      outer IPv6 header and the rest holds each of them at its offset. */
  lemma {:induction false} SplitAfterEthernet(g: seq<Byte>, ethType: seq<Byte>, ip: seq<Byte>, rest: seq<Byte>)
    requires |ethType| == 2 && |ip| == Ipv6Hlen
    requires |g| >= EthProtoOff && g[EthProtoOff..] == ethType + ip + rest
    ensures |g| == EthHlen + Ipv6Hlen + |rest|
    ensures g[EthProtoOff..EthHlen] == ethType
    ensures g[Ip6Off..Ip6Off + Ipv6Hlen] == ip
    ensures g[SrhOff..] == rest
  {
    assert g[Ip6Off..] == g[EthProtoOff..][2..];
  }

  /** The outer IPv6 header's fields, read back from a frame that holds it
      at its place. */
  lemma {:induction false} OuterHeaderFields(g: seq<Byte>, entry: HeadendEntry, innerTotalLen: U16)
    requires |g| >= Ip6Off + Ipv6Hlen
    requires g[Ip6Off..Ip6Off + Ipv6Hlen] == OuterIpv6Header(entry, innerTotalLen)
    ensures
      var n := entry.numSegments;
      && g[Ip6Off] == 0x60 && g[Ip6Off + 1] == 0 && g[Ip6Off + 2] == 0 && g[Ip6Off + 3] == 0
      && ReadBE16(g, Ip6Off + 4) == (SrhFixedLen + 16 * n + innerTotalLen) % 0x1_0000
      && g[Ip6NexthdrOff] == IpprotoRouting && g[Ip6NexthdrOff + 1] == 64
      && g[Ip6SaddrOff..Ip6SaddrOff + 16] == entry.srcAddr
      && g[Ip6DaddrOff..Ip6DaddrOff + 16] == entry.segments[0]
  {
    var ip := OuterIpv6Header(entry, innerTotalLen);
    var h := g[Ip6Off..Ip6Off + Ipv6Hlen];
    assert ip[4..6] == BE16(ToU16(SrhLen(entry.numSegments) + innerTotalLen));
    assert g[Ip6Off + 4] == h[4] && g[Ip6Off + 5] == h[5];
    SliceOfSlice(g, Ip6Off, Ip6Off + Ipv6Hlen, 8, 24);
    SliceOfSlice(g, Ip6Off, Ip6Off + Ipv6Hlen, 24, 40);
  }

  /** The frame H.Encaps forwards, read back field by field: EtherType IPv6;
      the outer header's version, payload length, next header, hop limit and
      addresses; the inner packet unchanged after the SRH. */
  lemma {:induction false} EncapsHeaderFields(ctx: XdpMd, savedEth: seq<Byte>, entry: HeadendEntry, innerProto: Byte,
                                             innerTotalLen: U16, fib: FibOracle, boundFail: Action)
    requires |savedEth| == EthHlen && Encapsulates(ctx, entry)
    ensures
      var f := DoHEncapsCore(ctx, savedEth, entry, innerProto, innerTotalLen, fib, boundFail).ctx.data;
      var n := entry.numSegments;
      && |f| == |ctx.data| + Ipv6Hlen + SrhFixedLen + 16 * n
      && EthProto(f) == EthPIpv6
      && f[Ip6Off] == 0x60 && f[Ip6Off + 1] == 0 && f[Ip6Off + 2] == 0 && f[Ip6Off + 3] == 0
      && ReadBE16(f, Ip6Off + 4) == (SrhFixedLen + 16 * n + innerTotalLen) % 0x1_0000
      && f[Ip6NexthdrOff] == IpprotoRouting && f[Ip6NexthdrOff + 1] == 64
      && f[Ip6SaddrOff..Ip6SaddrOff + 16] == entry.srcAddr
      && f[Ip6DaddrOff..Ip6DaddrOff + 16] == entry.segments[0]
      && f[SrhSegmentsOff + 16 * n..] == ctx.data[EthHlen..]
  {
    var f := DoHEncapsCore(ctx, savedEth, entry, innerProto, innerTotalLen, fib, boundFail).ctx.data;
    EncapsLayout(ctx, savedEth, entry, innerProto, innerTotalLen, fib, boundFail);
    FrameFields(f, savedEth, entry, innerProto, innerTotalLen, ctx.data[EthHlen..]);
  }

  /** The SRH H.Encaps writes for a wire-order list `w` of `n` segments,
      decoded with the control plane's codec: next header the inner
      protocol, `hdrlen = 2n`, type 4, `segments_left` and `last_entry` both
      `n-1`, flags and tag zero, and exactly the list `w`. */
  lemma {:induction false} SrhDecodes(srh: seq<Byte>, innerProto: Byte, n: Byte, w: seq<Addr16>, inner: seq<Byte>)
    requires 1 <= n <= MaxSegments && |w| == n
    requires srh == SrhFixedPart(innerProto, n) + Flatten(w) + inner
    ensures SrhCodec.Decodable(srh)
    ensures
      var d := SrhCodec.DecodeFromBytes(SrhCodec.Fresh, srh);
      && d.err == None
      && d.layer.nextHeader == innerProto && d.layer.hdrExtLen == 2 * n
      && d.layer.routingType == Ipv6SrcrtType4
      && d.layer.segmentsLeft == n - 1 && d.layer.lastEntry == n - 1
      && d.layer.flags == 0 && d.layer.tag == 0
      && d.layer.segments == w
  {
    var fixedPart := SrhFixedPart(innerProto, n);
    var segs := Flatten(w);
    assert srh[..8] == fixedPart;
    assert srh[4] == n - 1;
    assert SrhCodec.SegmentCount(srh[4]) == n;
    var d := SrhCodec.DecodeFromBytes(SrhCodec.Fresh, srh);
    forall i | 0 <= i < n
      ensures d.layer.segments[i] == w[i]
    {
      SegmentWindow(fixedPart, segs, inner, i);
    }
    assert srh[6] == 0 && srh[7] == 0;
  }

  lemma SegmentWindow(fixedPart: seq<Byte>, segs: seq<Byte>, inner: seq<Byte>, i: nat)
    requires |fixedPart| == 8 && 16 * i + 16 <= |segs|
    ensures (fixedPart + segs + inner)[8 + 16 * i..24 + 16 * i] == segs[16 * i..16 * i + 16]
  {
  }

  /** The SRH at its place in `f` decodes, with the Go codec and without
      error, to the header H.Encaps writes for `entry`: next header
      `innerProto`, Hdr Ext Len 2n, routing type 4, Segments Left and Last
      Entry n - 1, no flags or tag, the configured segments in reverse order;
      and the segment Segments Left points to is the outer destination. */
  predicate SrhReadsBack(f: seq<Byte>, entry: HeadendEntry, innerProto: Byte)
  {
    var n := entry.numSegments;
    && 1 <= n <= MaxSegments && |f| >= SrhOff
    && SrhCodec.Decodable(f[SrhOff..])
    && var d := SrhCodec.DecodeFromBytes(SrhCodec.Fresh, f[SrhOff..]);
    && d.err == None
    && d.layer.nextHeader == innerProto && d.layer.hdrExtLen == 2 * n
    && d.layer.routingType == Ipv6SrcrtType4
    && d.layer.segmentsLeft == n - 1 && d.layer.lastEntry == n - 1
    && d.layer.flags == 0 && d.layer.tag == 0
    && |d.layer.segments| == n
    && (forall i | 0 <= i < n :: d.layer.segments[i] == entry.segments[n - 1 - i])
    && d.layer.segments[d.layer.segmentsLeft] == f[Ip6DaddrOff..Ip6DaddrOff + 16]
  }

  /** The SRH of the frame H.Encaps forwards decodes to the header it meant
      to write (see `SrhDecodes`). */
  lemma {:induction false} EncapsSrhDecodes(ctx: XdpMd, savedEth: seq<Byte>, entry: HeadendEntry, innerProto: Byte,
                                           innerTotalLen: U16, fib: FibOracle, boundFail: Action)
    requires |savedEth| == EthHlen && Encapsulates(ctx, entry)
    ensures SrhReadsBack(DoHEncapsCore(ctx, savedEth, entry, innerProto, innerTotalLen, fib, boundFail).ctx.data,
                         entry, innerProto)
  {
    var f := DoHEncapsCore(ctx, savedEth, entry, innerProto, innerTotalLen, fib, boundFail).ctx.data;
    EncapsLayout(ctx, savedEth, entry, innerProto, innerTotalLen, fib, boundFail);
    FrameSrhDecodes(f, savedEth, entry, innerProto, innerTotalLen, ctx.data[EthHlen..]);
  }

  /** `EncapsSrhDecodes` for any frame that agrees with the intended layout
      from the EtherType on. */
  lemma {:induction false} FrameSrhDecodes(g: seq<Byte>, savedEth: seq<Byte>, entry: HeadendEntry, innerProto: Byte,
                                          innerTotalLen: U16, inner: seq<Byte>)
    requires |savedEth| == EthHlen && 1 <= entry.numSegments <= MaxSegments
    requires var frame := EncapsFrame(savedEth, entry, innerProto, innerTotalLen, inner);
      |g| == |frame| && g[EthProtoOff..] == frame[EthProtoOff..]
    ensures SrhReadsBack(g, entry, innerProto)
  {
    FrameFields(g, savedEth, entry, innerProto, innerTotalLen, inner);
    ActiveSegmentIsDestination(g, entry, innerProto, inner);
  }

  lemma {:induction false} ActiveSegmentIsDestination(f: seq<Byte>, entry: HeadendEntry, innerProto: Byte, inner: seq<Byte>)
    requires 1 <= entry.numSegments <= MaxSegments
    requires |f| >= SrhOff
    requires f[Ip6DaddrOff..Ip6DaddrOff + 16] == entry.segments[0]
    requires f[SrhOff..] == SrhFixedPart(innerProto, entry.numSegments)
      + Flatten(WireOrder(entry.segments, entry.numSegments)) + inner
    ensures SrhReadsBack(f, entry, innerProto)
  {
    var n := entry.numSegments;
    var w := WireOrder(entry.segments, n);
    SrhDecodes(f[SrhOff..], innerProto, n, w, inner);
    assert w[n - 1] == entry.segments[0];
  }

  /** Decapsulation undoes H.Encaps: stripping the headers of a frame H.Encaps
      built, with the SRH's own `nexthdr` and `hdrlen`, succeeds when the
      inner packet is at least an Ethernet header long and leaves the
      forwarded Ethernet header followed by the original inner packet. */
  lemma {:induction false} DecapUndoesEncaps(ctx: XdpMd, savedEth: seq<Byte>, entry: HeadendEntry, innerProto: Byte,
                                            innerTotalLen: U16, fib: FibOracle, boundFail: Action)
    requires |savedEth| == EthHlen && Encapsulates(ctx, entry)
    requires |ctx.data| >= 2 * EthHlen
    ensures
      var e := DoHEncapsCore(ctx, savedEth, entry, innerProto, innerTotalLen, fib, boundFail).ctx;
      var d := Decaps.Srv6Decap(e, e.data[SrhNexthdrOff], e.data[SrhHdrlenOff], innerProto);
      d.ok && d.ctx.data == e.data[..EthHlen] + ctx.data[EthHlen..]
  {
    var e := DoHEncapsCore(ctx, savedEth, entry, innerProto, innerTotalLen, fib, boundFail).ctx;
    var n := entry.numSegments;
    var inner := ctx.data[EthHlen..];
    EncapsLayout(ctx, savedEth, entry, innerProto, innerTotalLen, fib, boundFail);
    FrameFields(e.data, savedEth, entry, innerProto, innerTotalLen, inner);
    DecapStripsEncapsHeaders(e, innerProto, n, Flatten(WireOrder(entry.segments, n)), inner);
  }

  /** Decapsulating a frame whose SRH is the one H.Encaps writes, over a
      `n`-segment list, leaves its Ethernet header followed by what came after
      the SRH. */
  lemma {:induction false} DecapStripsEncapsHeaders(e: XdpMd, innerProto: Byte, n: Byte, segs: seq<Byte>, inner: seq<Byte>)
    requires 1 <= n <= MaxSegments && |segs| == 16 * n && |inner| >= EthHlen
    requires |e.data| >= SrhOff && e.data[SrhOff..] == SrhFixedPart(innerProto, n) + segs + inner
    ensures
      var d := Decaps.Srv6Decap(e, e.data[SrhNexthdrOff], e.data[SrhHdrlenOff], innerProto);
      d.ok && d.ctx.data == e.data[..EthHlen] + inner
  {
    var srh := SrhFixedPart(innerProto, n) + segs + inner;
    assert e.data[SrhNexthdrOff] == srh[0] == innerProto;
    assert e.data[SrhHdrlenOff] == srh[1] == 2 * n;
    assert Decaps.CalcDecapStripLen(e.data[SrhHdrlenOff]) == SrhSegmentsOff + 16 * n;
    assert e.data[SrhSegmentsOff + 16 * n..] == srh[SrhFixedLen + 16 * n..];
  }

  /** End.DX6 at the last segment of a one-segment H.Encaps frame whose
      inner packet is IPv6: Segments Left is already zero and the SRH names
      IPv6 as the next header, so the outer headers are stripped and the FIB
      sees the original Ethernet header followed by the inner packet; the
      verdict is the FIB's, never a pass. */
  lemma {:induction false} EndDx6DeliversInner(fib: FibOracle, e: XdpMd, segs: seq<Byte>, inner: seq<Byte>)
    requires |segs| == 16 && |inner| >= Ipv6Hlen
    requires |e.data| >= SrhOff && e.data[SrhOff..] == SrhFixedPart(IpprotoIpv6, 1) + segs + inner
    ensures Endpoint.HasSrh(e.data)
    ensures
      var r := Endpoint.ProcessEndDx6(fib, e);
      var fw := FibRedirectV6(fib, e.ingressIfindex, e.data[..EthHlen] + inner);
      && r.action == Endpoint.NoPassAfterDecap(fw.action) && r.action != Pass
      && r.ctx.data == fw.frame
  {
    var srh := SrhFixedPart(IpprotoIpv6, 1) + segs + inner;
    assert e.data[SrhSlOff] == srh[3] == 0;
    DecapStripsEncapsHeaders(e, IpprotoIpv6, 1, segs, inner);
  }

  /** The same for End.DX4 with an IPv4 inner packet: the IPv4 forwarding
      oracle sees the original Ethernet header, with its EtherType set to
      IPv4, followed by the inner packet. */
  lemma {:induction false} EndDx4DeliversInner(fib4: Endpoint.FibRedirectV4Oracle, e: XdpMd, segs: seq<Byte>,
                                              inner: seq<Byte>)
    requires |segs| == 16 && |inner| >= Ipv4Hlen
    requires |e.data| >= SrhOff && e.data[SrhOff..] == SrhFixedPart(IpprotoIpip, 1) + segs + inner
    ensures Endpoint.HasSrh(e.data)
    ensures
      var r := Endpoint.ProcessEndDx4(fib4, e);
      var fw := fib4(e.ingressIfindex, Splice(e.data[..EthHlen] + inner, EthProtoOff, BE16(EthPIp)));
      && r.action == Endpoint.NoPassAfterDecap(fw.action) && r.action != Pass
      && r.ctx.data == fw.frame
  {
    var srh := SrhFixedPart(IpprotoIpip, 1) + segs + inner;
    assert e.data[SrhSlOff] == srh[3] == 0;
    DecapStripsEncapsHeaders(e, IpprotoIpip, 1, segs, inner);
  }
}
