/** Decapsulation for End.DX4 and End.DX6: the Ethernet, outer IPv6 and SRH
    headers are cut from the front of the frame and the saved Ethernet header
    is put back in front of the inner packet. */
module Decaps {
  import opened Bytes
  import opened Xdp
  import SrhCodec

  /** `calc_decap_strip_len`: the octets in front of the inner packet, for an
      SRH whose `hdrlen` counts 8-octet units beyond its first 8 octets. */
  function CalcDecapStripLen(hdrlen: Byte): (n: nat)
    ensures n >= EthHlen + Ipv6Hlen + SrhFixedLen
    ensures (n - EthHlen - Ipv6Hlen) % 8 == 0
  {
    EthHlen + Ipv6Hlen + 8 + hdrlen * 8
  }

  /** The strip length is the Ethernet and IPv6 headers plus exactly the
      octets the SRH encoder emits for the same `hdrlen`. */
  lemma StripLenMatchesEncodedSrh(l: SrhCodec.Srv6Layer)
    ensures CalcDecapStripLen(l.hdrExtLen) == EthHlen + Ipv6Hlen + SrhCodec.EncodedLen(l)
  {
  }

  /** What `srv6_decap` leaves behind: 0 (`ok`) or -1, and the context. */
  datatype Decapped = Decapped(ok: bool, ctx: XdpMd)

  /** `srv6_decap`, given the SRH's `nexthdr` and `hdrlen` octets: refuses a
      frame without an Ethernet header and an inner protocol other than the
      expected one; otherwise saves the Ethernet header, cuts the strip length
      from the front, grows the front back by an Ethernet header and writes
      the saved one there. */
  function Srv6Decap(ctx: XdpMd, srhNexthdr: Byte, srhHdrlen: Byte, expected: Byte): (r: Decapped)
    ensures r.ok <==>
      && |ctx.data| >= EthHlen
      && srhNexthdr == expected
      && CalcDecapStripLen(srhHdrlen) + EthHlen <= |ctx.data|
    ensures !r.ok ==> r.ctx == ctx
    ensures r.ok ==>
      var strip := CalcDecapStripLen(srhHdrlen);
      && r.ctx.data == ctx.data[..EthHlen] + ctx.data[strip..]
      && r.ctx.head == ctx.head + ctx.data[..strip - EthHlen]
      && r.ctx.ingressIfindex == ctx.ingressIfindex
  {
    if |ctx.data| < EthHlen then Decapped(false, ctx)
    else if srhNexthdr != expected then Decapped(false, ctx)
    else
      var savedEth := ctx.data[..EthHlen];
      var strip := CalcDecapStripLen(srhHdrlen);
      match AdjustHead(ctx, strip)
      case None => Decapped(false, ctx)
      case Some(shrunk) =>
        match AdjustHead(shrunk, -(EthHlen as int))
        case None => assert false; Decapped(false, shrunk)
        case Some(grown) =>
          if |grown.data| < EthHlen then assert false; Decapped(false, grown)
          else
            assert grown.data[EthHlen..] == ctx.data[strip..];
            assert grown.head == ctx.head + ctx.data[..strip - EthHlen] by {
              assert shrunk.head == ctx.head + ctx.data[..strip];
              assert grown.head == shrunk.head[..|shrunk.head| - EthHlen];
              assert ctx.data[..strip][..strip - EthHlen] == ctx.data[..strip - EthHlen];
            }
            var restored := Splice(grown.data, 0, savedEth);
            assert restored == savedEth + ctx.data[strip..];
            Decapped(true, grown.(data := restored))
  }

  /** The Ethernet header after a successful decapsulation is the original one
      octet for octet, EtherType included; everything after it is what
      followed the SRH. */
  lemma {:induction false} DecapKeepsEthernet(ctx: XdpMd, srhNexthdr: Byte, srhHdrlen: Byte, expected: Byte)
    requires Srv6Decap(ctx, srhNexthdr, srhHdrlen, expected).ok
    ensures Srv6Decap(ctx, srhNexthdr, srhHdrlen, expected).ctx.data[..EthHlen] == ctx.data[..EthHlen]
    ensures Srv6Decap(ctx, srhNexthdr, srhHdrlen, expected).ctx.data[EthHlen..]
      == ctx.data[CalcDecapStripLen(srhHdrlen)..]
  {
    var r := Srv6Decap(ctx, srhNexthdr, srhHdrlen, expected);
    var strip := CalcDecapStripLen(srhHdrlen);
    assert r.ctx.data == ctx.data[..EthHlen] + ctx.data[strip..];
  }
}
