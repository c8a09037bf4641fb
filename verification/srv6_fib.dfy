/** The IPv6 FIB step of the data plane: the kernel's route lookup is an
    oracle; what is modelled is the query the program builds, the Ethernet
    rewrite on success and the mapping from lookup result to verdict. */
module Srv6Fib {
  import opened Bytes
  import opened Xdp

  /** `AF_INET6`. */
  const AfInet6: int := 10

  // `BPF_FIB_LKUP_RET_*` codes the program distinguishes; every other code
  // (not forwarded, forwarding disabled, no neighbour, ...) is a hand-off to
  // the kernel stack.
  const FibLkupRetSuccess: int := 0
  const FibLkupRetBlackhole: int := 1
  const FibLkupRetUnreachable: int := 2
  const FibLkupRetProhibit: int := 3

  /** The fields of `struct bpf_fib_lookup` the program fills in. */
  datatype FibParams = FibParams(family: int, ifindex: nat, src: Addr16, dst: Addr16)

  /** What `bpf_fib_lookup` hands back: its return code and, on success, the
      egress interface and the two MAC addresses. */
  datatype FibReply = FibReply(ret: int, ifindex: nat, dmac: Mac, smac: Mac)

  /** The kernel's routing table, seen from the program. */
  type FibOracle = FibParams -> FibReply

  /** `FIB_RESULT_REDIRECT` (0), `FIB_RESULT_DROP` (-1), `FIB_RESULT_PASS` (-2). */
  datatype FibResult = FibRedirect | FibDrop | FibPass

  predicate IsDropCode(ret: int)
  {
    ret == FibLkupRetBlackhole || ret == FibLkupRetUnreachable || ret == FibLkupRetProhibit
  }

  /** The lookup for the IPv6 header that follows the Ethernet header: family
      IPv6, the ingress interface, and the packet's own source and
      destination addresses. */
  function Ipv6Query(ingress: nat, frame: seq<Byte>): (q: FibParams)
    requires |frame| >= Ip6Off + Ipv6Hlen
    ensures q.family == AfInet6 && q.ifindex == ingress
    ensures q.src == frame[Ip6SaddrOff..Ip6SaddrOff + 16]
    ensures q.dst == frame[Ip6DaddrOff..Ip6DaddrOff + 16]
  {
    FibParams(AfInet6, ingress, frame[Ip6SaddrOff..Ip6SaddrOff + 16], frame[Ip6DaddrOff..Ip6DaddrOff + 16])
  }

  /** The Ethernet destination and source replaced by the next hop's MACs;
      every other octet of the frame is kept. */
  function RewriteMacs(frame: seq<Byte>, reply: FibReply): (r: seq<Byte>)
    requires |frame| >= EthHlen
    ensures |r| == |frame|
    ensures r[..6] == reply.dmac && r[6..12] == reply.smac
    ensures r[12..] == frame[12..]
  {
    var withDst := Splice(frame, 0, reply.dmac);
    var r := Splice(withDst, 6, reply.smac);
    assert r[..6] == withDst[..6];
    assert r[12..] == withDst[12..];
    r
  }

  /** The outcome of `srv6_fib_lookup_and_update`: its result code, the frame
      afterwards and the value of `*out_ifindex`. */
  datatype FibUpdate = FibUpdate(result: FibResult, frame: seq<Byte>, outIfindex: nat)

  /** `srv6_fib_lookup_and_update`: success rewrites the MACs and sets the
      egress interface; a blackhole, unreachable or prohibit route is a drop;
      any other code passes, and neither of those touches the frame or
      `*out_ifindex`. */
  function LookupAndUpdate(fib: FibOracle, ingress: nat, frame: seq<Byte>, outIfindex: nat): (r: FibUpdate)
    requires |frame| >= Ip6Off + Ipv6Hlen
    ensures var reply := fib(Ipv6Query(ingress, frame));
      && (r.result == FibRedirect <==> reply.ret == FibLkupRetSuccess)
      && (r.result == FibDrop <==> IsDropCode(reply.ret))
      && (r.result == FibRedirect ==> r.frame == RewriteMacs(frame, reply) && r.outIfindex == reply.ifindex)
      && (r.result != FibRedirect ==> r.frame == frame && r.outIfindex == outIfindex)
  {
    var reply := fib(Ipv6Query(ingress, frame));
    if reply.ret == FibLkupRetSuccess then
      FibUpdate(FibRedirect, RewriteMacs(frame, reply), reply.ifindex)
    else if IsDropCode(reply.ret) then
      FibUpdate(FibDrop, frame, outIfindex)
    else
      FibUpdate(FibPass, frame, outIfindex)
  }

  /** A verdict together with the frame it applies to. */
  datatype Forward = Forward(action: Action, frame: seq<Byte>)

  /** `srv6_fib_redirect`: a redirect to the egress interface on success, a
      drop for the three drop codes, a pass for everything else. */
  function FibRedirectV6(fib: FibOracle, ingress: nat, frame: seq<Byte>): (r: Forward)
    requires |frame| >= Ip6Off + Ipv6Hlen
    ensures var reply := fib(Ipv6Query(ingress, frame));
      && (reply.ret == FibLkupRetSuccess ==>
            r == Forward(Redirect(reply.ifindex), RewriteMacs(frame, reply)))
      && (IsDropCode(reply.ret) ==> r == Forward(Drop, frame))
      && (reply.ret != FibLkupRetSuccess && !IsDropCode(reply.ret) ==> r == Forward(Pass, frame))
  {
    // `ifindex` is an uninitialised local in the source; it is read only on
    // the redirect path, where the lookup has set it.
    var u := LookupAndUpdate(fib, ingress, frame, 0);
    match u.result
    case FibRedirect => Forward(Redirect(u.outIfindex), u.frame)
    case FibDrop => Forward(Drop, u.frame)
    case FibPass => Forward(Pass, u.frame)
  }

  /** The FIB step never leaves the length or the IP headers of the frame
      changed: only the two MAC addresses can differ. */
  lemma FibRedirectKeepsPacket(fib: FibOracle, ingress: nat, frame: seq<Byte>)
    requires |frame| >= Ip6Off + Ipv6Hlen
    ensures |FibRedirectV6(fib, ingress, frame).frame| == |frame|
    ensures FibRedirectV6(fib, ingress, frame).frame[12..] == frame[12..]
  {
  }
}
