/** The control-plane table layer: CIDR and address parsing, LPM key
    construction, segment-list parsing and formatting, and the
    Create/Get/Delete/List operations on the SID-function, headend-v4 and
    headend-v6 tables. Go's `net` text parsing and formatting are oracles. */
module Maps {
  import opened Bytes
  import opened Wrappers
  import opened Entries
  import opened Xdp
  import Lpm

  const IPv4AddrLen: nat := 4
  const IPv6AddrLen: nat := 16

  /** `max_entries` of each of the three LPM tables. */
  const MaxEntries: nat := 1024

  /** Why an operation failed. */
  datatype MapError =
    | InvalidCidr        // neither a CIDR nor an address
    | NotIpv4            // `To4()` is nil
    | NotIpv6            // `To16()` is nil
    | InvalidArgument    // the kernel refuses a prefix longer than the key
    | NoSpace            // the table is full
    | NotFound           // no such key

  /** The network `net.ParseCIDR` returns: its (masked) address and the
      number of one bits of its mask. */
  datatype IpNet = IpNet(ip: seq<Byte>, ones: nat)

  /** The Go `net` functions the layer calls, as oracles: `net.ParseCIDR`
      (its network part), `net.ParseIP` and `net.IP.String`. A nil
      `net.IP` is `None`. */
  datatype GoNet = GoNet(
    parseCIDR: string -> Option<IpNet>,
    parseIP: string -> Option<seq<Byte>>,
    ipString: seq<Byte> -> string)

  /** The first twelve octets of an IPv4-mapped IPv6 address. */
  const V4InV6Prefix: seq<Byte> := [0, 0, 0, 0, 0, 0, 0, 0, 0, 0, 0xff, 0xff]

  /** `net.IP.To4`: a 4-octet address as is, an IPv4-mapped 16-octet address
      as its last four octets, anything else nil. */
  function To4(ip: seq<Byte>): (r: Option<seq<Byte>>)
    ensures r.Some? <==> |ip| == IPv4AddrLen || (|ip| == IPv6AddrLen && ip[..12] == V4InV6Prefix)
    ensures r.Some? ==> |r.value| == IPv4AddrLen && r.value == ip[|ip| - IPv4AddrLen..]
  {
    if |ip| == IPv4AddrLen then Some(ip)
    else if |ip| == IPv6AddrLen && ip[..12] == V4InV6Prefix then Some(ip[12..])
    else None
  }

  /** `net.IP.To16`: a 16-octet address as is, a 4-octet address widened to
      its IPv4-mapped form, anything else nil. */
  function To16(ip: seq<Byte>): (r: Option<Addr16>)
    ensures r.Some? <==> |ip| == IPv4AddrLen || |ip| == IPv6AddrLen
    ensures r.Some? ==> r.value[IPv6AddrLen - |ip|..] == ip
    ensures |ip| == IPv4AddrLen ==> r.Some? && r.value[..12] == V4InV6Prefix
  {
    if |ip| == IPv6AddrLen then Some(ip)
    else if |ip| == IPv4AddrLen then Some(V4InV6Prefix + ip)
    else None
  }

  /** Widening and narrowing are inverse: an IPv4 address survives the trip
      through its mapped form, and an address `To4` accepts is the
      widening of what it returns. */
  lemma {:induction false} To4To16RoundTrip(ip: seq<Byte>)
    ensures |ip| == IPv4AddrLen ==> To16(ip).Some? && To4(To16(ip).value) == Some(ip)
    ensures |ip| == IPv6AddrLen && To4(ip).Some? ==> To16(To4(ip).value) == Some(ip)
    ensures To16(ip).None? <==> To4(ip).None? && |ip| != IPv6AddrLen
  {
    if |ip| == IPv4AddrLen {
      var w := V4InV6Prefix + ip;
      assert w[..12] == V4InV6Prefix && w[12..] == ip;
    }
    if |ip| == IPv6AddrLen && To4(ip).Some? {
      assert V4InV6Prefix + ip[12..] == ip[..12] + ip[12..] == ip;
    }
  }

  /** What `ParseCIDR` returns on success: the address and prefix length. */
  datatype Cidr = Cidr(ip: seq<Byte>, prefixLen: nat)

  /** `ParseCIDR`: the network of a CIDR text; failing that, a bare address,
      with prefix length 32 if it has an IPv4 form and 128 otherwise; text
      that is neither is an error. */
  function ParseCIDR(net: GoNet, s: string): (r: Result<Cidr, MapError>)
    ensures net.parseCIDR(s).Some? ==>
      r == Success(Cidr(net.parseCIDR(s).value.ip, net.parseCIDR(s).value.ones))
    ensures net.parseCIDR(s).None? ==> (r.Failure? <==> net.parseIP(s).None?)
    ensures r.Failure? ==> r.error == InvalidCidr
    ensures net.parseCIDR(s).None? && r.Success? ==>
      var ip := net.parseIP(s).value;
      && (To4(ip).Some? ==> r.value == Cidr(To4(ip).value, 32))
      && (To4(ip).None? ==> r.value.prefixLen == 128 && (To16(ip).Some? ==> r.value.ip == To16(ip).value))
  {
    match net.parseCIDR(s)
    case Some(n) => Success(Cidr(n.ip, n.ones))
    case None =>
      match net.parseIP(s)
      case None => Failure(InvalidCidr)
      case Some(ip) =>
        match To4(ip)
        case Some(ip4) => Success(Cidr(ip4, 32))
        case None =>
          match To16(ip)
          case Some(ip16) => Success(Cidr(ip16, 128))
          case None => Success(Cidr([], 128))
  }

  /** A bare address `net.ParseIP` accepts (always 16 octets) becomes a host
      route: a prefix covering the whole address, in the family `To4`
      chooses. */
  lemma BareAddressIsHostRoute(net: GoNet, s: string)
    requires net.parseCIDR(s).None? && net.parseIP(s).Some?
    requires |net.parseIP(s).value| == IPv6AddrLen
    ensures ParseCIDR(net, s).Success?
    ensures ParseCIDR(net, s).value.prefixLen == 8 * |ParseCIDR(net, s).value.ip|
  {
  }

  /** `ParseIPv6`: the empty text is the all-zero address; otherwise the
      address `net.ParseIP` finds, in 16-octet form. */
  function ParseIPv6(net: GoNet, s: string): (r: Result<Addr16, MapError>)
    ensures s == "" ==> r == Success(ZeroAddr)
    ensures s != "" ==>
      (r.Success? <==> net.parseIP(s).Some? && To16(net.parseIP(s).value).Some?)
    ensures s != "" && r.Success? ==> r.value == To16(net.parseIP(s).value).value
  {
    if s == "" then Success(ZeroAddr)
    else
      match net.parseIP(s)
      case None => Failure(NotIpv6)
      case Some(ip) =>
        match To16(ip)
        case None => Failure(NotIpv6)
        case Some(ip16) => Success(ip16)
  }

  /** The address family of a table: the headend-v4 table is keyed by
      IPv4 prefixes, the SID-function and headend-v6 tables by IPv6. */
  datatype Family = V4 | V6

  function Width(f: Family): (w: nat)
    ensures w == IPv4AddrLen || w == IPv6AddrLen
  {
    if f == V4 then IPv4AddrLen else IPv6AddrLen
  }

  /** `buildLpmKeyV4` / `buildLpmKeyV6`: the parsed prefix length and the
      address in the table's width. IPv4 keys refuse an address without an
      IPv4 form; IPv6 keys refuse only one that cannot be widened. */
  function BuildLpmKey(net: GoNet, f: Family, s: string): (r: Result<Lpm.LpmKey, MapError>)
    ensures ParseCIDR(net, s).Failure? ==> r == Failure(InvalidCidr)
    ensures ParseCIDR(net, s).Success? && f == V4 ==>
      var c := ParseCIDR(net, s).value;
      && (r.Failure? <==> To4(c.ip).None?)
      && (r.Success? ==> r.value == Lpm.LpmKey(c.prefixLen, To4(c.ip).value))
    ensures ParseCIDR(net, s).Success? && f == V6 ==>
      var c := ParseCIDR(net, s).value;
      && (r.Failure? <==> To16(c.ip).None?)
      && (r.Success? ==> r.value == Lpm.LpmKey(c.prefixLen, To16(c.ip).value))
    ensures r.Success? ==> |r.value.addr| == Width(f)
  {
    match ParseCIDR(net, s)
    case Failure(e) => Failure(e)
    case Success(c) =>
      if f == V4 then
        match To4(c.ip)
        case None => Failure(NotIpv4)
        case Some(ip4) => Success(Lpm.LpmKey(c.prefixLen, ip4))
      else
        match To16(c.ip)
        case None => Failure(NotIpv6)
        case Some(ip16) => Success(Lpm.LpmKey(c.prefixLen, ip16))
  }

  /** An IPv4 network given to an IPv6 table is not refused: it is widened
      to its IPv4-mapped form with its IPv4 prefix length kept. The key then
      compares only leading zero octets, so it covers the all-zero IPv6
      address rather than the IPv4 network it was written for. */
  lemma {:induction false} V6KeyWidensIpv4(net: GoNet, s: string)
    requires ParseCIDR(net, s).Success?
    requires |ParseCIDR(net, s).value.ip| == IPv4AddrLen
    ensures BuildLpmKey(net, V6, s).Success?
    ensures BuildLpmKey(net, V6, s).value.addr == V4InV6Prefix + ParseCIDR(net, s).value.ip
    ensures BuildLpmKey(net, V6, s).value.prefixLen == ParseCIDR(net, s).value.prefixLen
    ensures ParseCIDR(net, s).value.prefixLen <= 80 ==> Lpm.Covers(BuildLpmKey(net, V6, s).value, ZeroAddr)
  {
    var k := BuildLpmKey(net, V6, s).value;
    if k.prefixLen <= 80 {
      var a := k.addr;
      forall j | 0 <= j < |a|
        ensures Lpm.Mask(a, k.prefixLen)[j] == Lpm.Mask(ZeroAddr, k.prefixLen)[j]
      {
        if !(8 * j + 8 <= k.prefixLen) && !(k.prefixLen <= 8 * j) {
          assert a[j] == 0 && ZeroAddr[j] == 0;
        }
      }
    }
  }

  /** A table: an LPM trie of entries. */
  type Table<E> = Lpm.Trie<E>

  /** `Map.Put` (update with `BPF_ANY`) on an LPM trie: a prefix longer than
      the key is refused; a key agreeing on its prefix bits with a stored
      key of the same length replaces that element, key octets and entry;
      any other key is a new element, refused when the table is full. */
  function Put<E>(t: Table<E>, f: Family, k: Lpm.LpmKey, e: E): (r: Result<Table<E>, MapError>)
    requires |k.addr| == Width(f)
    ensures r.Success? <==> k.prefixLen <= 8 * Width(f) && (Lpm.Holds(t, k) || |t| < MaxEntries)
    ensures r.Failure? && k.prefixLen > 8 * Width(f) ==> r.error == InvalidArgument
    ensures r.Failure? && k.prefixLen <= 8 * Width(f) ==> r.error == NoSpace
    ensures r.Success? ==> Lpm.Holds(r.value, k) && r.value[Lpm.PrefixKey(k.addr, k.prefixLen)] == Lpm.Slot(k.addr, e)
    ensures r.Success? ==> r.value.Keys == t.Keys + {Lpm.PrefixKey(k.addr, k.prefixLen)}
    ensures r.Success? ==> forall i | i in t && i != Lpm.PrefixKey(k.addr, k.prefixLen) :: r.value[i] == t[i]
    ensures r.Success? ==> |r.value| <= MaxEntries || r.value.Keys == t.Keys
  {
    if k.prefixLen > 8 * Width(f) then Failure(InvalidArgument)
    else if !Lpm.Holds(t, k) && |t| >= MaxEntries then Failure(NoSpace)
    else Success(Lpm.Update(t, k, e))
  }

  /** Two keys of one length that agree on their prefix bits are one
      element: putting the second after the first is putting the second
      alone, so the first leaves no trace. */
  lemma {:induction false} PutSamePrefixReplaces<E>(t: Table<E>, f: Family, k1: Lpm.LpmKey, k2: Lpm.LpmKey, e1: E, e2: E)
    requires |k1.addr| == Width(f) && |k2.addr| == Width(f)
    requires Put(t, f, k1, e1).Success?
    requires k1.prefixLen == k2.prefixLen
    requires Lpm.Mask(k1.addr, k1.prefixLen) == Lpm.Mask(k2.addr, k2.prefixLen)
    ensures Put(Put(t, f, k1, e1).value, f, k2, e2) == Put(t, f, k2, e2)
    ensures Put(t, f, k2, e2).Success?
  {
    Lpm.SamePrefixKey(k1, k2);
    Lpm.UpdateSameElement(t, k1, k2, e1, e2);
    hide Lpm.Update, Lpm.PrefixKey, Lpm.Mask, Lpm.ValidTrie, Lpm.Holds;
    var i := Lpm.PrefixKey(k1.addr, k1.prefixLen);
    assert Put(t, f, k1, e1) == Success(Lpm.Update(t, k1, e1));
    assert Lpm.Update(t, k1, e1).Keys == t.Keys + {i};
    assert Put(t, f, k2, e2) == Success(Lpm.Update(t, k2, e2));
  }

  /** `CreateSidFunction`, `CreateHeadendV4`, `CreateHeadendV6`: an
      insert-or-replace under the key the prefix text builds; a key that
      cannot be built changes nothing. */
  function Create<E>(net: GoNet, f: Family, t: Table<E>, prefix: string, e: E): (r: Result<Table<E>, MapError>)
    ensures BuildLpmKey(net, f, prefix).Failure? ==> r.Failure?
    ensures BuildLpmKey(net, f, prefix).Success? ==> r == Put(t, f, BuildLpmKey(net, f, prefix).value, e)
  {
    match BuildLpmKey(net, f, prefix)
    case Failure(err) => Failure(err)
    case Success(k) => Put(t, f, k, e)
  }

  /** `DeleteSidFunction`, `DeleteHeadendV4`, `DeleteHeadendV6`: the
      element the built key names (same length, same prefix bits) is
      removed; a prefix longer than the key is refused, and an absent
      element is an error. */
  function Delete<E>(net: GoNet, f: Family, t: Table<E>, prefix: string): (r: Result<Table<E>, MapError>)
    ensures r.Success? <==>
      && BuildLpmKey(net, f, prefix).Success?
      && BuildLpmKey(net, f, prefix).value.prefixLen <= 8 * Width(f)
      && Lpm.Holds(t, BuildLpmKey(net, f, prefix).value)
    ensures r.Success? ==>
      var k := BuildLpmKey(net, f, prefix).value;
      r.value == map i | i in t && i != Lpm.PrefixKey(k.addr, k.prefixLen) :: t[i]
  {
    match BuildLpmKey(net, f, prefix)
    case Failure(err) => Failure(err)
    case Success(k) =>
      if k.prefixLen > 8 * Width(f) then Failure(InvalidArgument)
      else if !Lpm.Holds(t, k) then Failure(NotFound)
      else Success(Lpm.Remove(t, Lpm.PrefixKey(k.addr, k.prefixLen)))
  }

  /** `GetSidFunction`, `GetHeadendV4`, `GetHeadendV6`: a lookup in the LPM
      trie with the built key. The trie refuses a key longer than its width;
      otherwise it answers with the entry of the longest stored prefix
      covering the key's address that is no longer than the key's own
      prefix, and no such prefix is an error. */
  function Get<E>(net: GoNet, f: Family, t: Table<E>, prefix: string): (r: Result<E, MapError>)
    ensures BuildLpmKey(net, f, prefix).Failure? ==> r.Failure?
    ensures BuildLpmKey(net, f, prefix).Success? && BuildLpmKey(net, f, prefix).value.prefixLen > 8 * Width(f) ==>
      r == Failure(NotFound)
    ensures BuildLpmKey(net, f, prefix).Success? ==>
      var k := BuildLpmKey(net, f, prefix).value;
      r.Success? <==>
        && k.prefixLen <= 8 * Width(f)
        && exists k' | k' in t :: Lpm.Covers(k', k.addr) && k'.prefixLen <= k.prefixLen
    ensures r.Success? ==>
      var k := BuildLpmKey(net, f, prefix).value;
      exists k' | Lpm.IsLongestMatchUpTo(t, k.addr, k.prefixLen, k') :: r.value == t[k'].entry
  {
    match BuildLpmKey(net, f, prefix)
    case Failure(err) => Failure(err)
    case Success(k) =>
      if k.prefixLen > 8 * Width(f) then Failure(NotFound)
      else
        Lpm.LookupFromCorrect(t, k.addr, k.prefixLen);
        match Lpm.LookupFrom(t, k.addr, k.prefixLen)
        case None => Failure(NotFound)
        case Some(k') => Success(t[k'].entry)
  }

  /** The number a string of decimal digits denotes, read most significant
      digit first. */
  function DigitsValue(s: string): nat
  {
    if s == [] then 0
    else
      var d := s[|s| - 1] as int - '0' as int;
      10 * DigitsValue(s[..|s| - 1]) + (if 0 <= d <= 9 then d else 0)
  }

  /** `%d` of a natural number: its decimal digits, without leading zeros. */
  function DecimalString(n: nat): (s: string)
    ensures |s| >= 1
    ensures forall i | 0 <= i < |s| :: '0' <= s[i] <= '9'
    ensures s[0] != '0' || s == "0"
    ensures DigitsValue(s) == n
    decreases n
  {
    var d := [(('0' as int) + n % 10) as char];
    if n < 10 then d
    else
      var h := DecimalString(n / 10);
      assert (h + d)[..|h + d| - 1] == h;
      h + d
  }

  /** `lpmKeyV4ToString` / `lpmKeyV6ToString`: `address/prefixlen`. */
  function KeyString(net: GoNet, k: Lpm.LpmKey): (s: string)
    ensures |s| > |net.ipString(k.addr)| + 1
    ensures s[..|net.ipString(k.addr)| + 1] == net.ipString(k.addr) + "/"
    ensures var digits := s[|net.ipString(k.addr)| + 1..];
      && (forall i | 0 <= i < |digits| :: '0' <= digits[i] <= '9')
      && DigitsValue(digits) == k.prefixLen
  {
    var ip := net.ipString(k.addr);
    assert (ip + "/" + DecimalString(k.prefixLen))[|ip| + 1..] == DecimalString(k.prefixLen);
    ip + "/" + DecimalString(k.prefixLen)
  }

  /** `ListSidFunctions`, `ListHeadendV4`, `ListHeadendV6`: every stored
      entry under the text of its key as written. */
  function List<E(==)>(net: GoNet, t: Table<E>): (r: set<(string, E)>)
    ensures forall k | k in t :: (KeyString(net, Lpm.StoredKey(t, k)), t[k].entry) in r
    ensures forall p | p in r :: exists k | k in t :: p == (KeyString(net, Lpm.StoredKey(t, k)), t[k].entry)
  {
    set k | k in t :: (KeyString(net, Lpm.StoredKey(t, k)), t[k].entry)
  }

  /** Get after a successful Create of the same text returns the entry just
      stored, whatever octets the key carries past its prefix length. */
  lemma {:induction false} GetAfterCreate<E>(net: GoNet, f: Family, t: Table<E>, prefix: string, e: E)
    requires Create(net, f, t, prefix, e).Success?
    ensures Get(net, f, Create(net, f, t, prefix, e).value, prefix) == Success(e)
  {
    var k := BuildLpmKey(net, f, prefix).value;
    var t' := Create(net, f, t, prefix, e).value;
    var i := Lpm.PrefixKey(k.addr, k.prefixLen);
    assert i in t' && t'[i].entry == e;
    assert Lpm.LookupFrom(t', k.addr, k.prefixLen) == Some(i);
  }

  /** After a successful Create the listing holds the key's text with the
      entry; on an empty table it holds exactly that. */
  lemma ListAfterCreate<E>(net: GoNet, f: Family, t: Table<E>, prefix: string, e: E)
    requires Create(net, f, t, prefix, e).Success?
    ensures (KeyString(net, BuildLpmKey(net, f, prefix).value), e) in List(net, Create(net, f, t, prefix, e).value)
    ensures t == map[] ==>
      List(net, Create(net, f, t, prefix, e).value) == {(KeyString(net, BuildLpmKey(net, f, prefix).value), e)}
  {
    hide KeyString, DecimalString, DigitsValue;
    var k := BuildLpmKey(net, f, prefix).value;
    var i := Lpm.PrefixKey(k.addr, k.prefixLen);
    var t' := Create(net, f, t, prefix, e).value;
    assert (KeyString(net, Lpm.StoredKey(t', i)), t'[i].entry) in List(net, t');
  }

  /** Get after a successful Delete never answers from the deleted element:
      it finds the longest remaining shorter prefix covering the address,
      and fails exactly when there is none. */
  lemma {:induction false} GetAfterDelete<E>(net: GoNet, f: Family, t: Table<E>, prefix: string)
    requires Delete(net, f, t, prefix).Success?
    ensures var k := BuildLpmKey(net, f, prefix).value;
      var t' := Delete(net, f, t, prefix).value;
      Get(net, f, t', prefix).Failure? <==>
        forall k' | k' in t' :: !(Lpm.Covers(k', k.addr) && k'.prefixLen <= k.prefixLen)
    ensures var k := BuildLpmKey(net, f, prefix).value;
      var t' := Delete(net, f, t, prefix).value;
      Get(net, f, t', prefix).Success? ==>
        exists k' | k' in t' :: Lpm.Covers(k', k.addr) && k'.prefixLen < k.prefixLen
          && Get(net, f, t', prefix).value == t'[k'].entry
  {
    var k := BuildLpmKey(net, f, prefix).value;
    var t' := Delete(net, f, t, prefix).value;
    var i := Lpm.PrefixKey(k.addr, k.prefixLen);
    assert i !in t';
    forall k' | k' in t' && Lpm.Covers(k', k.addr) && k'.prefixLen == k.prefixLen
      ensures false
    {
      Lpm.CoveringKeyIsPrefix(k', k.addr);
    }
  }

  /** With no shorter covering prefix stored, a deleted prefix is gone:
      Get after Delete fails. */
  lemma GetAfterDeleteAlone<E>(net: GoNet, f: Family, t: Table<E>, prefix: string)
    requires Delete(net, f, t, prefix).Success?
    requires forall k' | k' in t && Lpm.Covers(k', BuildLpmKey(net, f, prefix).value.addr) ::
      k'.prefixLen >= BuildLpmKey(net, f, prefix).value.prefixLen
    ensures Get(net, f, Delete(net, f, t, prefix).value, prefix).Failure?
  {
    GetAfterDelete(net, f, t, prefix);
  }

  /** What `ParseSegments` returns: the segment array, the count and
      whether it succeeded (on failure the count is 0 and the array holds
      the segments parsed before the bad one). */
  datatype SegmentParse = SegmentParse(slots: SegmentArray, count: Byte, ok: bool)

  /** The index of the first text from `i` on that `ParseIPv6` refuses, or
      the length when there is none. */
  function FirstInvalid(net: GoNet, segs: seq<string>, i: nat): (j: nat)
    requires i <= |segs|
    ensures i <= j <= |segs|
    ensures forall m | i <= m < j :: ParseIPv6(net, segs[m]).Success?
    ensures j < |segs| ==> ParseIPv6(net, segs[j]).Failure?
    decreases |segs| - i
  {
    if i == |segs| then i
    else if ParseIPv6(net, segs[i]).Failure? then i
    else FirstInvalid(net, segs, i + 1)
  }

  /** The segment array with the first `n` texts parsed into their slots
      and zero in the rest. */
  function FillSlots(net: GoNet, segs: seq<string>, n: nat): (a: SegmentArray)
    requires n <= |segs| && n <= MaxSegments
    requires forall m | 0 <= m < n :: ParseIPv6(net, segs[m]).Success?
    ensures forall m | 0 <= m < n :: a[m] == ParseIPv6(net, segs[m]).value
    ensures forall m | n <= m < MaxSegments :: a[m] == ZeroAddr
  {
    seq(MaxSegments, m => if 0 <= m < n then ParseIPv6(net, segs[m]).value else ZeroAddr)
  }

  /** `ParseSegments`: more than ten texts is an error with nothing parsed;
      an invalid text is an error, with the texts before it already in
      their slots; otherwise every text in its slot in order, zero in the
      unused slots and the count equal to the number of texts. */
  function ParseSegments(net: GoNet, segs: seq<string>): (r: SegmentParse)
    ensures |segs| > MaxSegments ==> r == SegmentParse(NoSegments, 0, false)
    ensures r.ok <==> |segs| <= MaxSegments && forall m | 0 <= m < |segs| :: ParseIPv6(net, segs[m]).Success?
    ensures r.ok ==> r.count == |segs|
    ensures !r.ok ==> r.count == 0
    ensures r.ok ==> forall m | 0 <= m < |segs| :: r.slots[m] == ParseIPv6(net, segs[m]).value
    ensures r.ok ==> forall m | |segs| <= m < MaxSegments :: r.slots[m] == ZeroAddr
    ensures !r.ok && |segs| <= MaxSegments ==>
      exists bad | 0 <= bad < |segs| ::
        && ParseIPv6(net, segs[bad]).Failure?
        && (forall m | 0 <= m < bad :: ParseIPv6(net, segs[m]).Success? && r.slots[m] == ParseIPv6(net, segs[m]).value)
        && (forall m | bad <= m < MaxSegments :: r.slots[m] == ZeroAddr)
  {
    if |segs| > MaxSegments then SegmentParse(NoSegments, 0, false)
    else
      var bad := FirstInvalid(net, segs, 0);
      var slots := FillSlots(net, segs, bad);
      if bad < |segs| then SegmentParse(slots, 0, false)
      else SegmentParse(slots, |segs|, true)
  }

  /** `FormatSegments`: the texts of the first `numSegments` slots in slot
      order. A count above ten indexes past the array, a Go runtime panic
      (`None`). */
  function FormatSegments(net: GoNet, segments: SegmentArray, numSegments: Byte): (r: Option<seq<string>>)
    ensures r.Some? <==> numSegments <= MaxSegments
    ensures r.Some? ==> |r.value| == numSegments
    ensures r.Some? ==> forall i | 0 <= i < numSegments :: r.value[i] == net.ipString(segments[i])
  {
    if numSegments > MaxSegments then None
    else Some(seq(numSegments, i requires 0 <= i < numSegments => net.ipString(segments[i])))
  }

  /** A text `ParseIPv6` reads back to the same text through `String`: a
      canonical, non-empty address text. */
  predicate IsCanonicalText(net: GoNet, s: string)
  {
    ParseIPv6(net, s).Success? && s != "" && net.ipString(ParseIPv6(net, s).value) == s
  }

  /** Formatting what `ParseSegments` parsed gives back the texts when each
      is written canonically. */
  lemma {:induction false} FormatAfterParse(net: GoNet, segs: seq<string>)
    requires |segs| <= MaxSegments
    requires forall m | 0 <= m < |segs| :: IsCanonicalText(net, segs[m])
    ensures ParseSegments(net, segs).ok
    ensures FormatSegments(net, ParseSegments(net, segs).slots, ParseSegments(net, segs).count) == Some(segs)
  {
    var r := ParseSegments(net, segs);
    assert r.ok;
    var out := FormatSegments(net, r.slots, r.count).value;
    forall m | 0 <= m < |segs|
      ensures out[m] == segs[m]
    {
      assert IsCanonicalText(net, segs[m]);
    }
    assert out == segs;
  }

  /** Parsing the formatted used slots recovers them, with the unused slots
      cleared, whenever `String` prints each used address as a text that
      reads back to it. */
  lemma {:induction false} ParseAfterFormat(net: GoNet, segments: SegmentArray, n: Byte)
    requires n <= MaxSegments
    requires forall i | 0 <= i < n ::
      net.ipString(segments[i]) != "" && ParseIPv6(net, net.ipString(segments[i])) == Success(segments[i])
    ensures FormatSegments(net, segments, n).Some?
    ensures ParseSegments(net, FormatSegments(net, segments, n).value).ok
    ensures ParseSegments(net, FormatSegments(net, segments, n).value).count == n
    ensures ParseSegments(net, FormatSegments(net, segments, n).value).slots[..n] == segments[..n]
    ensures forall i | n <= i < MaxSegments :: ParseSegments(net, FormatSegments(net, segments, n).value).slots[i] == ZeroAddr
  {
    var texts := FormatSegments(net, segments, n).value;
    forall m | 0 <= m < |texts|
      ensures ParseIPv6(net, texts[m]) == Success(segments[m])
    {
      assert texts[m] == net.ipString(segments[m]);
    }
    var r := ParseSegments(net, texts);
    assert r.ok;
    forall i | 0 <= i < n
      ensures r.slots[i] == segments[i]
    {
      assert r.slots[i] == ParseIPv6(net, texts[i]).value;
    }
  }
}
