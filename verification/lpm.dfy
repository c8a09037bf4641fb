/** Longest-prefix-match tables (`BPF_MAP_TYPE_LPM_TRIE`), stated as a
    specification: a table is a map from (prefix length, address) keys to
    entries, and a lookup finds the stored prefix of greatest length that
    covers the address. */
module Lpm {
  import opened Bytes
  import opened Wrappers

  /** `struct lpm_key_v4` / `struct lpm_key_v6`: a prefix length in bits and
      the address octets (4 or 16). */
  datatype LpmKey = LpmKey(prefixLen: nat, addr: seq<Byte>)

  function Pow2(k: nat): (p: nat)
    ensures p >= 1
  {
    if k == 0 then 1 else 2 * Pow2(k - 1)
  }

  /** `b` with its `k` least significant bits cleared: never larger, zero
      when `b` has no bit at position `k` or above. */
  function ClearLow(b: nat, k: nat): (r: nat)
    ensures r <= b
    ensures b < Pow2(k) ==> r == 0
    decreases k
  {
    if k == 0 then b else 2 * ClearLow(b / 2, k - 1)
  }

  /** Clearing the same low bits twice is clearing them once. */
  lemma {:induction false} ClearLowIdempotent(b: nat, k: nat)
    ensures ClearLow(ClearLow(b, k), k) == ClearLow(b, k)
    decreases k
  {
    if k > 0 {
      var c := ClearLow(b / 2, k - 1);
      assert (2 * c) / 2 == c;
      ClearLowIdempotent(b / 2, k - 1);
    }
  }

  /** An octet with only its `bits` most significant bits kept. */
  function MaskByte(b: Byte, bits: nat): (r: Byte)
    requires bits <= 8
    ensures bits == 0 ==> r == 0
    ensures bits == 8 ==> r == b
    ensures r <= b
  {
    assert Pow2(8) == 256;
    ClearLow(b, 8 - bits)
  }

  /** The address with every bit at position `len` or beyond cleared. */
  function Mask(addr: seq<Byte>, len: nat): (r: seq<Byte>)
    requires len <= 8 * |addr|
    ensures |r| == |addr|
    ensures forall j | 0 <= j < |addr| && 8 * j + 8 <= len :: r[j] == addr[j]
    ensures forall j | 0 <= j < |addr| && len <= 8 * j :: r[j] == 0
  {
    seq(|addr|, j requires 0 <= j < |addr| =>
      if 8 * j + 8 <= len then addr[j]
      else if len <= 8 * j then 0
      else MaskByte(addr[j], len - 8 * j))
  }

  lemma MaskByteIdempotent(b: Byte, bits: nat)
    requires bits <= 8
    ensures MaskByte(MaskByte(b, bits), bits) == MaskByte(b, bits)
  {
    ClearLowIdempotent(b, 8 - bits);
  }

  /** Masking twice with the same length is masking once. */
  lemma MaskIdempotent(addr: seq<Byte>, len: nat)
    requires len <= 8 * |addr|
    ensures Mask(Mask(addr, len), len) == Mask(addr, len)
  {
    var m := Mask(addr, len);
    forall j | 0 <= j < |addr|
      ensures Mask(m, len)[j] == m[j]
    {
      if !(8 * j + 8 <= len) && !(len <= 8 * j) {
        MaskByteIdempotent(addr[j], len - 8 * j);
      }
    }
  }

  /** The key's prefix covers the address: same address family, a prefix no
      longer than the address, and the first `prefixLen` bits agree. */
  predicate Covers(k: LpmKey, addr: seq<Byte>)
  {
    && |k.addr| == |addr|
    && k.prefixLen <= 8 * |addr|
    && Mask(k.addr, k.prefixLen) == Mask(addr, k.prefixLen)
  }

  /** A key whose bits beyond the prefix length are all zero, as
      `net.ParseCIDR` produces them. */
  predicate Canonical(k: LpmKey)
  {
    k.prefixLen <= 8 * |k.addr| && Mask(k.addr, k.prefixLen) == k.addr
  }

  /** What the trie holds for one prefix: the address octets of the key
      last written for it (the octets past the prefix length included, as
      an iteration returns them) and the entry. */
  datatype Slot<E> = Slot(addr: seq<Byte>, entry: E)

  /** Every index is the prefix its slot's key denotes: the key's address
      masked to the key's length. */
  predicate ValidTrie<E>(t: map<LpmKey, Slot<E>>)
  {
    forall k | k in t :: Canonical(k) && |t[k].addr| == |k.addr| && Mask(t[k].addr, k.prefixLen) == k.addr
  }

  /** An LPM trie. The kernel compares a key only on its first `prefixLen`
      bits, in updates, deletions and lookups alike, so two keys of equal
      length that agree on those bits name one element; the table is
      indexed by that prefix. */
  type Trie<E> = t: map<LpmKey, Slot<E>> | ValidTrie(t) witness map[]

  /** The key as it was written, which the trie hands back when iterated. */
  function StoredKey<E>(t: Trie<E>, k: LpmKey): (s: LpmKey)
    requires k in t
    ensures s.prefixLen == k.prefixLen && |s.addr| == |k.addr|
    ensures PrefixKey(s.addr, s.prefixLen) == k
  {
    LpmKey(k.prefixLen, t[k].addr)
  }

  /** A stored key covers an address exactly when the prefix it is indexed
      under does: the octets past its length play no part. */
  lemma StoredKeyCovers<E>(t: Trie<E>, k: LpmKey, addr: seq<Byte>)
    requires k in t
    ensures Covers(StoredKey(t, k), addr) <==> Covers(k, addr)
  {
    MaskIdempotent(t[k].addr, k.prefixLen);
  }

  /** The trie holds an element for key `k`: a stored key of the same
      length agrees with `k` on its first `prefixLen` bits. */
  predicate Holds<E>(t: Trie<E>, k: LpmKey)
  {
    k.prefixLen <= 8 * |k.addr| && PrefixKey(k.addr, k.prefixLen) in t
  }

  /** `Holds` is the kernel's key comparison: `k` is held exactly when some
      stored key has its length and agrees with it on the prefix bits. */
  lemma {:induction false} HoldsIffPrefixAgrees<E>(t: Trie<E>, k: LpmKey)
    ensures Holds(t, k) <==>
      exists i | i in t :: && StoredKey(t, i).prefixLen == k.prefixLen && |StoredKey(t, i).addr| == |k.addr|
                           && Mask(StoredKey(t, i).addr, k.prefixLen) == Mask(k.addr, k.prefixLen)
  {
    if Holds(t, k) {
      var i := PrefixKey(k.addr, k.prefixLen);
      assert Mask(StoredKey(t, i).addr, k.prefixLen) == i.addr;
    }
    if i :| i in t && StoredKey(t, i).prefixLen == k.prefixLen && |StoredKey(t, i).addr| == |k.addr|
           && Mask(StoredKey(t, i).addr, k.prefixLen) == Mask(k.addr, k.prefixLen) {
      assert PrefixKey(k.addr, k.prefixLen) == i;
    }
  }

  /** The trie after writing `e` under key `k`: the element `k` names
      now carries `k`'s octets and `e`, and every other element is kept. */
  function Update<E>(t: Trie<E>, k: LpmKey, e: E): (r: Trie<E>)
    requires k.prefixLen <= 8 * |k.addr|
    ensures PrefixKey(k.addr, k.prefixLen) in r && r[PrefixKey(k.addr, k.prefixLen)] == Slot(k.addr, e)
    ensures r.Keys == t.Keys + {PrefixKey(k.addr, k.prefixLen)}
    ensures forall i | i in t && i != PrefixKey(k.addr, k.prefixLen) :: i in r && r[i] == t[i]
  {
    var i := PrefixKey(k.addr, k.prefixLen);
    var r := t[i := Slot(k.addr, e)];
    assert ValidTrie(r) by {
      forall j | j in r
        ensures Canonical(j) && |r[j].addr| == |j.addr| && Mask(r[j].addr, j.prefixLen) == j.addr
      {
        if j != i {
          assert j in t;
        }
      }
    }
    r
  }

  /** Writing two keys that name the same element leaves only the second
      write's octets and entry. */
  lemma UpdateSameElement<E>(t: Trie<E>, k1: LpmKey, k2: LpmKey, e1: E, e2: E)
    requires k1.prefixLen <= 8 * |k1.addr| && k2.prefixLen == k1.prefixLen && |k2.addr| == |k1.addr|
    requires Mask(k1.addr, k1.prefixLen) == Mask(k2.addr, k2.prefixLen)
    ensures Update(Update(t, k1, e1), k2, e2) == Update(t, k2, e2)
  {
    hide *;
    SamePrefixKey(k1, k2);
    var a := Update(Update(t, k1, e1), k2, e2);
    var b := Update(t, k2, e2);
    assert forall j | j in a :: a[j] == b[j];
  }

  /** Keys of one length that agree on their prefix bits index the same
      element. */
  lemma SamePrefixKey(k1: LpmKey, k2: LpmKey)
    requires k1.prefixLen <= 8 * |k1.addr| && k2.prefixLen == k1.prefixLen && |k2.addr| == |k1.addr|
    requires Mask(k1.addr, k1.prefixLen) == Mask(k2.addr, k2.prefixLen)
    ensures PrefixKey(k1.addr, k1.prefixLen) == PrefixKey(k2.addr, k2.prefixLen)
  {
  }

  /** The trie with the element indexed `i` removed. */
  function Remove<E>(t: Trie<E>, i: LpmKey): (r: Trie<E>)
    ensures r == map j | j in t && j != i :: t[j]
  {
    t - {i}
  }

  /** `k` is the stored prefix of greatest length, at most `len`, among
      those covering `addr`: the entry a trie lookup of `addr` with a key
      of length `len` returns. */
  ghost predicate IsLongestMatchUpTo<E>(m: Trie<E>, addr: seq<Byte>, len: nat, k: LpmKey)
  {
    && k in m
    && Covers(k, addr)
    && k.prefixLen <= len
    && forall k' | k' in m && Covers(k', addr) && k'.prefixLen <= len :: k'.prefixLen <= k.prefixLen
  }

  /** `k` is the longest stored prefix covering `addr`. */
  ghost predicate IsLongestMatch<E>(m: Trie<E>, addr: seq<Byte>, k: LpmKey)
  {
    && k in m
    && Covers(k, addr)
    && forall k' | k' in m && Covers(k', addr) :: k'.prefixLen <= k.prefixLen
  }

  /** The prefix of length `len` of `addr`, as a canonical key. */
  function PrefixKey(addr: seq<Byte>, len: nat): (k: LpmKey)
    requires len <= 8 * |addr|
    ensures Canonical(k) && Covers(k, addr) && k.prefixLen == len
  {
    MaskIdempotent(addr, len);
    LpmKey(len, Mask(addr, len))
  }

  /** The only canonical key of a given length that covers an address is
      that address's own prefix. */
  lemma CoveringKeyIsPrefix(k: LpmKey, addr: seq<Byte>)
    requires Canonical(k) && Covers(k, addr)
    ensures k == PrefixKey(addr, k.prefixLen)
  {
  }

  /** A lookup that tries the prefixes of `addr` from length `len` down to 0
      and returns the first one stored. */
  function LookupFrom<E>(m: Trie<E>, addr: seq<Byte>, len: nat): (r: Option<LpmKey>)
    requires len <= 8 * |addr|
    decreases len
    ensures r.Some? ==> r.value in m && Covers(r.value, addr) && r.value.prefixLen <= len
  {
    var k := PrefixKey(addr, len);
    if k in m then Some(k)
    else if len == 0 then None
    else LookupFrom(m, addr, len - 1)
  }

  /** The lookup of `addr` in a table: its longest stored prefix, if any. */
  function Lookup<E>(m: Trie<E>, addr: seq<Byte>): (r: Option<LpmKey>)
    ensures r.Some? ==> r.value in m && Covers(r.value, addr)
  {
    LookupFrom(m, addr, 8 * |addr|)
  }

  /** The search from `len` down reaches every stored prefix of length at
      most `len`, so what it returns is at least that long. */
  lemma {:induction false} LookupFromFinds<E>(m: Trie<E>, addr: seq<Byte>, len: nat, l: nat)
    requires len <= 8 * |addr| && l <= len && PrefixKey(addr, l) in m
    ensures LookupFrom(m, addr, len).Some? && l <= LookupFrom(m, addr, len).value.prefixLen
    decreases len
  {
    if PrefixKey(addr, len) !in m {
      LookupFromFinds(m, addr, len - 1, l);
    }
  }

  /** The search from `len` down returns exactly the longest stored prefix
      of length at most `len` covering the address, and nothing exactly
      when there is none. */
  lemma LookupFromCorrect<E>(m: Trie<E>, addr: seq<Byte>, len: nat)
    requires len <= 8 * |addr|
    ensures LookupFrom(m, addr, len).Some? ==> IsLongestMatchUpTo(m, addr, len, LookupFrom(m, addr, len).value)
    ensures LookupFrom(m, addr, len).None? <==>
      forall k' | k' in m :: !(Covers(k', addr) && k'.prefixLen <= len)
  {
    forall k' | k' in m && Covers(k', addr) && k'.prefixLen <= len
      ensures LookupFrom(m, addr, len).Some? && k'.prefixLen <= LookupFrom(m, addr, len).value.prefixLen
    {
      CoveringKeyIsPrefix(k', addr);
      LookupFromFinds(m, addr, len, k'.prefixLen);
    }
  }

  /** The lookup returns exactly the longest match, and nothing exactly
      when no stored prefix covers the address. */
  lemma LookupIsLongestMatch<E>(m: Trie<E>, addr: seq<Byte>)
    ensures Lookup(m, addr).Some? ==> IsLongestMatch(m, addr, Lookup(m, addr).value)
    ensures Lookup(m, addr).None? <==> forall k | k in m :: !Covers(k, addr)
  {
    LookupFromCorrect(m, addr, 8 * |addr|);
  }

  /** A full-length key covers exactly its own address. */
  lemma FullLengthCoversOnlyItself(k: LpmKey, addr: seq<Byte>)
    requires k.prefixLen == 8 * |k.addr|
    ensures Covers(k, addr) <==> addr == k.addr
  {
    if |k.addr| == |addr| {
      assert Mask(k.addr, k.prefixLen) == k.addr;
      assert Mask(addr, k.prefixLen) == addr;
    }
  }
}
