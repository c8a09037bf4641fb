/** Octets, fixed-width fields and the in-place writes the data plane performs
    on a frame. A frame is a sequence of octets; writing a header field is a
    splice of new octets at a fixed offset. */
module Bytes {

  type Byte = b: int | 0 <= b < 256

  /** An unsigned 16-bit field (`__u16`, Go `uint16`). */
  type U16 = x: int | 0 <= x < 0x1_0000

  /** An IPv6 address, `struct in6_addr` / `[16]uint8`. */
  type Addr16 = s: seq<Byte> | |s| == 16 witness seq(16, _ => 0)

  /** An Ethernet MAC address, `unsigned char[ETH_ALEN]`. */
  type Mac = s: seq<Byte> | |s| == 6 witness seq(6, _ => 0)

  const ZeroAddr: Addr16 := [0, 0, 0, 0, 0, 0, 0, 0, 0, 0, 0, 0, 0, 0, 0, 0]

  /** Truncation of an integer to an 8-bit field (C assignment to `__u8`). */
  function ToU8(x: int): (b: Byte)
    ensures 0 <= x < 256 ==> b == x
    ensures (b - x) % 256 == 0
  {
    x % 256
  }

  /** Truncation of an integer to a 16-bit field. */
  function ToU16(x: int): (v: U16)
    ensures 0 <= x < 0x1_0000 ==> v == x
    ensures (v - x) % 0x1_0000 == 0
  {
    x % 0x1_0000
  }

  /** Big-endian reading of two octets (`bpf_ntohs`, `binary.BigEndian.Uint16`). */
  function ReadBE16(s: seq<Byte>, off: nat): (v: U16)
    requires off + 2 <= |s|
  {
    (s[off] as int) * 256 + (s[off + 1] as int)
  }

  /** Big-endian writing of a 16-bit value (`bpf_htons`, `binary.BigEndian.PutUint16`). */
  function BE16(v: U16): (r: seq<Byte>)
    ensures |r| == 2
    ensures ReadBE16(r, 0) == v
  {
    [v / 256, v % 256]
  }

  lemma BE16Injective(v: U16, w: U16)
    requires BE16(v) == BE16(w)
    ensures v == w
  {
    assert ReadBE16(BE16(v), 0) == v;
  }

  /** `s` with the octets `b` written at offset `off`: only the written window
      changes and the length is kept. */
  function Splice(s: seq<Byte>, off: nat, b: seq<Byte>): (r: seq<Byte>)
    requires off + |b| <= |s|
    ensures |r| == |s|
    ensures r[off..off + |b|] == b
    ensures r[..off] == s[..off]
    ensures r[off + |b|..] == s[off + |b|..]
  {
    s[..off] + b + s[off + |b|..]
  }

  /** Octet by octet: the written window holds `b`, every other octet is
      unchanged. */
  lemma SpliceAt(s: seq<Byte>, off: nat, b: seq<Byte>)
    requires off + |b| <= |s|
    ensures forall i | 0 <= i < |s| && !(off <= i < off + |b|) :: Splice(s, off, b)[i] == s[i]
    ensures forall i | 0 <= i < |b| :: Splice(s, off, b)[off + i] == b[i]
  {
  }

  /** Two adjacent writes are one write of their concatenation. */
  lemma SpliceAdjacent(s: seq<Byte>, off: nat, a: seq<Byte>, b: seq<Byte>)
    requires off + |a| + |b| <= |s|
    ensures Splice(Splice(s, off, a), off + |a|, b) == Splice(s, off, a + b)
  {
    var lhs := Splice(Splice(s, off, a), off + |a|, b);
    var rhs := Splice(s, off, a + b);
    SpliceAt(s, off, a);
    SpliceAt(Splice(s, off, a), off + |a|, b);
    SpliceAt(s, off, a + b);
    assert |lhs| == |rhs|;
    forall i | 0 <= i < |lhs|
      ensures lhs[i] == rhs[i]
    {
      if i < off {
      } else if i < off + |a| {
        assert lhs[i] == a[i - off];
        assert rhs[i] == (a + b)[i - off];
      } else if i < off + |a| + |b| {
        assert lhs[i] == b[i - off - |a|];
        assert rhs[i] == (a + b)[i - off];
      } else {
      }
    }
  }

  /** Writing a value that is already there changes nothing. */
  lemma SpliceSame(s: seq<Byte>, off: nat, len: nat)
    requires off + len <= |s|
    ensures Splice(s, off, s[off..off + len]) == s
  {
    assert s[..off] + s[off..off + len] + s[off + len..] == s;
  }

  /** A write into a region that was itself just written is one write of the
      patched region. */
  lemma SpliceInside(s: seq<Byte>, off: nat, a: seq<Byte>, k: nat, b: seq<Byte>)
    requires off + |a| <= |s| && k + |b| <= |a|
    ensures Splice(Splice(s, off, a), off + k, b) == Splice(s, off, Splice(a, k, b))
  {
    var x := Splice(s, off, a);
    var tail := s[off + |a|..];
    assert x == s[..off] + a + tail;
    assert x[..off + k] == s[..off] + a[..k];
    assert x[off + k + |b|..] == a[k + |b|..] + tail;
    assert Splice(a, k, b) == a[..k] + b + a[k + |b|..];
    calc {
      Splice(x, off + k, b);
      x[..off + k] + b + x[off + k + |b|..];
      s[..off] + a[..k] + b + (a[k + |b|..] + tail);
      s[..off] + (a[..k] + b + a[k + |b|..]) + tail;
      Splice(s, off, Splice(a, k, b));
    }
  }

  /** Writes to disjoint windows can be made in either order. */
  lemma SpliceCommute(s: seq<Byte>, off1: nat, a: seq<Byte>, off2: nat, b: seq<Byte>)
    requires off1 + |a| <= off2 && off2 + |b| <= |s|
    ensures Splice(Splice(s, off2, b), off1, a) == Splice(Splice(s, off1, a), off2, b)
  {
    var lhs := Splice(Splice(s, off2, b), off1, a);
    var rhs := Splice(Splice(s, off1, a), off2, b);
    SpliceAt(s, off1, a);
    SpliceAt(s, off2, b);
    SpliceAt(Splice(s, off2, b), off1, a);
    SpliceAt(Splice(s, off1, a), off2, b);
    forall i | 0 <= i < |s|
      ensures lhs[i] == rhs[i]
    {
      if off1 <= i < off1 + |a| {
        assert lhs[i] == a[i - off1];
      } else if off2 <= i < off2 + |b| {
        assert rhs[i] == b[i - off2];
      }
    }
  }

  /** A window of a window is a window of the whole. */
  lemma SliceOfSlice(s: seq<Byte>, a: nat, b: nat, c: nat, d: nat)
    requires a <= b <= |s| && c <= d <= b - a
    ensures s[a..b][c..d] == s[a + c..a + d]
  {
    assert forall i | 0 <= i < d - c :: s[a..b][c..d][i] == s[a + c + i];
  }

  /** The octets of a list of addresses laid out back to back, 16 per slot. */
  function Flatten(xs: seq<Addr16>): (r: seq<Byte>)
    ensures |r| == 16 * |xs|
    ensures forall i | 0 <= i < |xs| :: r[16 * i..16 * i + 16] == xs[i]
  {
    if |xs| == 0 then []
    else
      var front := Flatten(xs[..|xs| - 1]);
      var r := front + xs[|xs| - 1];
      assert forall i | 0 <= i < |xs| - 1 :: r[16 * i..16 * i + 16] == front[16 * i..16 * i + 16];
      r
  }
}
