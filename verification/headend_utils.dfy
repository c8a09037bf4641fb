/** Segment-list helpers shared by encapsulation and endpoint processing:
    writing a traversal-ordered list into an SRH in wire (reversed) order, and
    fetching one segment of an SRH by index. */
module HeadendUtils {
  import opened Bytes
  import opened Xdp
  import opened Entries

  /** The wire order of the first `n` segments of a traversal-ordered list
      (section 2 of RFC 8754): slot i holds segment `n-1-i`. */
  function WireOrder(segs: SegmentArray, n: nat): (w: seq<Addr16>)
    requires n <= MaxSegments
    ensures |w| == n
    ensures forall i | 0 <= i < n :: w[i] == segs[n - 1 - i]
  {
    seq(n, i requires 0 <= i < n => segs[n - 1 - i])
  }

  /** A list reversed, defined element by element from the back: the last
      element first, then the rest reversed. */
  function Reversed<T>(s: seq<T>): (r: seq<T>)
    ensures |r| == |s|
  {
    if s == [] then [] else [s[|s| - 1]] + Reversed(s[..|s| - 1])
  }

  /** The wire order is the reversal of the configured list: writing the
      segments into slots `n-1` down to 0 lays out exactly `Reversed` of
      the first `n` segments. */
  lemma {:induction false} WireOrderIsReversed(segs: SegmentArray, n: nat)
    requires n <= MaxSegments
    ensures WireOrder(segs, n) == Reversed(segs[..n])
    decreases n
  {
    if n > 0 {
      WireOrderIsReversed(segs, n - 1);
      assert segs[..n][..n - 1] == segs[..n - 1];
      var w := WireOrder(segs, n);
      assert w == [segs[n - 1]] + WireOrder(segs, n - 1);
    }
  }

  /** Whether a C helper returned 0 (`ok`) or -1, and the buffer afterwards. */
  datatype Copied = Copied(ok: bool, buf: seq<Byte>)

  /** How many whole 16-octet slots starting at `base` fit in `len` octets:
      `k` of them fit and one more would not. */
  function SlotsThatFit(len: nat, base: nat): (k: nat)
    ensures k > 0 ==> base + 16 * k <= len
    ensures base + 16 * k + 16 > len
  {
    if base <= len then (len - base) / 16 else 0
  }

  /** The end of the run of slots the copy loop writes when started at slot
      `i`: all remaining `n` slots when they fit, otherwise up to the first
      slot that would cross the end of the frame. */
  function WrittenEnd(len: nat, base: nat, n: nat, i: nat): nat
  {
    if i >= n then i
    else if base + 16 * n <= len then n
    else if SlotsThatFit(len, base) > i then SlotsThatFit(len, base)
    else i
  }

  /** Writing one 16-octet slot of `f` and then the slots after it is one
      write of the whole run. */
  lemma {:induction false} SpliceSlotThenRest(buf: seq<Byte>, off: nat, off': nat, f: seq<Byte>, lo: nat, mid: nat, hi: nat)
    requires mid == lo + 16 && off' == off + 16
    requires mid <= hi <= |f| && off + (hi - lo) <= |buf|
    ensures Splice(Splice(buf, off, f[lo..mid]), off', f[mid..hi]) == Splice(buf, off, f[lo..hi])
  {
    SpliceAdjacent(buf, off, f[lo..mid], f[mid..hi]);
    assert f[lo..mid] + f[mid..hi] == f[lo..hi];
  }

  /** The copy loop of `copy_segments_to_srh` from iteration `i` on: each
      slot below `n` is bounds-checked and then written; the first slot that
      would cross the end of the frame stops the loop with the earlier slots
      already written (see `CopyFromWrites`). */
  function CopyFrom(buf: seq<Byte>, base: nat, segs: SegmentArray, n: nat, i: nat): (r: Copied)
    requires 1 <= n <= MaxSegments && i <= MaxSegments
    decreases MaxSegments - i
    ensures |r.buf| == |buf|
    ensures r.ok <==> (i >= n || base + 16 * n <= |buf|)
  {
    if i >= MaxSegments then
      Copied(true, buf)
    else if i < n then
      if base + 16 * i + 16 > |buf| then
        Copied(false, buf)
      else
        CopyFrom(Splice(buf, base + 16 * i, segs[n - 1 - i]), base, segs, n, i + 1)
    else
      CopyFrom(buf, base, segs, n, i + 1)
  }

  /** `f` holds the first `n` segments in wire order, slot `j` being
      segment `n-1-j`. */
  predicate IsWireImage(f: seq<Byte>, segs: SegmentArray, n: nat)
    requires n <= MaxSegments
  {
    |f| == 16 * n && forall j | 0 <= j < n :: f[16 * j..16 * (j + 1)] == segs[n - 1 - j]
  }

  /** The flattened wire-order list is such an image. */
  lemma WireOrderImage(segs: SegmentArray, n: nat)
    requires n <= MaxSegments
    ensures IsWireImage(Flatten(WireOrder(segs, n)), segs, n)
  {
    var w := WireOrder(segs, n);
    var f := Flatten(w);
    forall j | 0 <= j < n
      ensures f[16 * j..16 * (j + 1)] == segs[n - 1 - j]
    {
      assert f[16 * j..16 * j + 16] == w[j];
    }
  }

  /** What the copy loop from iteration `i` writes, for `f` the wire image
      of the list: nothing when it stops at once, otherwise slots `i` up to
      `WrittenEnd` of `f`, all of them inside the frame. */
  lemma {:induction false} CopyFromWrites(buf: seq<Byte>, base: nat, segs: SegmentArray, n: nat, i: nat, f: seq<Byte>)
    requires 1 <= n <= MaxSegments && i <= MaxSegments && IsWireImage(f, segs, n)
    decreases MaxSegments - i, 1
    ensures var k := WrittenEnd(|buf|, base, n, i);
      && (k == i ==> CopyFrom(buf, base, segs, n, i).buf == buf)
      && (k > i ==>
            && base + 16 * k <= |buf| && k <= n
            && CopyFrom(buf, base, segs, n, i).buf == Splice(buf, base + 16 * i, f[16 * i..16 * k]))
  {
    if i < MaxSegments {
      if i < n {
        if base + 16 * i + 16 <= |buf| {
          CopyFromWritesSlot(buf, base, segs, n, i, f);
        }
      } else {
        CopyFromWrites(buf, base, segs, n, i + 1, f);
      }
    }
  }

  /** A slot that fits does not end the run. */
  lemma WrittenEndStep(len: nat, base: nat, n: nat, i: nat)
    requires i < n && base + 16 * i + 16 <= len
    ensures WrittenEnd(len, base, n, i) == WrittenEnd(len, base, n, i + 1) > i
  {
  }

  /** The step of `CopyFromWrites` at a slot that fits: the slot is written
      and the rest of the run follows it. */
  lemma {:induction false} CopyFromWritesSlot(buf: seq<Byte>, base: nat, segs: SegmentArray, n: nat, i: nat, f: seq<Byte>)
    requires 1 <= n <= MaxSegments && i < n && base + 16 * i + 16 <= |buf| && IsWireImage(f, segs, n)
    decreases MaxSegments - i, 0
    ensures var k := WrittenEnd(|buf|, base, n, i);
      && k > i && base + 16 * k <= |buf| && k <= n
      && CopyFrom(buf, base, segs, n, i).buf == Splice(buf, base + 16 * i, f[16 * i..16 * k])
  {
    var written := Splice(buf, base + 16 * i, segs[n - 1 - i]);
    var rbuf := CopyFrom(written, base, segs, n, i + 1).buf;
    assert CopyFrom(buf, base, segs, n, i).buf == rbuf;
    WrittenEndStep(|buf|, base, n, i);
    assert |written| == |buf|;
    CopyFromWrites(written, base, segs, n, i + 1, f);
    assert f[16 * i..16 * (i + 1)] == segs[n - 1 - i];
    SlotThenRun(buf, base, f, i, WrittenEnd(|buf|, base, n, i), rbuf);
  }

  /** Slot `i` of `f` written, followed by the run of slots `i+1` up to `k`
      (or by nothing when `k = i+1`), is the run of slots `i` up to `k`. */
  lemma {:induction false} SlotThenRun(buf: seq<Byte>, base: nat, f: seq<Byte>, i: nat, k: nat, rbuf: seq<Byte>)
    requires i < k && 16 * k <= |f| && base + 16 * k <= |buf|
    requires var written := Splice(buf, base + 16 * i, f[16 * i..16 * (i + 1)]);
      && (k == i + 1 ==> rbuf == written)
      && (k > i + 1 ==> rbuf == Splice(written, base + 16 * (i + 1), f[16 * (i + 1)..16 * k]))
    ensures rbuf == Splice(buf, base + 16 * i, f[16 * i..16 * k])
  {
    hide *;
    if k > i + 1 {
      SpliceSlotThenRest(buf, base + 16 * i, base + 16 * (i + 1), f, 16 * i, 16 * (i + 1), 16 * k);
    }
  }

  /** `copy_segments_to_srh`: fails for fewer than one or more than ten
      segments, writing nothing; otherwise copies the list reversed into
      consecutive 16-octet slots from `base`, failing at the first slot that
      would cross the end of the frame with the slots before it written. */
  function CopySegmentsToSrh(buf: seq<Byte>, base: nat, segs: SegmentArray, n: Byte): (r: Copied)
    ensures |r.buf| == |buf|
    ensures r.ok <==> 1 <= n <= MaxSegments && base + 16 * n <= |buf|
    ensures (n < 1 || n > MaxSegments) ==> r.buf == buf
    ensures r.ok ==> r.buf == Splice(buf, base, Flatten(WireOrder(segs, n)))
    ensures 1 <= n <= MaxSegments && !r.ok ==>
      var k := SlotsThatFit(|buf|, base);
      && k < n
      && (k == 0 ==> r.buf == buf)
      && (k > 0 ==> r.buf == Splice(buf, base, Flatten(WireOrder(segs, n))[..16 * k]))
  {
    if n < 1 || n > MaxSegments then
      Copied(false, buf)
    else
      CopySegmentsWrites(buf, base, segs, n);
      CopyFrom(buf, base, segs, n, 0)
  }

  /** The loop run from its first iteration, in terms of the whole list. */
  lemma {:induction false} CopySegmentsWrites(buf: seq<Byte>, base: nat, segs: SegmentArray, n: nat)
    requires 1 <= n <= MaxSegments
    ensures var r := CopyFrom(buf, base, segs, n, 0);
      r.ok ==> r.buf == Splice(buf, base, Flatten(WireOrder(segs, n)))
    ensures var r := CopyFrom(buf, base, segs, n, 0);
      !r.ok ==>
      var k := SlotsThatFit(|buf|, base);
      && k < n
      && (k == 0 ==> r.buf == buf)
      && (k > 0 ==> r.buf == Splice(buf, base, Flatten(WireOrder(segs, n))[..16 * k]))
  {
    var f := Flatten(WireOrder(segs, n));
    WireOrderImage(segs, n);
    CopyFromWrites(buf, base, segs, n, 0, f);
    var k := SlotsThatFit(|buf|, base);
    assert f[16 * 0..16 * n] == f;
    assert base + 16 * n > |buf| ==> k < n;
    assert k <= n ==> f[16 * 0..16 * k] == f[..16 * k];
  }

  /** `copy_segment_by_index`: copies segment `index` of the list at
      `segBase` over the 16 octets at `dst`; fails, writing nothing, for an
      index of ten or more or a segment that ends past the frame. */
  function CopySegmentByIndex(frame: seq<Byte>, dst: nat, segBase: nat, index: Byte): (r: Copied)
    requires dst + 16 <= |frame|
    ensures r.ok <==> index < MaxSegments && segBase + 16 * (index + 1) <= |frame|
    ensures !r.ok ==> r.buf == frame
    ensures r.ok ==>
      && |r.buf| == |frame|
      && r.buf[dst..dst + 16] == frame[segBase + 16 * index..segBase + 16 * index + 16]
      && (forall p | 0 <= p < |frame| && !(dst <= p < dst + 16) :: r.buf[p] == frame[p])
  {
    if index >= MaxSegments then
      Copied(false, frame)
    else if segBase + (index + 1) * 16 > |frame| then
      Copied(false, frame)
    else
      Copied(true, Splice(frame, dst, frame[segBase + index * 16..segBase + index * 16 + 16]))
  }
}
