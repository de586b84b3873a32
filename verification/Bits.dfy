/** Bit strings as bitops.c reads them: bit 0 is the most significant bit of the first byte. */
module Bits {

  predicate BitOf(b: bv8, i: nat)
    requires i < 8
  {
    (b >> (7 - i)) & 1 == 1
  }

  predicate BitAt(s: seq<bv8>, i: nat)
    requires i < 8 * |s|
  {
    BitOf(s[i / 8], i % 8)
  }

  /** The byte at an index of the string padded with zeros on the right. */
  function PadByte(s: seq<bv8>, i: nat): bv8 { if i < |s| then s[i] else 0 }

  function One(b: bool): (n: nat)
    ensures n <= 1
  {
    if b then 1 else 0
  }

  /** The number of one bits at positions `lo` up to but not including `hi`. */
  function Ones(s: seq<bv8>, lo: nat, hi: nat): nat
    requires lo <= hi <= 8 * |s|
    decreases hi
  {
    if lo == hi then 0 else Ones(s, lo, hi - 1) + One(BitAt(s, hi - 1))
  }

  lemma {:induction false} OnesSplit(s: seq<bv8>, lo: nat, mid: nat, hi: nat)
    requires lo <= mid <= hi <= 8 * |s|
    ensures Ones(s, lo, hi) == Ones(s, lo, mid) + Ones(s, mid, hi)
    decreases hi
  {
    if mid < hi { OnesSplit(s, lo, mid, hi - 1); }
  }

  /** Reading a slice is reading the string at an offset. */
  lemma BitInSlice(s: seq<bv8>, from: nat, to: nat, i: nat)
    requires from <= to <= |s| && i < 8 * (to - from)
    ensures BitAt(s[from..to], i) == BitAt(s, 8 * from + i)
  {
    hide BitOf;
    assert (8 * from + i) / 8 == from + i / 8 && (8 * from + i) % 8 == i % 8;
  }

  lemma {:induction false} OnesInSlice(s: seq<bv8>, from: nat, to: nat, lo: nat, hi: nat)
    requires from <= to <= |s| && lo <= hi <= 8 * (to - from)
    ensures Ones(s[from..to], lo, hi) == Ones(s, 8 * from + lo, 8 * from + hi)
    decreases hi
  {
    hide BitAt;
    if lo < hi {
      OnesInSlice(s, from, to, lo, hi - 1);
      BitInSlice(s, from, to, hi - 1);
    }
  }

  /** The bits of one byte. */
  lemma BitInByte(s: seq<bv8>, k: nat, j: nat)
    requires k < |s| && j < 8
    ensures BitAt(s, 8 * k + j) == BitOf(s[k], j)
  {
    hide BitOf;
    assert (8 * k + j) / 8 == k && (8 * k + j) % 8 == j;
  }

  /** The two strings agree on one bit of a stretch. */
  predicate SameBit(s: seq<bv8>, a: nat, t: seq<bv8>, b: nat, i: nat)
    requires a + i < 8 * |s| && b + i < 8 * |t|
  {
    BitAt(s, a + i) == BitAt(t, b + i)
  }

  /** Strings that agree on a stretch have the same number of ones there. */
  lemma {:induction false} OnesSame(s: seq<bv8>, a: nat, t: seq<bv8>, b: nat, n: nat)
    requires a + n <= 8 * |s| && b + n <= 8 * |t|
    requires forall i :: 0 <= i < n ==> SameBit(s, a, t, b, i)
    ensures Ones(s, a, a + n) == Ones(t, b, b + n)
  {
    hide BitAt;
    if n > 0 {
      OnesSame(s, a, t, b, n - 1);
      assert SameBit(s, a, t, b, n - 1);
    }
  }

  lemma {:induction false} OnesNone(s: seq<bv8>, lo: nat, hi: nat)
    requires lo <= hi <= 8 * |s| && forall i :: lo <= i < hi ==> !BitAt(s, i)
    ensures Ones(s, lo, hi) == 0
    decreases hi
  {
    hide BitAt;
    if lo < hi { OnesNone(s, lo, hi - 1); }
  }

  // ---------- The masks of BITCOUNT and BITPOS ----------

  /** The bits of a byte before bit `k`. */
  function FirstMask(k: nat): bv8
    requires k < 8
  {
    ((!(((1 as bv16) << (8 - k)) - 1)) & 0xFF) as bv8
  }

  /** The bits of a byte after bit `k`. */
  function LastMask(k: nat): bv8
    requires k < 8
  {
    (((1 as bv16) << (7 - k)) - 1) as bv8
  }

  lemma AndBit(b: bv8, m: bv8, j: nat)
    requires j < 8
    ensures BitOf(b & m, j) == (BitOf(b, j) && BitOf(m, j))
  {
    match j { case 0 => case 1 => case 2 => case 3 => case 4 => case 5 => case 6 => case 7 => }
  }

  lemma OrBit(b: bv8, m: bv8, j: nat)
    requires j < 8
    ensures BitOf(b | m, j) == (BitOf(b, j) || BitOf(m, j))
  {
    match j { case 0 => case 1 => case 2 => case 3 => case 4 => case 5 => case 6 => case 7 => }
  }

  lemma XorBit(b: bv8, m: bv8, j: nat)
    requires j < 8
    ensures BitOf(b ^ m, j) == (BitOf(b, j) != BitOf(m, j))
  {
    match j { case 0 => case 1 => case 2 => case 3 => case 4 => case 5 => case 6 => case 7 => }
  }

  lemma NotBit(b: bv8, j: nat)
    requires j < 8
    ensures BitOf(!b, j) == !BitOf(b, j)
  {
    match j { case 0 => case 1 => case 2 => case 3 => case 4 => case 5 => case 6 => case 7 => }
  }

  lemma FirstMaskValue(k: nat)
    requires k < 8
    ensures FirstMask(k) == [0x00, 0x80, 0xC0, 0xE0, 0xF0, 0xF8, 0xFC, 0xFE][k]
  {
    match k { case 0 => case 1 => case 2 => case 3 => case 4 => case 5 => case 6 => case 7 => }
  }

  lemma LastMaskValue(k: nat)
    requires k < 8
    ensures LastMask(k) == [0x7F, 0x3F, 0x1F, 0x0F, 0x07, 0x03, 0x01, 0x00][k]
  {
    match k { case 0 => case 1 => case 2 => case 3 => case 4 => case 5 => case 6 => case 7 => }
  }

  lemma FirstMaskBit(k: nat, j: nat)
    requires k < 8 && j < 8
    ensures BitOf(FirstMask(k), j) <==> j < k
  {
    FirstMaskValue(k);
    hide FirstMask;
    match k { case 0 => case 1 => case 2 => case 3 => case 4 => case 5 => case 6 => case 7 => }
  }

  lemma LastMaskBit(k: nat, j: nat)
    requires k < 8 && j < 8
    ensures BitOf(LastMask(k), j) <==> j > k
  {
    LastMaskValue(k);
    hide LastMask;
    match k { case 0 => case 1 => case 2 => case 3 => case 4 => case 5 => case 6 => case 7 => }
  }

  // ---------- Ranges ----------

  /** A range argument: a negative index counts from the end. */
  function Index(x: int, total: nat): (i: nat) {
    if x >= 0 then x else if total + x < 0 then 0 else total + x
  }

  /** The position an argument names, which may lie before the string. */
  function Position(x: int, total: nat): int { if x < 0 then total + x else x }

  /** The last position of a string is named by -1, the one before by -2, and so on. */
  lemma CountsFromEnd<T>(before: seq<T>, x: T, after: seq<T>)
    ensures var s := before + [x] + after;
            var i := Position(-(|after| + 1), |s|);
            i == |before| && s[i] == x && Position(i, |s|) == i
  {
  }

  /** The positions of the string inside the converted range are those between the two named, and the
      first one when the end lies before the string and the start is not behind it. */
  lemma RangeIs(start: int, end: int, total: nat, i: nat)
    requires i < total
    ensures Index(start, total) <= i <= (if Index(end, total) >= total then total - 1 else Index(end, total))
       <==> || Position(start, total) <= i <= Position(end, total)
            || (i == 0 && Position(start, total) <= 0 && Position(end, total) < 0)
  {
  }

  /** The conversion of the range arguments that BITCOUNT and BITPOS share. */
  method ClampRange(start0: int, end0: int, totlen: nat) returns (start: nat, end: int)
    ensures start == Index(start0, totlen)
    ensures end == if Index(end0, totlen) >= totlen then totlen - 1 else Index(end0, totlen)
  {
    var s, e := start0, end0;
    if s < 0 { s := totlen + s; }
    if e < 0 { e := totlen + e; }
    if s < 0 { s := 0; }
    if e < 0 { e := 0; }
    if e >= totlen { e := totlen - 1; }
    start, end := s, e;
  }
}
