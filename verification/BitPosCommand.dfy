/** BITPOS (bitops.c): the search over a range of bits, byte by byte at its two edges. */
module BitPosCommand {
  import opened Bits
  import opened BitPos

  ghost predicate NoneIn(p: seq<bv8>, bit: bool, lo: nat, hi: nat)
    requires hi <= 8 * |p|
  {
    forall i :: lo <= i < hi ==> BitAt(p, i) != bit
  }

  /** `r` is the first matching bit of the range. */
  ghost predicate Hit(p: seq<bv8>, bit: bool, lo: nat, hi: nat, r: int)
    requires hi <= 8 * |p|
  {
    lo <= r < hi && BitAt(p, r) == bit && NoneIn(p, bit, lo, r)
  }

  /** What `redisBitpos` returns for `n` bytes without a match. */
  function Missing(bit: bool, n: nat): int { if bit then -1 else 8 * n }

  /** A search of the `n` bytes from `start` on tells whether the range has a match, and where. */
  ghost predicate Tells(p: seq<bv8>, bit: bool, lo: nat, hi: nat, start: nat, n: nat, pos: int)
    requires hi <= 8 * |p|
  {
    || (0 <= pos < 8 * n && Hit(p, bit, lo, hi, 8 * start + pos))
    || (pos == Missing(bit, n) && NoneIn(p, bit, lo, hi))
  }

  /** The bits of `tmp` from `lo` to `hi` are those of the byte, and no other matches. */
  ghost predicate Narrowed(tmp: bv8, b: bv8, bit: bool, lo: nat, hi: nat) {
    forall j :: 0 <= j < 8 ==> BitOf(tmp, j) == if lo <= j < hi then BitOf(b, j) else !bit
  }

  lemma SearchCases(s: seq<bv8>, bit: bool, pos: int)
    requires IsFirst(s, bit, pos)
    ensures || (0 <= pos < 8 * |s| && BitAt(s, pos) == bit && forall i :: 0 <= i < pos ==> BitAt(s, i) != bit)
            || (pos == Missing(bit, |s|) && forall i :: 0 <= i < 8 * |s| ==> BitAt(s, i) != bit)
  {
    hide BitAt;
    forall i | 0 <= i < 8 * |s| && (pos == -1 || i < pos) ensures BitAt(s, i) != bit {
      assert Padded(s, i) != bit;
    }
  }

  lemma SliceTells(p: seq<bv8>, bit: bool, from: nat, to: nat, pos: int)
    requires from <= to <= |p| && IsFirst(p[from..to], bit, pos)
    ensures Tells(p, bit, 8 * from, 8 * to, from, to - from, pos)
  {
    SearchCases(p[from..to], bit, pos);
    hide BitAt, IsFirst;
    forall i | 8 * from <= i < 8 * to ensures BitAt(p, i) == BitAt(p[from..to], i - 8 * from) {
      BitInSlice(p, from, to, i - 8 * from);
    }
  }

  lemma NarrowedAt(p: seq<bv8>, bit: bool, q: nat, tmp: bv8, lo: nat, hi: nat, j: nat)
    requires q < |p| && lo <= hi <= 8 && Narrowed(tmp, p[q], bit, lo, hi) && j < 8
    ensures BitAt([tmp], j) == if lo <= j < hi then BitAt(p, 8 * q + j) else !bit
  {
    hide BitOf, BitAt;
    BitInByte([tmp], 0, j);
    BitInByte(p, q, j);
  }

  lemma ByteTells(p: seq<bv8>, bit: bool, q: nat, tmp: bv8, lo: nat, hi: nat, pos: int)
    requires q < |p| && lo <= hi <= 8 && Narrowed(tmp, p[q], bit, lo, hi) && IsFirst([tmp], bit, pos)
    ensures Tells(p, bit, 8 * q + lo, 8 * q + hi, q, 1, pos)
  {
    SearchCases([tmp], bit, pos);
    hide BitAt, IsFirst, Narrowed;
    var found := 0 <= pos < 8;
    if found { NarrowedAt(p, bit, q, tmp, lo, hi, pos); }
    forall i | 8 * q + lo <= i < 8 * q + (if found then pos else hi) ensures BitAt(p, i) != bit {
      NarrowedAt(p, bit, q, tmp, lo, hi, i - 8 * q);
      assert BitAt([tmp], i - 8 * q) != bit;
    }
  }

  /** A match in the first part of a range is the first match of the whole. */
  lemma HitFirst(p: seq<bv8>, bit: bool, lo: nat, mid: nat, hi: nat, start: nat, n: nat, m: nat, pos: int)
    requires mid <= hi <= 8 * |p| && n <= m && Tells(p, bit, lo, mid, start, n, pos) && pos != Missing(bit, n)
    ensures Tells(p, bit, lo, hi, start, m, pos)
  {
    hide BitAt;
  }

  /** Without a match in the first part the second part decides. */
  lemma HitLater(p: seq<bv8>, bit: bool, lo: nat, mid: nat, hi: nat, start: nat, n: nat, pos: int)
    requires lo <= mid <= hi <= 8 * |p| && NoneIn(p, bit, lo, mid) && Tells(p, bit, mid, hi, start, n, pos)
    ensures Tells(p, bit, lo, hi, start, n, pos)
  {
    hide BitAt;
  }

  /** The test of `bitposCommand` for a valid position. */
  lemma ValidPos(p: seq<bv8>, bit: bool, lo: nat, hi: nat, start: nat, n: nat, pos: int)
    requires hi <= 8 * |p| && Tells(p, bit, lo, hi, start, n, pos)
    ensures (pos != -1 && pos != 8 * n) <==> pos != Missing(bit, n)
  {
  }

  lemma MissedNone(p: seq<bv8>, bit: bool, lo: nat, hi: nat, start: nat, n: nat, pos: int)
    requires hi <= 8 * |p| && Tells(p, bit, lo, hi, start, n, pos) && pos == Missing(bit, n)
    ensures NoneIn(p, bit, lo, hi)
  {
  }

  /** The byte without the bits that a mask takes from the search. */
  function Hidden(b: bv8, mask: bv8, bit: bool): bv8 { if bit then b & !mask else b | mask }

  lemma HiddenBit(b: bv8, mask: bv8, bit: bool, j: nat)
    requires j < 8
    ensures BitOf(Hidden(b, mask, bit), j) == if BitOf(mask, j) then !bit else BitOf(b, j)
  {
    NotBit(mask, j);
    AndBit(b, !mask, j);
    OrBit(b, mask, j);
    hide BitOf;
  }

  lemma NarrowFirst(b: bv8, bit: bool, k: nat)
    requires k < 8
    ensures Narrowed(Hidden(b, FirstMask(k), bit), b, bit, k, 8)
  {
    hide BitOf, FirstMask, Hidden;
    forall j | 0 <= j < 8 ensures BitOf(Hidden(b, FirstMask(k), bit), j) == if k <= j < 8 then BitOf(b, j) else !bit {
      FirstMaskBit(k, j);
      HiddenBit(b, FirstMask(k), bit, j);
    }
  }

  lemma NarrowLast(tmp: bv8, b: bv8, bit: bool, lo: nat, k: nat)
    requires lo <= 8 && k < 8 && Narrowed(tmp, b, bit, lo, 8)
    ensures Narrowed(Hidden(tmp, LastMask(k), bit), b, bit, lo, k + 1)
  {
    hide BitOf, LastMask, Hidden;
    forall j | 0 <= j < 8 ensures BitOf(Hidden(tmp, LastMask(k), bit), j) == if lo <= j < k + 1 then BitOf(b, j) else !bit {
      LastMaskBit(k, j);
      HiddenBit(tmp, LastMask(k), bit, j);
    }
  }

  lemma Unchanged(b: bv8, bit: bool)
    ensures Narrowed(b, b, bit, 0, 8)
  {
  }

  /** The masked first byte of the range; it may be the last one as well. */
  method SearchFirst(p: seq<bv8>, bit: bool, start: nat, end: nat, first: nat, last: nat) returns (pos: int)
    requires start <= end < |p| && first < 8 && last < 8 && (start == end ==> first <= last)
    ensures Tells(p, bit, 8 * start + first, 8 * start + (if start == end then last + 1 else 8), start, 1, pos)
  {
    hide FirstMask, LastMask, Narrowed, IsFirst, Tells, Hidden;
    NarrowFirst(p[start], bit, first);
    var tmpchar := Hidden(p[start], FirstMask(first), bit);
    LastMaskNone(last);
    if LastMask(last) != 0 && start == end {
      NarrowLast(tmpchar, p[start], bit, first, last);
      tmpchar := Hidden(tmpchar, LastMask(last), bit);
    }
    pos := Bitpos([tmpchar], bit, 0);
    ByteTells(p, bit, start, tmpchar, first, if start == end then last + 1 else 8, pos);
  }

  /** The masked last byte. */
  method SearchLast(p: seq<bv8>, bit: bool, end: nat, last: nat) returns (pos: int)
    requires end < |p| && last < 8
    ensures Tells(p, bit, 8 * end, 8 * end + last + 1, end, 1, pos)
  {
    hide LastMask, Narrowed, IsFirst, Tells, Hidden;
    Unchanged(p[end], bit);
    NarrowLast(p[end], p[end], bit, 0, last);
    var tmpchar := Hidden(p[end], LastMask(last), bit);
    pos := Bitpos([tmpchar], bit, 0);
    ByteTells(p, bit, end, tmpchar, 0, last + 1, pos);
  }

  lemma FirstMaskNone(k: nat)
    requires k < 8
    ensures FirstMask(k) == 0 <==> k == 0
  {
    FirstMaskValue(k);
  }

  lemma LastMaskNone(k: nat)
    requires k < 8
    ensures LastMask(k) == 0 <==> k == 7
  {
    LastMaskValue(k);
  }

  /** The part of `bitposCommand` up to its label `result`, after the first byte was dealt with:
      whole bytes, and then a masked last one. */
  method SearchRest(p: seq<bv8>, bit: bool, start0: nat, end: nat, last: nat, address: nat) returns (pos: int, start: nat, bytes: nat)
    requires start0 <= end < |p| && last < 8
    ensures start + bytes == end + 1 && Tells(p, bit, 8 * start0, 8 * end + last + 1, start, bytes, pos)
  {
    hide LastMask, IsFirst, Tells;
    LastMaskNone(last);
    start, bytes := start0, end - start0 + 1;
    var curbytes := bytes - if LastMask(last) != 0 then 1 else 0;
    if curbytes > 0 {
      pos := Bitpos(p[start..start + curbytes], bit, address + start);
      SliceTells(p, bit, start, start + curbytes, pos);
      if bytes == curbytes {
        return;
      }
      ValidPos(p, bit, 8 * start, 8 * (start + curbytes), start, curbytes, pos);
      if pos != -1 && pos != 8 * curbytes {
        HitFirst(p, bit, 8 * start, 8 * (start + curbytes), 8 * end + last + 1, start, curbytes, bytes, pos);
        return;
      }
      MissedNone(p, bit, 8 * start, 8 * (start + curbytes), start, curbytes, pos);
      start, bytes := start + curbytes, bytes - curbytes;
    } else {
      NoneHere(p, bit, 8 * start);
    }
    pos := SearchLast(p, bit, end, last);
    HitLater(p, bit, 8 * start0, 8 * end, 8 * end + last + 1, end, 1, pos);
  }

  lemma NoneHere(p: seq<bv8>, bit: bool, lo: nat)
    requires lo <= 8 * |p|
    ensures NoneIn(p, bit, lo, lo)
  {
  }

  /** The part of `bitposCommand` up to its label `result`. */
  method Search(p: seq<bv8>, bit: bool, start0: nat, end: nat, first: nat, last: nat, address: nat)
    returns (pos: int, start: nat, bytes: nat)
    requires start0 <= end < |p| && first < 8 && last < 8 && 8 * start0 + first <= 8 * end + last
    ensures start + bytes == end + 1 && Tells(p, bit, 8 * start0 + first, 8 * end + last + 1, start, bytes, pos)
  {
    hide FirstMask, Tells;
    FirstMaskNone(first);
    start, bytes := start0, end - start0 + 1;
    if FirstMask(first) != 0 {
      pos := SearchFirst(p, bit, start, end, first, last);
      if bytes == 1 {
        return;
      }
      ValidPos(p, bit, 8 * start + first, 8 * start + 8, start, 1, pos);
      if pos != -1 && pos != 8 {
        HitFirst(p, bit, 8 * start + first, 8 * start + 8, 8 * end + last + 1, start, 1, bytes, pos);
        return;
      }
      MissedNone(p, bit, 8 * start + first, 8 * start + 8, start, 1, pos);
      pos, start, bytes := SearchRest(p, bit, start + 1, end, last, address);
      HitLater(p, bit, 8 * start0 + first, 8 * start0 + 8, 8 * end + last + 1, start, bytes, pos);
    } else {
      pos, start, bytes := SearchRest(p, bit, start, end, last, address);
    }
  }

  // ---------- BITPOS ----------

  /** The range arguments of BITPOS. */
  datatype Range = Whole | From(start: int) | FromTo(start: int, end: int, isBit: bool)

  /** The bits the reply is about, as a half-open range. */
  function Covered(p: seq<bv8>, range: Range): (r: (nat, nat))
    ensures r.0 <= r.1 <= 8 * |p|
  {
    match range
    case Whole => (0, 8 * |p|)
    case From(start) => var lo := Index(start, |p|); if lo > |p| then (0, 0) else (8 * lo, 8 * |p|)
    case FromTo(start, end, isBit) =>
      var total := if isBit then 8 * |p| else |p|;
      var lo := Index(start, total);
      var hi := if Index(end, total) >= total then total else Index(end, total) + 1;
      if lo >= hi then (0, 0) else if isBit then (lo, hi) else (8 * lo, 8 * hi)
  }

  /** The bits searched: from the named position on, or those between the two named and those of the
      first position when the end lies before the string. */
  lemma CoveredIs(p: seq<bv8>, range: Range, i: nat)
    requires i < 8 * |p|
    ensures var (lo, hi) := Covered(p, range);
            lo <= i < hi <==>
              match range
              case Whole => true
              case From(start) => Position(start, |p|) <= i / 8
              case FromTo(start, end, isBit) =>
                var (total, u) := (if isBit then 8 * |p| else |p|, if isBit then i else i / 8);
                || Position(start, total) <= u <= Position(end, total)
                || (u == 0 && Position(start, total) <= 0 && Position(end, total) < 0)
  {
    assert i / 8 < |p|;
    if range.FromTo? {
      var (total, u) := (if range.isBit then 8 * |p| else |p|, if range.isBit then i else i / 8);
      RangeIs(range.start, range.end, total, u);
      hide Index;
    }
  }

  /** The reply: the first matching bit of the range, -1 without one or for an empty range, but the
      position just past the string for a zero bit when no end was given. */
  ghost predicate IsReply(p: seq<bv8>, bit: bool, range: Range, r: int) {
    var (lo, hi) := Covered(p, range);
    || (lo < hi && Hit(p, bit, lo, hi, r))
    || (lo < hi && NoneIn(p, bit, lo, hi) && r == if !bit && !range.FromTo? then 8 * |p| else -1)
    || (lo == hi && r == -1)
  }

  /** From the label `result` on. */
  method Reply(p: seq<bv8>, bit: bool, range: Range, start: nat, end: nat, first: nat, last: nat, address: nat) returns (r: int)
    requires start <= end < |p| && first < 8 && last < 8 && 8 * start + first <= 8 * end + last
    requires Covered(p, range) == (8 * start + first, 8 * end + last + 1)
    requires !range.FromTo? ==> end + 1 == |p|
    ensures IsReply(p, bit, range, r)
  {
    hide Covered, BitAt, NoneIn;
    var pos, from, bytes := Search(p, bit, start, end, first, last, address);
    if range.FromTo? && !bit && pos == 8 * bytes {
      return -1;
    }
    r := if pos != -1 then pos + 8 * from else pos;
  }

  /** The computing part of `bitposCommand`. */
  method BitposCommand(p: seq<bv8>, bit: bool, range: Range, address: nat) returns (r: int)
    ensures IsReply(p, bit, range, r)
  {
    hide BitAt, Hit, NoneIn, Index;
    var start, end, totlen := 0, |p| - 1, |p|;
    if !range.Whole? {
      end := if range.FromTo? then range.end else totlen - 1;
      if range.FromTo? && range.isBit { totlen := totlen * 8; }
      start, end := ClampRange(range.start, end, totlen);
      EndIndex(|p|);
      if range.FromTo? && range.isBit && start <= end {
        r := Reply(p, bit, range, start / 8, end / 8, start % 8, end % 8, address);
        return;
      }
    }
    if start > end {
      return -1;
    }
    r := Reply(p, bit, range, start, end, 0, 7, address);
  }

  /** Without an end the range goes to the last byte; an empty string has none. */
  lemma EndIndex(n: nat)
    ensures n > 0 ==> Index(n - 1, n) == n - 1
    ensures n == 0 ==> Index(n - 1, n) >= n
  {
  }
}
