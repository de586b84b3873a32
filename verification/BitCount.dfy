/** `redisPopcount` and BITCOUNT (bitops.c). */
module BitCount {
  import opened Bits

  /** The ones of a byte. */
  function BitsInByte(b: bv8): (n: nat)
    ensures n <= 8
  {
    One(BitOf(b, 7)) + One(BitOf(b, 6)) + One(BitOf(b, 5)) + One(BitOf(b, 4))
    + One(BitOf(b, 3)) + One(BitOf(b, 2)) + One(BitOf(b, 1)) + One(BitOf(b, 0))
  }

  // ---------- The table ----------

  /** The five different lines of sixteen in `bitsinbyte`. */
  const LINE_0: seq<nat> := [0, 1, 1, 2, 1, 2, 2, 3, 1, 2, 2, 3, 2, 3, 3, 4]
  const LINE_1: seq<nat> := [1, 2, 2, 3, 2, 3, 3, 4, 2, 3, 3, 4, 3, 4, 4, 5]
  const LINE_2: seq<nat> := [2, 3, 3, 4, 3, 4, 4, 5, 3, 4, 4, 5, 4, 5, 5, 6]
  const LINE_3: seq<nat> := [3, 4, 4, 5, 4, 5, 5, 6, 4, 5, 5, 6, 5, 6, 6, 7]
  const LINE_4: seq<nat> := [4, 5, 5, 6, 5, 6, 6, 7, 5, 6, 6, 7, 6, 7, 7, 8]

  const LINES: seq<seq<nat>> := [
    LINE_0, LINE_1, LINE_1, LINE_2, LINE_1, LINE_2, LINE_2, LINE_3,
    LINE_1, LINE_2, LINE_2, LINE_3, LINE_2, LINE_3, LINE_3, LINE_4]

  function Concat(lines: seq<seq<nat>>): seq<nat> {
    if lines == [] then [] else lines[0] + Concat(lines[1..])
  }

  /** `bitsinbyte`. */
  const TABLE: seq<nat> := Concat(LINES)

  lemma {:induction false} ConcatAt(lines: seq<seq<nat>>, h: nat, l: nat)
    requires forall i :: 0 <= i < |lines| ==> |lines[i]| == 16
    requires h < |lines| && l < 16
    ensures |Concat(lines)| == 16 * |lines| && Concat(lines)[16 * h + l] == lines[h][l]
  {
    if |lines| > 1 {
      ConcatAt(lines[1..], if h > 0 then h - 1 else 0, l);
    } else {
      assert Concat(lines[1..]) == [];
    }
  }

  /** A line is the first one and the ones of its number. */
  lemma LineIs(h: nat, l: nat)
    requires h < 16 && l < 16
    ensures |LINES[h]| == 16 && LINES[h][l] == LINE_0[h] + LINE_0[l]
  {
    var n := LINE_0[h];
    assert LINES[h] == (if n == 0 then LINE_0 else if n == 1 then LINE_1 else if n == 2 then LINE_2 else if n == 3 then LINE_3 else LINE_4);
    LineShifts(l);
  }

  lemma LineShifts(l: nat)
    requires l < 16
    ensures LINE_1[l] == 1 + LINE_0[l] && LINE_2[l] == 2 + LINE_0[l] && LINE_3[l] == 3 + LINE_0[l] && LINE_4[l] == 4 + LINE_0[l]
  {
  }

  lemma HalfOnes(n: bv8)
    requires n < 16
    ensures n as nat < 16
    ensures LINE_0[n as nat] == One(BitOf(n, 4)) + One(BitOf(n, 5)) + One(BitOf(n, 6)) + One(BitOf(n, 7))
  {
    match n
    case 0 => case 1 => case 2 => case 3 => case 4 => case 5 => case 6 => case 7 =>
    case 8 => case 9 => case 10 => case 11 => case 12 => case 13 => case 14 => case _ => assert n == 15;
  }

  lemma ByteHalves(b: bv8)
    ensures b as nat == 16 * ((b >> 4) as nat) + (b & 15) as nat && b >> 4 < 16 && b & 15 < 16
    ensures (b >> 4) as nat < 16 && (b & 15) as nat < 16
  {
  }

  lemma BitsInHalves(b: bv8)
    ensures BitsInByte(b)
         == One(BitOf(b >> 4, 4)) + One(BitOf(b >> 4, 5)) + One(BitOf(b >> 4, 6)) + One(BitOf(b >> 4, 7))
            + (One(BitOf(b & 15, 4)) + One(BitOf(b & 15, 5)) + One(BitOf(b & 15, 6)) + One(BitOf(b & 15, 7)))
  {
  }

  /** The table holds the number of ones of every byte. */
  lemma TableHolds(b: bv8)
    ensures b as nat < |TABLE| && TABLE[b as nat] == BitsInByte(b)
  {
    var (h, l) := ((b >> 4) as nat, (b & 15) as nat);
    ByteHalves(b);
    hide BitOf, BitsInByte, One;
    forall i | 0 <= i < 16 ensures |LINES[i]| == 16 { LineIs(i, 0); }
    ConcatAt(LINES, h, l);
    LineIs(h, l);
    HalfOnes(b >> 4);
    HalfOnes(b & 15);
    BitsInHalves(b);
  }

  // ---------- The parallel step ----------

  /** Addition of words and of bytes; both wrap around. */
  function Plus(x: bv32, y: bv32): bv32 { x + y }

  function Add(x: bv8, y: bv8): bv8 { x + y }

  function Pairs(x: bv32): bv32 { x - ((x >> 1) & 0x55555555) }

  function Quads(x: bv32): bv32 { (x & 0x33333333) + ((x >> 2) & 0x33333333) }

  function Octets(x: bv32): bv32 { (x + (x >> 4)) & 0x0F0F0F0F }

  /** The multiplication at the end of the step. */
  function Gather(t: bv32): bv32 { t * 0x01010101 }

  /** The bytes of a word, the lowest first. */
  function B0(x: bv32): bv8 { (x & 0xFF) as bv8 }

  function B1(x: bv32): bv8 { ((x >> 8) & 0xFF) as bv8 }

  function B2(x: bv32): bv8 { ((x >> 16) & 0xFF) as bv8 }

  function B3(x: bv32): bv8 { (x >> 24) as bv8 }

  predicate BytesBelow(x: bv32, most: bv8) { B0(x) <= most && B1(x) <= most && B2(x) <= most && B3(x) <= most }

  /** The number of ones in a byte, as a byte. */
  function Sum8(b: bv8): bv8 {
    Add(Add(Add(Add(Add(Add(Add(b & 1, (b >> 1) & 1), (b >> 2) & 1), (b >> 3) & 1), (b >> 4) & 1), (b >> 5) & 1), (b >> 6) & 1), (b >> 7) & 1)
  }

  lemma SumBound(b: bv8)
    ensures Sum8(b) <= 8
  {
  }

  lemma StepsCount0(x: bv32)
    ensures B0(Octets(Quads(Pairs(x)))) == Sum8(B0(x))
  {
  }

  lemma StepsCount1(x: bv32)
    ensures B1(Octets(Quads(Pairs(x)))) == Sum8(B1(x))
  {
  }

  lemma StepsCount2(x: bv32)
    ensures B2(Octets(Quads(Pairs(x)))) == Sum8(B2(x))
  {
  }

  lemma StepsCount3(x: bv32)
    ensures B3(Octets(Quads(Pairs(x)))) == Sum8(B3(x))
  {
  }

  /** After the three steps every byte of the word holds its own number of ones. */
  lemma StepsCount(x: bv32)
    ensures var r := Octets(Quads(Pairs(x)));
            && B0(r) == Sum8(B0(x)) && B1(r) == Sum8(B1(x)) && B2(r) == Sum8(B2(x)) && B3(r) == Sum8(B3(x))
            && BytesBelow(r, 8)
  {
    hide Octets, Quads, Pairs, Sum8, B0, B1, B2, B3;
    StepsCount0(x);
    StepsCount1(x);
    StepsCount2(x);
    StepsCount3(x);
    SumBound(B0(x));
    SumBound(B1(x));
    SumBound(B2(x));
    SumBound(B3(x));
  }

  lemma AddLowBytes(a: bv32, b: bv32)
    requires BytesBelow(a, 48) && BytesBelow(b, 8)
    ensures B0(Plus(a, b)) == Add(B0(a), B0(b)) && B1(Plus(a, b)) == Add(B1(a), B1(b))
  {
  }

  lemma AddHighBytes(a: bv32, b: bv32)
    requires BytesBelow(a, 48) && BytesBelow(b, 8)
    ensures B2(Plus(a, b)) == Add(B2(a), B2(b)) && B3(Plus(a, b)) == Add(B3(a), B3(b))
  {
  }

  /** Adding words of small bytes adds their bytes. */
  lemma AddBytes(a: bv32, b: bv32)
    requires BytesBelow(a, 48) && BytesBelow(b, 8)
    ensures var c := Plus(a, b);
            B0(c) == Add(B0(a), B0(b)) && B1(c) == Add(B1(a), B1(b)) && B2(c) == Add(B2(a), B2(b)) && B3(c) == Add(B3(a), B3(b))
  {
    hide B0, B1, B2, B3, BytesBelow, Plus, Add;
    AddLowBytes(a, b);
    AddHighBytes(a, b);
  }

  function Fold(t: bv32): bv32 { t + (t << 8) }

  function FoldHalf(u: bv32): bv32 { u + (u << 16) }

  function Folds(t: bv32): bv32 { (t + (t << 8)) + ((t + (t << 8)) << 16) }

  lemma GatherIsSum(t: bv32)
    ensures Gather(t) == Folds(t)
  {
  }

  lemma SumIsHalves(t: bv32)
    ensures Folds(t) == FoldHalf(t + (t << 8))
  {
  }

  lemma GatherIsFolds(t: bv32)
    ensures Gather(t) == FoldHalf(Fold(t))
  {
    hide Gather, FoldHalf, Folds;
    GatherIsSum(t);
    SumIsHalves(t);
  }

  lemma FoldPairs(t: bv32)
    requires BytesBelow(t, 56)
    ensures B3(Fold(t)) == Add(B3(t), B2(t)) && B1(Fold(t)) == Add(B1(t), B0(t)) && B3(Fold(t)) <= 112 && B1(Fold(t)) <= 112
  {
  }

  lemma FoldLow(t: bv32)
    requires BytesBelow(t, 56)
    ensures B0(Fold(t)) <= 112 && B2(Fold(t)) <= 112
  {
  }

  lemma FoldHalfTop(u: bv32)
    requires B0(u) <= 112 && B2(u) <= 112
    ensures B3(FoldHalf(u)) == B3(u) + B1(u)
  {
  }

  lemma FoldHalves(t: bv32)
    requires BytesBelow(t, 56)
    ensures B3(FoldHalf(Fold(t))) == Add(B3(Fold(t)), B1(Fold(t)))
  {
    hide B0, B1, B2, B3, Fold, FoldHalf, BytesBelow;
    FoldLow(t);
    FoldHalfTop(Fold(t));
  }

  // ---------- From bytes to numbers ----------

  function ToInt(x: bv8): int { x as int }

  function Inc(x: bv8): bv8 { x + 1 }

  lemma ZeroInt()
    ensures ToInt(0) == 0
  {
  }

  lemma IncInt(x: bv8)
    requires x < 255
    ensures ToInt(Inc(x)) == ToInt(x) + 1 && ToInt(x) >= 0
  {
  }

  lemma Pred(y: bv8) returns (z: bv8)
    requires 0 < y <= 112
    ensures y == Inc(z) && z < 112
  {
    z := y - 1;
  }

  lemma AddInc(x: bv8, y: bv8)
    requires x <= 112 && y <= 112
    ensures Add(x, Inc(y)) == Inc(Add(x, y)) && Add(x, y) < 255 && Add(x, 0) == x
  {
  }

  /** Small bytes add as numbers. */
  lemma {:induction false} AddInt(x: bv8, y: bv8)
    requires x <= 112 && y <= 112
    ensures ToInt(Add(x, y)) == ToInt(x) + ToInt(y)
    decreases ToInt(y)
  {
    hide ToInt, Inc, Add;
    if y == 0 {
      ZeroInt();
      AddInc(x, 0);
    } else {
      var z := Pred(y);
      AddInc(x, z);
      IncInt(z);
      AddInt(x, z);
      IncInt(Add(x, z));
    }
  }

  /** The sum of the four bytes of a word. */
  function Total(x: bv32): int { ToInt(B0(x)) + ToInt(B1(x)) + ToInt(B2(x)) + ToInt(B3(x)) }

  /** No byte of the word is larger than `n`. */
  predicate Small(x: bv32, n: nat) { ToInt(B0(x)) <= n && ToInt(B1(x)) <= n && ToInt(B2(x)) <= n && ToInt(B3(x)) <= n }

  lemma Within(x: bv8)
    ensures (ToInt(x) <= 8 <==> x <= 8) && (ToInt(x) <= 48 ==> x <= 48) && (ToInt(x) <= 56 ==> x <= 56)
  {
  }

  lemma SmallBelow(x: bv32)
    ensures (Small(x, 8) <==> BytesBelow(x, 8)) && (Small(x, 48) ==> BytesBelow(x, 48)) && (Small(x, 56) ==> BytesBelow(x, 56))
  {
    hide ToInt, B0, B1, B2, B3;
    Within(B0(x));
    Within(B1(x));
    Within(B2(x));
    Within(B3(x));
  }

  /** Adding words of small bytes adds their totals. */
  lemma AddTotal(a: bv32, b: bv32, n: nat)
    requires n <= 48 && Small(a, n) && Small(b, 8)
    ensures Total(Plus(a, b)) == Total(a) + Total(b) && Small(Plus(a, b), n + 8)
  {
    hide ToInt, B0, B1, B2, B3, Plus, Add;
    SmallBelow(a);
    SmallBelow(b);
    AddBytes(a, b);
    AddInt(B0(a), B0(b));
    AddInt(B1(a), B1(b));
    AddInt(B2(a), B2(b));
    AddInt(B3(a), B3(b));
  }

  /** The multiplication gathers the four bytes in the topmost one. */
  lemma GatherTotal(t: bv32)
    requires Small(t, 56)
    ensures ToInt(B3(Gather(t))) == Total(t)
  {
    hide ToInt, B0, B1, B2, B3, Gather, Fold, FoldHalf, Add;
    SmallBelow(t);
    GatherIsFolds(t);
    FoldHalves(t);
    FoldPairs(t);
    AddInt(B3(Fold(t)), B1(Fold(t)));
    AddInt(B3(t), B2(t));
    AddInt(B1(t), B0(t));
  }

  lemma BitInt(b: bv8)
    ensures ToInt(b & 1) == One(BitOf(b, 7)) && ToInt((b >> 1) & 1) == One(BitOf(b, 6))
    ensures ToInt((b >> 2) & 1) == One(BitOf(b, 5)) && ToInt((b >> 3) & 1) == One(BitOf(b, 4))
    ensures ToInt((b >> 4) & 1) == One(BitOf(b, 3)) && ToInt((b >> 5) & 1) == One(BitOf(b, 2))
    ensures ToInt((b >> 6) & 1) == One(BitOf(b, 1)) && ToInt((b >> 7) & 1) == One(BitOf(b, 0))
  {
    assert ToInt(0) == 0 && ToInt(1) == 1;
    hide ToInt;
  }

  /** One more bit, when few were added so far. */
  lemma AddBit(sum: bv8, bit: bv8, most: nat)
    requires ToInt(sum) <= most <= 8 && ToInt(bit) <= 1
    ensures ToInt(Add(sum, bit)) == ToInt(sum) + ToInt(bit) <= most + 1
  {
    Within(sum);
    Within(bit);
    hide ToInt, Add;
    AddInt(sum, bit);
  }

  function Half(b: bv8): bv8 { Add(Add(Add(b & 1, (b >> 1) & 1), (b >> 2) & 1), (b >> 3) & 1) }

  lemma HalfCounts(b: bv8)
    ensures ToInt(Half(b)) == One(BitOf(b, 7)) + One(BitOf(b, 6)) + One(BitOf(b, 5)) + One(BitOf(b, 4))
  {
    hide ToInt, Add, BitOf, One;
    BitInt(b);
    AddBit(b & 1, (b >> 1) & 1, 1);
    AddBit(Add(b & 1, (b >> 1) & 1), (b >> 2) & 1, 2);
    AddBit(Add(Add(b & 1, (b >> 1) & 1), (b >> 2) & 1), (b >> 3) & 1, 3);
  }

  lemma SumCounts(b: bv8)
    ensures ToInt(Sum8(b)) == BitsInByte(b)
  {
    HalfCounts(b);
    var s4 := Half(b);
    assert Sum8(b) == Add(Add(Add(Add(s4, (b >> 4) & 1), (b >> 5) & 1), (b >> 6) & 1), (b >> 7) & 1);
    hide ToInt, Add, BitOf, One, Half, Sum8;
    BitInt(b);
    var s5 := Add(s4, (b >> 4) & 1);
    var s6 := Add(s5, (b >> 5) & 1);
    var s7 := Add(s6, (b >> 6) & 1);
    AddBit(s4, (b >> 4) & 1, 4);
    AddBit(s5, (b >> 5) & 1, 5);
    AddBit(s6, (b >> 6) & 1, 6);
    AddBit(s7, (b >> 7) & 1, 7);
  }

  // ---------- Words of a string ----------

  /** The word a little-endian load of four bytes gives. */
  function Word(s: seq<bv8>, i: nat): bv32
    requires i + 4 <= |s|
  {
    (s[i] as bv32) | ((s[i + 1] as bv32) << 8) | ((s[i + 2] as bv32) << 16) | ((s[i + 3] as bv32) << 24)
  }

  lemma WordBytes(s: seq<bv8>, i: nat)
    requires i + 4 <= |s|
    ensures var x := Word(s, i); B0(x) == s[i] && B1(x) == s[i + 1] && B2(x) == s[i + 2] && B3(x) == s[i + 3]
  {
  }

  /** The word at an index after the three steps: the counts of its four bytes. */
  function Counts(s: seq<bv8>, i: nat): bv32
    requires i + 4 <= |s|
  {
    Octets(Quads(Pairs(Word(s, i))))
  }

  lemma {:induction false} ByteOnes(s: seq<bv8>, k: nat)
    requires k < |s|
    ensures Ones(s, 8 * k, 8 * k + 8) == BitsInByte(s[k])
  {
    hide BitOf, BitAt;
    BitInByte(s, k, 0);
    BitInByte(s, k, 1);
    BitInByte(s, k, 2);
    BitInByte(s, k, 3);
    BitInByte(s, k, 4);
    BitInByte(s, k, 5);
    BitInByte(s, k, 6);
    BitInByte(s, k, 7);
    var n := 8 * k;
    assert Ones(s, n, n + 1) == One(BitAt(s, n));
    assert Ones(s, n, n + 2) == One(BitAt(s, n)) + One(BitAt(s, n + 1));
    assert Ones(s, n, n + 4) == Ones(s, n, n + 2) + One(BitAt(s, n + 2)) + One(BitAt(s, n + 3));
    assert Ones(s, n, n + 6) == Ones(s, n, n + 4) + One(BitAt(s, n + 4)) + One(BitAt(s, n + 5));
  }

  lemma WordOnes(s: seq<bv8>, i: nat)
    requires i + 4 <= |s|
    ensures BitsInByte(s[i]) + BitsInByte(s[i + 1]) + BitsInByte(s[i + 2]) + BitsInByte(s[i + 3]) == Ones(s, 8 * i, 8 * i + 32)
  {
    hide BitsInByte, Ones;
    ByteOnes(s, i);
    ByteOnes(s, i + 1);
    ByteOnes(s, i + 2);
    ByteOnes(s, i + 3);
    OnesSplit(s, 8 * i, 8 * i + 8, 8 * i + 32);
    OnesSplit(s, 8 * i + 8, 8 * i + 16, 8 * i + 32);
    OnesSplit(s, 8 * i + 16, 8 * i + 24, 8 * i + 32);
  }

  lemma CountsTotal(s: seq<bv8>, i: nat)
    requires i + 4 <= |s|
    ensures Small(Counts(s, i), 8) && Total(Counts(s, i)) == Ones(s, 8 * i, 8 * i + 32)
  {
    hide Word, Octets, Quads, Pairs, B0, B1, B2, B3, ToInt, Sum8, BitsInByte, Ones, Small, BytesBelow;
    WordOnes(s, i);
    WordBytes(s, i);
    StepsCount(Word(s, i));
    SmallBelow(Counts(s, i));
    SumCounts(s[i]);
    SumCounts(s[i + 1]);
    SumCounts(s[i + 2]);
    SumCounts(s[i + 3]);
  }

  /** One round of the loop over 28 bytes. */
  method CountStep(s: seq<bv8>, i: nat) returns (n: nat)
    requires i + 28 <= |s|
    ensures n == Ones(s, 8 * i, 8 * i + 224)
  {
    hide Counts, Plus, Gather, B3, ToInt, Ones, Total, Small;
    var aux := Counts(s, i);
    CountsTotal(s, i);
    for k := 1 to 7
      invariant Small(aux, 8 * k) && Total(aux) == Ones(s, 8 * i, 8 * i + 32 * k)
    {
      CountsTotal(s, i + 4 * k);
      OnesSplit(s, 8 * i, 8 * i + 32 * k, 8 * i + 32 * (k + 1));
      AddTotal(aux, Counts(s, i + 4 * k), 8 * k);
      aux := Plus(aux, Counts(s, i + 4 * k));
    }
    GatherTotal(aux);
    n := ToInt(B3(Gather(aux)));
  }

  /** The ones of the first `i` bytes. */
  function Before(s: seq<bv8>, i: nat): nat
    requires i <= |s|
  {
    Ones(s, 0, 8 * i)
  }

  lemma OneMoreByte(s: seq<bv8>, i: nat)
    requires i < |s|
    ensures Before(s, i + 1) == Before(s, i) + BitsInByte(s[i])
  {
    hide BitsInByte, Ones;
    ByteOnes(s, i);
    OnesSplit(s, 0, 8 * i, 8 * i + 8);
  }

  lemma OneMoreStep(s: seq<bv8>, i: nat)
    requires i + 28 <= |s|
    ensures Before(s, i + 28) == Before(s, i) + Ones(s, 8 * i, 8 * i + 224)
  {
    OnesSplit(s, 0, 8 * i, 8 * i + 224);
  }

  predicate Aligned(address: nat) { address % 4 == 0 }

  /** The bytes before the first aligned address. */
  method CountUnaligned(s: seq<bv8>, address: nat) returns (bits: nat, i: nat)
    ensures i <= |s| && bits == Before(s, i)
  {
    assert Before(s, 0) == 0;
    hide BitsInByte, Aligned, Before;
    bits, i := 0, 0;
    while !Aligned(address + i) && i < |s|
      invariant i <= |s| && bits == Before(s, i)
      decreases |s| - i
    {
      OneMoreByte(s, i);
      TableHolds(s[i]);
      bits, i := bits + TABLE[s[i] as nat], i + 1;
    }
  }

  /** `redisPopcount` on a string that starts at an address. */
  method Popcount(s: seq<bv8>, address: nat) returns (bits: nat)
    ensures bits == Ones(s, 0, 8 * |s|)
  {
    assert Before(s, |s|) == Ones(s, 0, 8 * |s|);
    hide BitsInByte, Ones, Before;
    var i;
    bits, i := CountUnaligned(s, address);
    while |s| - i >= 28
      invariant 0 <= i <= |s| && bits == Before(s, i)
    {
      var n := CountStep(s, i);
      OneMoreStep(s, i);
      bits, i := bits + n, i + 28;
    }
    while i < |s|
      invariant 0 <= i <= |s| && bits == Before(s, i)
    {
      OneMoreByte(s, i);
      TableHolds(s[i]);
      bits, i := bits + TABLE[s[i] as nat], i + 1;
    }
  }

  // ---------- BITCOUNT ----------

  /** The range arguments of BITCOUNT. */
  datatype Range = Whole | Given(start: int, end: int, isBit: bool)

  function Units(p: seq<bv8>, range: Range): nat { if range.Given? && range.isBit then 8 * |p| else |p| }

  /** The last index a range covers, or -1. */
  function Last(x: int, total: nat): int { if Index(x, total) >= total then total - 1 else Index(x, total) }

  /** The bits the reply is about, as a half-open range. */
  function Covered(p: seq<bv8>, range: Range): (r: (nat, nat))
    ensures r.0 <= r.1 <= 8 * |p|
  {
    match range
    case Whole => (0, 8 * |p|)
    case Given(start, end, isBit) =>
      var total := Units(p, range);
      var (lo, hi) := (Index(start, total), Last(end, total));
      if (start < 0 && end < 0 && start > end) || lo > hi then (0, 0)
      else if isBit then (lo, hi + 1) else (8 * lo, 8 * (hi + 1))
  }

  /** Bit `i` lies at a position between the two that the arguments name. */
  predicate Between(p: seq<bv8>, start: int, end: int, isBit: bool, i: nat) {
    var total := if isBit then 8 * |p| else |p|;
    Position(start, total) <= (if isBit then i else i / 8) <= Position(end, total)
  }

  /** The end lies before the string, and the start is not behind the first position or the end. */
  predicate EndBefore(p: seq<bv8>, start: int, end: int, isBit: bool) {
    var total := if isBit then 8 * |p| else |p|;
    Position(start, total) <= 0 && Position(end, total) < 0 && !(start < 0 && end < 0 && start > end)
  }

  /** The bits counted are those between the two positions, and those of the first position when the
      end lies before the string. */
  lemma CoveredIs(p: seq<bv8>, start: int, end: int, isBit: bool, i: nat)
    requires i < 8 * |p|
    ensures var (lo, hi) := Covered(p, Given(start, end, isBit));
            lo <= i < hi <==> || Between(p, start, end, isBit, i)
                              || (EndBefore(p, start, end, isBit) && (if isBit then i else i / 8) == 0)
  {
    var (total, u) := (if isBit then 8 * |p| else |p|, if isBit then i else i / 8);
    RangeIs(start, end, total, u);
    assert i / 8 < |p|;
    hide Index;
  }

  /** So exactly the named positions are counted if and only if the string is empty or the end is not
      before it. */
  lemma CountsNamedIff(p: seq<bv8>, start: int, end: int, isBit: bool)
    ensures (forall i: nat :: i < 8 * |p| ==> (InCovered(p, start, end, isBit, i) <==> Between(p, start, end, isBit, i)))
       <==> p == [] || !EndBefore(p, start, end, isBit)
  {
    forall i: nat | i < 8 * |p|
      ensures InCovered(p, start, end, isBit, i) <==> || Between(p, start, end, isBit, i)
                                                      || (EndBefore(p, start, end, isBit) && (if isBit then i else i / 8) == 0)
    {
      CoveredIs(p, start, end, isBit, i);
    }
    if p != [] && EndBefore(p, start, end, isBit) {
      assert InCovered(p, start, end, isBit, 0) && !Between(p, start, end, isBit, 0);
    }
    hide InCovered;
  }

  predicate InCovered(p: seq<bv8>, start: int, end: int, isBit: bool, i: nat) {
    var (lo, hi) := Covered(p, Given(start, end, isBit));
    lo <= i < hi
  }

  /** From -9 to -8 of a string of one byte: the byte is counted, though both lie before it. */
  lemma CountsBeforeString()
    ensures Covered([0xFF], Given(-9, -8, false)) == (0, 8) && !Between([0xFF], -9, -8, false, 0)
  {
  }

  /** Exactly the bits from `lo` to `hi` of `b` remain in `t`. */
  ghost predicate Keeps(t: bv8, b: bv8, lo: nat, hi: nat) {
    forall j :: 0 <= j < 8 ==> BitOf(t, j) == (lo <= j < hi && BitOf(b, j))
  }

  lemma KeptOnes(t: bv8, b: bv8, lo: nat, hi: nat)
    requires lo <= hi <= 8 && Keeps(t, b, lo, hi)
    ensures BitsInByte(t) == Ones([b], lo, hi)
  {
    hide BitsInByte, BitOf, Ones;
    ByteOnes([t], 0);
    forall j | 0 <= j < 8 ensures BitAt([t], j) == (lo <= j < hi && BitAt([b], j)) {
      BitInByte([t], 0, j);
      BitInByte([b], 0, j);
    }
    hide BitAt;
    OnesSplit([t], 0, lo, 8);
    OnesSplit([t], lo, hi, 8);
    OnesNone([t], 0, lo);
    OnesNone([t], hi, 8);
    forall i | 0 <= i < hi - lo ensures SameBit([t], lo, [b], lo, i) {
      assert BitAt([t], lo + i) == BitAt([b], lo + i);
    }
    OnesSame([t], lo, [b], lo, hi - lo);
  }

  lemma ByteInString(p: seq<bv8>, q: nat, lo: nat, hi: nat)
    requires q < |p| && lo <= hi <= 8
    ensures Ones([p[q]], lo, hi) == Ones(p, 8 * q + lo, 8 * q + hi)
  {
    assert p[q..q + 1] == [p[q]];
    OnesInSlice(p, q, q + 1, lo, hi);
  }

  lemma FirstKeeps(b: bv8, k: nat)
    requires k < 8
    ensures Keeps(b & FirstMask(k), b, 0, k)
  {
    hide FirstMask, BitOf;
    forall j | 0 <= j < 8 ensures BitOf(b & FirstMask(k), j) == (0 <= j < k && BitOf(b, j)) {
      FirstMaskBit(k, j);
      AndBit(b, FirstMask(k), j);
    }
  }

  lemma LastKeeps(b: bv8, k: nat)
    requires k < 8
    ensures Keeps(b & LastMask(k), b, k + 1, 8)
  {
    hide LastMask, BitOf;
    forall j | 0 <= j < 8 ensures BitOf(b & LastMask(k), j) == (k + 1 <= j < 8 && BitOf(b, j)) {
      LastMaskBit(k, j);
      AndBit(b, LastMask(k), j);
    }
  }

  lemma FirstMasked(p: seq<bv8>, s: nat)
    requires s < 8 * |p|
    ensures BitsInByte(p[s / 8] & FirstMask(s % 8)) == Ones(p, 8 * (s / 8), s)
  {
    hide BitsInByte, FirstMask, Ones, Keeps;
    FirstKeeps(p[s / 8], s % 8);
    KeptOnes(p[s / 8] & FirstMask(s % 8), p[s / 8], 0, s % 8);
    ByteInString(p, s / 8, 0, s % 8);
  }

  lemma LastMasked(p: seq<bv8>, e: nat)
    requires e < 8 * |p|
    ensures BitsInByte(p[e / 8] & LastMask(e % 8)) == Ones(p, e + 1, 8 * (e / 8) + 8)
  {
    hide BitsInByte, LastMask, Ones, Keeps;
    LastKeeps(p[e / 8], e % 8);
    KeptOnes(p[e / 8] & LastMask(e % 8), p[e / 8], e % 8 + 1, 8);
    ByteInString(p, e / 8, e % 8 + 1, 8);
  }

  /** What is counted too much at the two edges, even when they share one byte. */
  lemma EdgesCount(p: seq<bv8>, lo: nat, hi: nat, first: bv8, last: bv8)
    requires lo <= hi < 8 * |p| && first == p[lo / 8] & FirstMask(lo % 8) && last == p[hi / 8] & LastMask(hi % 8)
    ensures Ones([first, last], 0, 16) + Ones(p, lo, hi + 1) == Ones(p, 8 * (lo / 8), 8 * (hi / 8) + 8)
  {
    hide BitsInByte, Ones, FirstMask, LastMask;
    FirstMasked(p, lo);
    LastMasked(p, hi);
    ByteOnes([first, last], 0);
    ByteOnes([first, last], 1);
    OnesSplit([first, last], 0, 8, 16);
    OnesSplit(p, 8 * (lo / 8), lo, 8 * (hi / 8) + 8);
    OnesSplit(p, lo, hi + 1, 8 * (hi / 8) + 8);
  }

  lemma NoMask(b: bv8)
    ensures b & 0 == 0
  {
  }

  /** The bytes from `start` to `end`, less the masked bits of the two edge bytes. */
  method CountMasked(p: seq<bv8>, start: nat, end: nat, firstMask: bv8, lastMask: bv8, address: nat) returns (count: int)
    requires start <= end < |p|
    ensures count == Ones(p, 8 * start, 8 * end + 8) - Ones([p[start] & firstMask, p[end] & lastMask], 0, 16)
  {
    hide Ones, BitsInByte;
    var bits := Popcount(p[start..end + 1], address);
    OnesInSlice(p, start, end + 1, 0, 8 * (end + 1 - start));
    count := bits;
    NoMask(p[start]);
    NoMask(p[end]);
    var first, last: bv8 := 0, 0;
    if firstMask != 0 { first := p[start] & firstMask; }
    if lastMask != 0 { last := p[end] & lastMask; }
    if firstMask != 0 || lastMask != 0 {
      var out := Popcount([first, last], 0);
      count := count - out;
    } else {
      ZeroOnes();
    }
  }

  lemma ZeroOnes()
    ensures Ones([0, 0], 0, 16) == 0
  {
    forall i | 0 <= i < 16 ensures !BitAt([0, 0], i) {}
    OnesNone([0, 0], 0, 16);
  }

  /** The computing part of `bitcountCommand`, on a string that starts at an address. */
  method Bitcount(p: seq<bv8>, range: Range, address: nat) returns (count: int)
    ensures var (lo, hi) := Covered(p, range); count == Ones(p, lo, hi)
  {
    hide Ones, BitsInByte, FirstMask, LastMask, Index;
    var start, end := 0, |p| - 1;
    if range.Given? {
      if range.start < 0 && range.end < 0 && range.start > range.end {
        EmptyOnes(p);
        return 0;
      }
      var totlen := if range.isBit then 8 * |p| else |p|;
      start, end := ClampRange(range.start, range.end, totlen);
      if range.isBit && start <= end {
        count := CountBits(p, start, end, address);
        return;
      }
    }
    EmptyOnes(p);
    if start > end {
      return 0;
    }
    var bits := Popcount(p[start..end + 1], address);
    OnesInSlice(p, start, end + 1, 0, 8 * (end + 1 - start));
    count := bits;
  }

  lemma EmptyOnes(p: seq<bv8>)
    ensures Ones(p, 0, 0) == 0
  {
  }

  /** The BIT mode: masks for the edges, then whole bytes. */
  method CountBits(p: seq<bv8>, start: nat, end: nat, address: nat) returns (count: int)
    requires start <= end < 8 * |p|
    ensures count == Ones(p, start, end + 1)
  {
    hide Ones, FirstMask, LastMask;
    EdgesCount(p, start, end, p[start / 8] & FirstMask(start % 8), p[end / 8] & LastMask(end % 8));
    count := CountMasked(p, start / 8, end / 8, FirstMask(start % 8), LastMask(end % 8), address);
  }
}
