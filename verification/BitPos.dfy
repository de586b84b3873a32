/** `redisBitpos` and BITPOS (bitops.c). */
module BitPos {
  import opened Bits

  /** The bit at a position of the string padded with zeros on the right. */
  predicate Padded(s: seq<bv8>, i: nat) { i < 8 * |s| && BitAt(s, i) }

  /** No bit before `n` is the one sought. */
  ghost predicate NoneBefore(s: seq<bv8>, bit: bool, n: nat) {
    forall i :: 0 <= i < n ==> Padded(s, i) != bit
  }

  /** What `redisBitpos` returns: the first matching bit of the padded string, or -1 without a one. */
  ghost predicate IsFirst(s: seq<bv8>, bit: bool, r: int) {
    if r == -1 then bit && NoneBefore(s, true, 8 * |s|)
    else 0 <= r <= 8 * |s| && NoneBefore(s, bit, r) && Padded(s, r) == bit
  }

  /** The byte of bits all different from the one sought. */
  function SkipByte(bit: bool): bv8 { if bit then 0 else 0xFF }

  lemma SkipBits(bit: bool, j: nat)
    requires j < 8
    ensures BitOf(SkipByte(bit), j) != bit
  {
    match j { case 0 => case 1 => case 2 => case 3 => case 4 => case 5 => case 6 => case 7 => }
  }

  /** A byte that is not all skip has a bit that is sought. */
  lemma FoundBit(b: bv8, bit: bool) returns (j: nat)
    requires b != SkipByte(bit)
    ensures j < 8 && BitOf(b, j) == bit
  {
    if BitOf(b, 0) == bit { return 0; }
    if BitOf(b, 1) == bit { return 1; }
    if BitOf(b, 2) == bit { return 2; }
    if BitOf(b, 3) == bit { return 3; }
    if BitOf(b, 4) == bit { return 4; }
    if BitOf(b, 5) == bit { return 5; }
    if BitOf(b, 6) == bit { return 6; }
    return 7;
  }

  lemma PaddedByte(s: seq<bv8>, i: nat, j: nat)
    requires j < 8
    ensures Padded(s, 8 * i + j) == BitOf(PadByte(s, i), j)
  {
    if i < |s| {
      BitInByte(s, i, j);
    } else {
      SkipBits(true, j);
    }
  }

  lemma SkipOne(s: seq<bv8>, bit: bool, i: nat)
    requires NoneBefore(s, bit, 8 * i) && PadByte(s, i) == SkipByte(bit)
    ensures NoneBefore(s, bit, 8 * (i + 1))
  {
    hide BitOf, Padded, PadByte, SkipByte;
    forall n | 0 <= n < 8 * (i + 1) ensures Padded(s, n) != bit {
      if n >= 8 * i {
        PaddedByte(s, i, n - 8 * i);
        SkipBits(bit, n - 8 * i);
      }
    }
  }

  // ---------- Words ----------

  /** A word read in memory: eight bytes. Which one is the lowest does not matter for the comparison. */
  function Word(s: seq<bv8>, i: nat): bv64
    requires i + 8 <= |s|
  {
    (s[i] as bv64) | ((s[i + 1] as bv64) << 8) | ((s[i + 2] as bv64) << 16) | ((s[i + 3] as bv64) << 24)
    | ((s[i + 4] as bv64) << 32) | ((s[i + 5] as bv64) << 40) | ((s[i + 6] as bv64) << 48) | ((s[i + 7] as bv64) << 56)
  }

  function SkipWord(bit: bool): bv64 { if bit then 0 else 0xFFFF_FFFF_FFFF_FFFF }

  predicate AllSkip(s: seq<bv8>, i: nat, bit: bool)
    requires i + 8 <= |s|
  {
    && s[i] == SkipByte(bit) && s[i + 1] == SkipByte(bit) && s[i + 2] == SkipByte(bit) && s[i + 3] == SkipByte(bit)
    && s[i + 4] == SkipByte(bit) && s[i + 5] == SkipByte(bit) && s[i + 6] == SkipByte(bit) && s[i + 7] == SkipByte(bit)
  }

  lemma SkippedWord(s: seq<bv8>, i: nat, bit: bool)
    requires i + 8 <= |s|
    ensures Word(s, i) == SkipWord(bit) <==> AllSkip(s, i, bit)
  {
  }

  lemma SkipEight(s: seq<bv8>, bit: bool, i: nat)
    requires i + 8 <= |s| && NoneBefore(s, bit, 8 * i) && AllSkip(s, i, bit)
    ensures NoneBefore(s, bit, 8 * (i + 8))
  {
    hide NoneBefore, SkipByte;
    SkipOne(s, bit, i);
    SkipOne(s, bit, i + 1);
    SkipOne(s, bit, i + 2);
    SkipOne(s, bit, i + 3);
    SkipOne(s, bit, i + 4);
    SkipOne(s, bit, i + 5);
    SkipOne(s, bit, i + 6);
    SkipOne(s, bit, i + 7);
  }

  /** One step of loading the last word: the bytes so far move up. */
  function Push(w: bv64, b: bv8): bv64 { (w << 8) | (b as bv64) }

  /** The last word after `j` bytes; the first byte becomes the most significant. */
  function Load(s: seq<bv8>, i: nat, j: nat): bv64 {
    if j == 0 then 0 else Push(Load(s, i, j - 1), PadByte(s, i + j - 1))
  }

  /** Bit `q` of a word, the most significant first. */
  predicate HighBit(w: bv64, q: nat)
    decreases q
  {
    if q == 0 then w & 0x8000_0000_0000_0000 != 0 else HighBit(w << 1, q - 1)
  }

  /** Byte `k` of a word, the most significant first. */
  function HighByte(w: bv64, k: nat): bv8
    requires k < 8
  {
    match k {
      case 0 => (w >> 56) as bv8
      case 1 => ((w << 8) >> 56) as bv8
      case 2 => ((w << 16) >> 56) as bv8
      case 3 => ((w << 24) >> 56) as bv8
      case 4 => ((w << 32) >> 56) as bv8
      case 5 => ((w << 40) >> 56) as bv8
      case 6 => ((w << 48) >> 56) as bv8
      case 7 => ((w << 56) >> 56) as bv8
    }
  }

  lemma HighByteNext(w: bv64, k: nat)
    requires k < 7
    ensures HighByte(w << 8, k) == HighByte(w, k + 1)
  {
    match k { case 0 => case 1 => case 2 => case 3 => case 4 => case 5 => case 6 => }
  }

  lemma PushedByte(w: bv64, b: bv8, k: nat)
    requires k < 8
    ensures HighByte(Push(w, b), k) == if k == 7 then b else HighByte(w, k + 1)
  {
    match k { case 0 => case 1 => case 2 => case 3 => case 4 => case 5 => case 6 => case 7 => }
  }

  lemma ShiftFour(w: bv64, q: nat)
    ensures HighBit(w, q + 4) == HighBit(w << 4, q)
  {
    assert HighBit(w, q + 4) == HighBit((w << 1) << 1, q + 2);
    assert HighBit((w << 1) << 1, q + 2) == HighBit((((w << 1) << 1) << 1) << 1, q);
    assert (((w << 1) << 1) << 1) << 1 == w << 4;
  }

  lemma ShiftEight(w: bv64, q: nat)
    ensures HighBit(w, q + 8) == HighBit(w << 8, q)
  {
    hide HighBit;
    ShiftFour(w, q + 4);
    ShiftFour(w << 4, q);
    assert (w << 4) << 4 == w << 8;
  }

  lemma TopFour(w: bv64, j: nat)
    requires j < 4
    ensures HighBit(w, j) == BitOf((w >> 56) as bv8, j)
  {
    match j {
      case 0 =>
      case 1 => assert HighBit(w, 1) == HighBit(w << 1, 0);
      case 2 => assert HighBit(w, 2) == HighBit((w << 1) << 1, 0);
      case 3 => assert HighBit(w, 3) == HighBit((w << 1) << 1, 1);
    }
  }

  lemma TopByte(w: bv64, j: nat)
    requires j < 8
    ensures HighBit(w, j) == BitOf((w >> 56) as bv8, j)
  {
    if j < 4 {
      TopFour(w, j);
    } else {
      ShiftFour(w, j - 4);
      TopFour(w << 4, j - 4);
      hide HighBit;
      match j { case 4 => case 5 => case 6 => case 7 => }
    }
  }

  lemma {:induction false} HighBits(w: bv64, k: nat, j: nat)
    requires k < 8 && j < 8
    ensures HighBit(w, 8 * k + j) == BitOf(HighByte(w, k), j)
    decreases k
  {
    if k == 0 {
      TopByte(w, j);
    } else {
      hide HighBit, BitOf, HighByte;
      ShiftEight(w, 8 * (k - 1) + j);
      HighBits(w << 8, k - 1, j);
      HighByteNext(w, k - 1);
    }
  }

  lemma {:induction false} LoadedByte(s: seq<bv8>, i: nat, j: nat, k: nat)
    requires j <= 8 && 8 - j <= k < 8
    ensures HighByte(Load(s, i, j), k) == PadByte(s, i + j + k - 8)
  {
    hide Push, HighByte, PadByte;
    PushedByte(Load(s, i, j - 1), PadByte(s, i + j - 1), k);
    if k < 7 { LoadedByte(s, i, j - 1, k + 1); }
  }

  /** The loaded word reads the padded string from left to right. */
  lemma LoadedBit(s: seq<bv8>, i: nat, q: nat)
    requires q < 64
    ensures HighBit(Load(s, i, 8), q) == Padded(s, 8 * i + q)
  {
    hide HighBit, HighByte, Load, BitOf, PadByte, Padded;
    var (k, j) := (q / 8, q % 8);
    HighBits(Load(s, i, 8), k, j);
    LoadedByte(s, i, 8, k);
    PaddedByte(s, i + k, j);
    assert 8 * (i + k) + j == 8 * i + q;
  }

  // ---------- The scan ----------

  predicate Matches(one: bv64, word: bv64) { one & word != 0 }

  function Half(one: bv64): bv64 { one >> 1 }

  /** The mask of the scan after `t` steps. */
  function OneAt(t: nat): bv64 {
    if t == 0 then 0x8000_0000_0000_0000 else Half(OneAt(t - 1))
  }

  lemma OneFirst()
    ensures !Half(0xFFFF_FFFF_FFFF_FFFF) == OneAt(0)
  {
  }

  lemma HalfTwice(x: bv64, y: bv64, z: bv64)
    requires y == Half(x) && z == Half(y)
    ensures z == x >> 2
  {
  }

  lemma TwoHalves(t: nat)
    ensures OneAt(t + 2) == Half(Half(OneAt(t)))
  {
    hide OneAt, Half;
    OneStep(t);
    OneStep(t + 1);
  }

  lemma TwoOn(t: nat)
    ensures OneAt(t + 2) == OneAt(t) >> 2
  {
    hide OneAt, Half;
    TwoHalves(t);
    HalfTwice(OneAt(t), Half(OneAt(t)), Half(Half(OneAt(t))));
  }

  lemma FourOn(t: nat)
    ensures OneAt(t + 4) == OneAt(t) >> 4
  {
    hide OneAt;
    TwoOn(t);
    TwoOn(t + 2);
  }

  lemma EightOn(t: nat)
    ensures OneAt(t + 8) == OneAt(t) >> 8
  {
    hide OneAt;
    FourOn(t);
    FourOn(t + 4);
  }

  lemma LastOne()
    ensures OneAt(63) == 1
  {
    hide OneAt;
    assert OneAt(0) == 0x8000_0000_0000_0000 by { OneFirst(); }
    EightOn(0);
    EightOn(8);
    EightOn(16);
    EightOn(24);
    EightOn(32);
    EightOn(40);
    EightOn(48);
    FourOn(56);
    TwoOn(60);
    assert OneAt(63) == Half(OneAt(62)) by { OneStep(62); }
  }

  lemma OneStep(t: nat)
    ensures OneAt(t + 1) == Half(OneAt(t))
  {
  }

  lemma {:induction false} ZeroStays(t: nat, u: nat)
    requires t <= u && OneAt(t) == 0
    ensures OneAt(u) == 0
  {
    if t < u {
      ZeroStays(t, u - 1);
      OneStep(u - 1);
    }
  }

  /** The mask lasts for 64 bits. */
  lemma OneLeft(t: nat)
    requires t < 64
    ensures OneAt(t) != 0
  {
    LastOne();
    if OneAt(t) == 0 { ZeroStays(t, 63); }
  }

  lemma MaskMoves(m: bv64, w: bv64)
    ensures Matches(Half(m), w) <==> Matches(m, w << 1)
  {
  }

  lemma {:induction false} OneMatches(w: bv64, t: nat)
    requires t < 64
    ensures Matches(OneAt(t), w) <==> HighBit(w, t)
    decreases t
  {
    if t == 0 {
      assert OneAt(0) == 0x8000_0000_0000_0000;
    } else {
      OneStep(t - 1);
      hide OneAt, Matches, Half;
      MaskMoves(OneAt(t - 1), w);
      OneMatches(w << 1, t - 1);
    }
  }

  // ---------- redisBitpos ----------

  /** The search must end in the word that starts at byte `i`. */
  ghost predicate EndsHere(s: seq<bv8>, bit: bool, i: nat) {
    i <= |s| && NoneBefore(s, bit, 8 * i)
    && (|s| - i >= 8 || (i < |s| && s[i] != SkipByte(bit)) ==> exists k :: i <= k < i + 8 && PadByte(s, k) != SkipByte(bit))
  }

  predicate Aligned(address: nat) { address % 8 == 0 }

  /** Bytes before the first aligned address. */
  method SkipBytes(s: seq<bv8>, bit: bool, address: nat) returns (i: nat, found: bool)
    ensures i <= |s| && NoneBefore(s, bit, 8 * i) && (found ==> i < |s| && s[i] != SkipByte(bit))
  {
    hide NoneBefore, SkipByte, Aligned;
    i, found := 0, false;
    assert NoneBefore(s, bit, 0) by { NoneYet(s, bit); }
    while !Aligned(address + i) && i < |s|
      invariant i <= |s| && NoneBefore(s, bit, 8 * i)
      decreases |s| - i
    {
      if s[i] != SkipByte(bit) {
        found := true;
        break;
      }
      SkipOne(s, bit, i);
      i := i + 1;
    }
  }

  lemma NoneYet(s: seq<bv8>, bit: bool)
    ensures NoneBefore(s, bit, 0)
  {
  }

  lemma NotAllSkip(s: seq<bv8>, bit: bool, i: nat) returns (k: nat)
    requires i + 8 <= |s| && !AllSkip(s, i, bit)
    ensures i <= k < i + 8 && PadByte(s, k) != SkipByte(bit)
  {
    hide SkipByte;
    k := i;
    while s[k] == SkipByte(bit)
      invariant i <= k < i + 8 && forall j :: i <= j < k ==> s[j] == SkipByte(bit)
      decreases i + 8 - k
    {
      assert k < i + 7;
      k := k + 1;
    }
  }

  /** Whole words of bits that are not sought. */
  method SkipWords(s: seq<bv8>, bit: bool, from: nat) returns (i: nat)
    requires from <= |s| && NoneBefore(s, bit, 8 * from)
    ensures EndsHere(s, bit, i)
  {
    hide NoneBefore, SkipByte, Word, SkipWord, AllSkip;
    i := from;
    while |s| - i >= 8 && Word(s, i) == SkipWord(bit)
      invariant i <= |s| && NoneBefore(s, bit, 8 * i)
      decreases |s| - i
    {
      SkippedWord(s, i, bit);
      SkipEight(s, bit, i);
      i := i + 8;
    }
    if |s| - i >= 8 {
      SkippedWord(s, i, bit);
      ghost var k := NotAllSkip(s, bit, i);
    } else if i < |s| && s[i] != SkipByte(bit) {
      assert PadByte(s, i) != SkipByte(bit);
    }
  }

  /** The bytes from `i` on, padded to a word. */
  method LoadWord(s: seq<bv8>, i: nat) returns (word: bv64)
    requires i <= |s|
    ensures word == Load(s, i, 8)
  {
    hide Push, PadByte;
    word := 0;
    for j := 0 to 8
      invariant word == Load(s, i, j)
    {
      PadIs(s, i + j);
      if i + j < |s| { word := Push(word, s[i + j]); } else { word := Push(word, 0); }
    }
  }

  lemma PadIs(s: seq<bv8>, i: nat)
    ensures PadByte(s, i) == if i < |s| then s[i] else 0
  {
  }

  lemma NonZeroByte(w: bv64) returns (k: nat)
    requires w != 0
    ensures k < 8 && HighByte(w, k) != 0
  {
    if w >> 56 != 0 { return 0; }
    if (w << 8) >> 56 != 0 { return 1; }
    if (w << 16) >> 56 != 0 { return 2; }
    if (w << 24) >> 56 != 0 { return 3; }
    if (w << 32) >> 56 != 0 { return 4; }
    if (w << 40) >> 56 != 0 { return 5; }
    if (w << 48) >> 56 != 0 { return 6; }
    return 7;
  }

  /** A byte of the window that is not all skip puts a bit that is sought in the word. */
  lemma WindowByte(s: seq<bv8>, bit: bool, i: nat, k: nat) returns (q: nat)
    requires i <= k < i + 8 && PadByte(s, k) != SkipByte(bit)
    ensures q < 64 && HighBit(Load(s, i, 8), q) == bit
  {
    hide HighBit, Load, BitOf, PadByte, Padded, SkipByte;
    var j := FoundBit(PadByte(s, k), bit);
    q := 8 * (k - i) + j;
    PaddedByte(s, k, j);
    LoadedBit(s, i, q);
    assert 8 * k + j == 8 * i + q;
  }

  /** The word has a bit that is sought, unless a one is sought and the word is zero. */
  lemma WordHasBit(s: seq<bv8>, bit: bool, i: nat) returns (q: nat)
    requires EndsHere(s, bit, i) && (bit ==> Load(s, i, 8) != 0)
    ensures q < 64 && HighBit(Load(s, i, 8), q) == bit
  {
    hide HighBit, Load, BitOf, NoneBefore;
    if bit {
      var k := NonZeroByte(Load(s, i, 8));
      hide HighByte;
      var j := FoundBit(HighByte(Load(s, i, 8), k), true);
      HighBits(Load(s, i, 8), k, j);
      q := 8 * k + j;
    } else if |s| - i >= 8 {
      var k :| i <= k < i + 8 && PadByte(s, k) != SkipByte(bit);
      q := WindowByte(s, bit, i, k);
    } else {
      q := WindowByte(s, bit, i, |s|);
    }
  }

  lemma {:induction false} ZeroBits(q: nat)
    ensures !HighBit(0, q)
  {
    if q > 0 {
      assert (0 as bv64) << 1 == 0;
      ZeroBits(q - 1);
    }
  }

  /** A zero word when ones are sought means that there is none. */
  lemma NoOne(s: seq<bv8>, i: nat)
    requires EndsHere(s, true, i) && Load(s, i, 8) == 0
    ensures NoneBefore(s, true, 8 * |s|)
  {
    hide HighBit, Load, BitOf, Padded;
    if |s| - i >= 8 {
      var k :| i <= k < i + 8 && PadByte(s, k) != SkipByte(true);
      var q := WindowByte(s, true, i, k);
      ZeroBits(q);
      assert false;
    }
    forall n | 0 <= n < 8 * |s| ensures Padded(s, n) != true {
      if n >= 8 * i {
        LoadedBit(s, i, n - 8 * i);
        ZeroBits(n - 8 * i);
      }
    }
  }

  /** The scan of the last word, bit by bit; it stops before the mask runs out. */
  method Scan(s: seq<bv8>, bit: bool, i: nat, word: bv64) returns (pos: nat)
    requires EndsHere(s, bit, i) && word == Load(s, i, 8) && (bit ==> word != 0)
    ensures 8 * i <= pos < 8 * i + 64 && NoneBefore(s, bit, pos) && Padded(s, pos) == bit
  {
    ghost var q := WordHasBit(s, bit, i);
    Looking(s, bit, i, 0);
    hide HighBit, Load, OneAt, Padded, EndsHere, Matches, Half, NoneBefore;
    var one := TopOne();
    pos := 8 * i;
    ghost var t := 0;
    while one != 0 && Matches(one, word) != bit
      invariant t <= q && pos == 8 * i + t && Scanning(s, bit, i, t, one, word)
      decreases 64 - t
    {
      ScanNext(s, bit, i, t, one, word);
      pos := pos + 1;
      one := Half(one);
      t := t + 1;
    }
    assert one != 0;
  }

  /** The scan after `t` bits: none matched, and the mask selects the next one. */
  ghost predicate Scanning(s: seq<bv8>, bit: bool, i: nat, t: nat, one: bv64, word: bv64) {
    && t < 64 && one == OneAt(t) && one != 0 && NoneBefore(s, bit, 8 * i + t)
    && Matches(one, word) == HighBit(word, t) == Padded(s, 8 * i + t)
  }

  lemma Looking(s: seq<bv8>, bit: bool, i: nat, t: nat)
    requires t < 64 && NoneBefore(s, bit, 8 * i + t)
    ensures Scanning(s, bit, i, t, OneAt(t), Load(s, i, 8))
  {
    hide OneAt, HighBit, Load, Padded, Matches, NoneBefore;
    OneMatches(Load(s, i, 8), t);
    LoadedBit(s, i, t);
    OneLeft(t);
  }

  lemma ScanNext(s: seq<bv8>, bit: bool, i: nat, t: nat, one: bv64, word: bv64)
    requires Scanning(s, bit, i, t, one, word) && word == Load(s, i, 8) && Matches(one, word) != bit && t < 63
    ensures Scanning(s, bit, i, t + 1, Half(one), word)
  {
    hide OneAt, HighBit, Load, Padded, Matches, Half;
    OneStep(t);
    assert NoneBefore(s, bit, 8 * i + t + 1);
    Looking(s, bit, i, t + 1);
  }

  /** A word with only the most significant bit set. */
  method TopOne() returns (one: bv64)
    ensures one == OneAt(0)
  {
    one := 0xFFFF_FFFF_FFFF_FFFF;
    one := Half(one);
    one := !one;
    OneFirst();
  }

  /** `redisBitpos` on a string that starts at an address. */
  method Bitpos(s: seq<bv8>, bit: bool, address: nat) returns (pos: int)
    ensures IsFirst(s, bit, pos)
  {
    hide NoneBefore, Padded, SkipByte;
    var i, found := SkipBytes(s, bit, address);
    if found {
      assert PadByte(s, i) != SkipByte(bit);
    } else {
      i := SkipWords(s, bit, i);
    }
    var word := LoadWord(s, i);
    hide Load, PadByte;
    if bit && word == 0 {
      NoOne(s, i);
      return -1;
    }
    pos := Scan(s, bit, i, word);
    PositionBound(s, bit, pos);
  }

  /** The first match of the padded string is at most one past its end. */
  lemma PositionBound(s: seq<bv8>, bit: bool, pos: nat)
    requires NoneBefore(s, bit, pos) && Padded(s, pos) == bit
    ensures pos <= 8 * |s|
  {
    assert pos > 8 * |s| ==> Padded(s, 8 * |s|) != bit;
  }
}
