/** BITFIELD on a string (bitops.c): reading and writing fields of any width at any bit offset. */
module BitfieldStore {
  import opened Text
  import opened Bits
  import opened Bitfield

  /** The unsigned value of `n` bits from `off` on, the first the most significant. */
  function Field(s: seq<bv8>, off: nat, n: nat): nat
    requires off + n <= 8 * |s|
  {
    if n == 0 then 0 else 2 * Field(s, off, n - 1) + One(BitAt(s, off + n - 1))
  }

  lemma {:induction false} FieldBound(s: seq<bv8>, off: nat, n: nat)
    requires off + n <= 8 * |s|
    ensures Field(s, off, n) < Pow2(n)
  {
    if n > 0 { FieldBound(s, off, n - 1); }
  }

  /** The value of a field, as its kind reads it. */
  function Value(s: seq<bv8>, off: nat, bits: nat, sign: bool): int
    requires bits > 0 && off + bits <= 8 * |s|
  {
    Reading(Field(s, off, bits), bits, sign)
  }

  lemma ValueFits(s: seq<bv8>, off: nat, bits: nat, sign: bool)
    requires bits > 0 && off + bits <= 8 * |s|
    ensures Fits(Value(s, off, bits, sign), bits, sign)
  {
    FieldBound(s, off, bits);
    Pow2Step(bits);
    hide Pow2, Field;
  }

  // ---------- Reading ----------

  /** `(byteval >> bit) & 1`. */
  function GetBit(b: bv8, bit: nat): nat
    requires bit < 8
  {
    if (b >> bit) & 1 == 1 then 1 else 0
  }

  /** One round of the loop reads one more bit of the field. */
  lemma ReadStep(s: seq<bv8>, off: nat, j: nat, bits: nat)
    requires j < bits <= 64 && off + bits <= 8 * |s|
    ensures (Field(s, off, j) * 2) % Pow2(64) + GetBit(s[(off + j) / 8], 7 - (off + j) % 8) == Field(s, off, j + 1)
  {
    FieldBound(s, off, j);
    Pow2Step(j + 1);
    Pow2Mono(j + 1, 64);
    hide Pow2;
    ModUnique(Field(s, off, j) * 2, Pow2(64), 0, Field(s, off, j) * 2);
  }

  /** `getUnsignedBitfield`. */
  method GetUnsigned(p: array<bv8>, off: nat, bits: nat) returns (value: nat)
    requires bits <= 64 && off + bits <= 8 * p.Length
    ensures value == Field(p[..], off, bits)
  {
    value := 0;
    assert Field(p[..], off, 0) == 0;
    hide Field, GetBit, Pow2;
    for j := 0 to bits
      invariant value == Field(p[..], off, j)
    {
      var byte := (off + j) / 8;
      var bit := 7 - (off + j) % 8;
      ReadStep(p[..], off, j, bits);
      value := (value * 2) % Pow2(64) + GetBit(p[byte], bit);
    }
  }

  /** `getSignedBitfield`. */
  method GetSigned(p: array<bv8>, off: nat, bits: nat) returns (value: int)
    requires 0 < bits <= 64 && off + bits <= 8 * p.Length
    ensures value == Value(p[..], off, bits, true)
  {
    hide Field, BitSet, Pow2, OrHigh, ToI64, ToU64;
    var u := GetUnsigned(p, off, bits);
    value := ToI64(u);
    FieldBound(p[..], off, bits);
    SignExtend(u, bits);
    if bits < 64 && BitSet(ToU64(value), bits - 1) {
      value := ToI64(OrHigh(ToU64(value), bits));
    }
  }

  lemma SignExtend(u: nat, bits: nat)
    requires 0 < bits <= 64 && u < Pow2(bits)
    ensures ToU64(ToI64(u)) == u
    ensures bits == 64 ==> ToI64(u) == Reading(u, bits, true)
    ensures bits < 64 ==> (if BitSet(u, bits - 1) then ToI64(OrHigh(u, bits)) else ToI64(u)) == Reading(u, bits, true)
  {
    Pow2Mono(bits, 64);
    Pow2Step(64);
    hide Pow2;
    BackU64(u);
    if bits == 64 {
      WideI64(u);
    } else {
      ModUnique(u, Pow2(bits), 0, u);
      hide ToI64, BitSet, OrHigh, ToU64;
      NarrowI64(u, bits);
    }
  }

  lemma BackU64(u: nat)
    requires u < Pow2(64)
    ensures ToU64(ToI64(u)) == u
  {
    hide Pow2;
    ToU64Id(u);
    if u >= Pow2(63) { ModUnique(u - Pow2(64), Pow2(64), -1, u); }
  }

  // ---------- Writing ----------

  /** A byte with at most one bit set. */
  function BitByte(bit: nat, v: bool): bv8
    requires bit < 8
  {
    (if v then 1 as bv8 else 0) << bit
  }

  function Without(b: bv8, mask: bv8): bv8 { b & !mask }

  function With(b: bv8, mask: bv8): bv8 { b | mask }

  /** One bit of a byte replaced. */
  function PutBit(b: bv8, bit: nat, v: bool): bv8
    requires bit < 8
  {
    With(Without(b, BitByte(bit, true)), BitByte(bit, v))
  }

  lemma SingleBit(bit: nat, v: bool, i: nat)
    requires bit < 8 && i < 8
    ensures BitOf(BitByte(bit, v), i) == (v && i == 7 - bit)
  {
    match bit { case 0 => case 1 => case 2 => case 3 => case 4 => case 5 => case 6 => case 7 => }
  }

  lemma WithoutBit(b: bv8, mask: bv8, i: nat)
    requires i < 8
    ensures BitOf(Without(b, mask), i) == (BitOf(b, i) && !BitOf(mask, i))
  {
    NotBit(mask, i);
    AndBit(b, !mask, i);
    hide BitOf;
  }

  lemma WithBit(b: bv8, mask: bv8, i: nat)
    requires i < 8
    ensures BitOf(With(b, mask), i) == (BitOf(b, i) || BitOf(mask, i))
  {
    OrBit(b, mask, i);
    hide BitOf;
  }

  lemma PutBitIs(b: bv8, bit: nat, v: bool, i: nat)
    requires bit < 8 && i < 8
    ensures BitOf(PutBit(b, bit, v), i) == if i == 7 - bit then v else BitOf(b, i)
  {
    hide BitOf, BitByte, With, Without;
    SingleBit(bit, true, i);
    SingleBit(bit, v, i);
    WithoutBit(b, BitByte(bit, true), i);
    WithBit(Without(b, BitByte(bit, true)), BitByte(bit, v), i);
  }

  /** One bit of a string replaced, the rest kept. */
  lemma PutBitAt(s: seq<bv8>, n: nat, v: bool, i: nat)
    requires n < 8 * |s| && i < 8 * |s|
    ensures BitAt(s[n / 8 := PutBit(s[n / 8], 7 - n % 8, v)], i) == if i == n then v else BitAt(s, i)
  {
    hide BitOf, PutBit;
    PutBitIs(s[n / 8], 7 - n % 8, v, i % 8);
    assert i == 8 * (i / 8) + i % 8 && n == 8 * (n / 8) + n % 8;
  }

  /** The first `j` bits of the field are written, all others are the old ones. */
  ghost predicate Written(was: seq<bv8>, now: seq<bv8>, off: nat, j: nat, bits: nat, value: nat)
    requires |was| == |now| && j <= bits && off + bits <= 8 * |was|
  {
    forall i :: 0 <= i < 8 * |was| ==>
      BitAt(now, i) == if off <= i < off + j then BitSet(value, off + bits - 1 - i) else BitAt(was, i)
  }

  lemma WriteStep(was: seq<bv8>, now: seq<bv8>, off: nat, j: nat, bits: nat, value: nat)
    requires |was| == |now| && j < bits && off + bits <= 8 * |was| && Written(was, now, off, j, bits, value)
    ensures var (n, v) := (off + j, BitSet(value, bits - 1 - j));
            Written(was, now[n / 8 := PutBit(now[n / 8], 7 - n % 8, v)], off, j + 1, bits, value)
  {
    var (n, v) := (off + j, BitSet(value, bits - 1 - j));
    var next := now[n / 8 := PutBit(now[n / 8], 7 - n % 8, v)];
    hide BitAt, BitSet, PutBit;
    forall i | 0 <= i < 8 * |was|
      ensures BitAt(next, i) == if off <= i < off + (j + 1) then BitSet(value, off + bits - 1 - i) else BitAt(was, i)
    {
      PutBitAt(now, n, v, i);
    }
  }

  /** `setUnsignedBitfield`. */
  method SetUnsigned(p: array<bv8>, off: nat, bits: nat, value: nat)
    requires off + bits <= 8 * p.Length
    modifies p
    ensures Written(old(p[..]), p[..], off, bits, bits, value)
  {
    ghost var was := p[..];
    assert Written(was, p[..], off, 0, bits, value);
    hide Written, BitSet, PutBit;
    for j := 0 to bits
      invariant Written(was, p[..], off, j, bits, value)
    {
      var bitval := BitSet(value, bits - 1 - j);
      var byte := (off + j) / 8;
      var bit := 7 - (off + j) % 8;
      WriteStep(was, p[..], off, j, bits, value);
      p[byte] := PutBit(p[byte], bit, bitval);
    }
  }

  // ---------- What was written is what is read ----------

  lemma HalfMod(v: nat, m: nat)
    requires m > 0
    ensures v % (2 * m) == 2 * ((v / 2) % m) + v % 2
  {
    var h := v / 2;
    assert h == m * (h / m) + h % m;
    assert 2 * (m * (h / m)) == (2 * m) * (h / m);
    ModUnique(v, 2 * m, h / m, 2 * (h % m) + v % 2);
  }

  lemma HalfBit(v: nat, e: nat)
    ensures BitSet(v, e + 1) == BitSet(v / 2, e)
  {
    Pow2Step(e + 1);
    hide Pow2;
    HalfDiv(v, Pow2(e));
  }

  lemma HalfDiv(v: nat, b: nat)
    requires b > 0
    ensures v / (2 * b) == (v / 2) / b
  {
    var h := v / 2;
    assert h == b * (h / b) + h % b;
    assert 2 * (b * (h / b)) == (2 * b) * (h / b);
    DivUnique(v, 2 * b, h / b, 2 * (h % b) + v % 2);
  }

  lemma DivUnique(x: int, m: nat, q: int, r: int)
    requires m > 0 && x == m * q + r && 0 <= r < m
    ensures x / m == q
  {
    ModUnique(x, m, q, r);
    assert m * (x / m - q) == 0;
  }

  /** A field whose bits are the low digits of a number holds that number modulo its size. */
  lemma {:induction false} FieldOfDigits(s: seq<bv8>, off: nat, n: nat, v: nat)
    requires off + n <= 8 * |s|
    requires forall i :: off <= i < off + n ==> BitAt(s, i) == BitSet(v, off + n - 1 - i)
    ensures Field(s, off, n) == v % Pow2(n)
  {
    if n > 0 {
      hide BitAt;
      assert One(BitAt(s, off + n - 1)) == v % 2 by { assert BitSet(v, 0) == (v % 2 == 1); }
      forall i | off <= i < off + (n - 1) ensures BitAt(s, i) == BitSet(v / 2, off + (n - 1) - 1 - i) {
        HalfBit(v, off + n - 2 - i);
      }
      FieldOfDigits(s, off, n - 1, v / 2);
      HalfMod(v, Pow2(n - 1));
    }
  }

  /** Every bit outside the field is unchanged. */
  ghost predicate KeptOutside(was: seq<bv8>, now: seq<bv8>, off: nat, bits: nat)
    requires |was| == |now|
  {
    forall i :: 0 <= i < 8 * |was| && !(off <= i < off + bits) ==> BitAt(now, i) == BitAt(was, i)
  }

  /** Writing a value the field can hold makes the field read as that value. */
  lemma WrittenReads(was: seq<bv8>, now: seq<bv8>, off: nat, bits: nat, sign: bool, v: int)
    requires |was| == |now| && 0 < bits <= 64 && off + bits <= 8 * |was|
    requires Written(was, now, off, bits, bits, ToU64(v)) && Fits(v, bits, sign)
    ensures Value(now, off, bits, sign) == v && KeptOutside(was, now, off, bits)
  {
    FieldOfDigits(now, off, bits, ToU64(v));
    hide BitAt, BitSet, ToU64;
    NarrowU64(v, bits);
    ReadBack(v, bits, sign);
  }

  lemma ReadBack(v: int, bits: nat, sign: bool)
    requires bits > 0 && Fits(v, bits, sign)
    ensures Reading(v % Pow2(bits), bits, sign) == v
  {
    Pow2Step(bits);
    hide Pow2;
    if v >= 0 { ModUnique(v, Pow2(bits), 0, v); } else { ModUnique(v, Pow2(bits), -1, v + Pow2(bits)); }
  }

  // ---------- INCRBY and SET ----------

  predicate GoodType(bits: nat, sign: bool) { 0 < bits && bits <= (if sign then 64 else 63) }

  /** What a field that held `v` must hold when `sum` is to be stored. */
  ghost predicate Stores(v: int, sum: int, bits: nat, sign: bool, ow: Overflow, now: int)
    requires bits > 0
  {
    && Fits(now, bits, sign)
    && (Fits(sum, bits, sign) ==> now == sum)
    && (!Fits(sum, bits, sign) ==>
          match ow
          case Wrap => now % Pow2(bits) == sum % Pow2(bits)
          case Sat => now == (if sum > Max(bits, sign) then Max(bits, sign) else Min(bits, sign))
          case Fail => now == v)
  }

  /** `newval` of INCRBY and whether it is stored. */
  function NewValue(v: int, incr: int, bits: nat, sign: bool, ow: Overflow): Option<int>
    requires GoodType(bits, sign) && (!sign ==> v >= 0)
  {
    var (code, limit) := if sign then CheckSigned(v, incr, bits, ow) else CheckUnsigned(v, incr, bits, ow);
    if code == 0 then Some(if sign then ToI64(v + incr) else ToU64(v + incr))
    else if ow == Fail then None else Some(limit)
  }

  /** A right verdict leads to the value that must be stored. */
  lemma VerdictStores(code: int, limit: int, fit: int, v: int, sum: int, bits: nat, sign: bool, ow: Overflow)
    requires GoodType(bits, sign) && Fits(v, bits, sign) && Verdict(code, limit, sum, bits, sign, ow)
    requires code == 0 ==> fit == sum
    ensures Stores(v, sum, bits, sign, ow, if code == 0 then fit else if ow == Fail then v else limit)
  {
    ReadingCongruent(sum, bits, sign);
    assert Min(bits, sign) <= Max(bits, sign) by { TypeRange(bits, sign); }
    hide Pow2, Max, Min, Reading;
  }

  lemma NewValueStores(v: int, incr: int, bits: nat, sign: bool, ow: Overflow)
    requires GoodType(bits, sign) && IsI64(incr) && Fits(v, bits, sign)
    ensures var r := NewValue(v, incr, bits, sign, ow);
            && (r == None <==> ow == Fail && !Fits(v + incr, bits, sign))
            && Stores(v, v + incr, bits, sign, ow, if r.Some? then r.value else v)
  {
    var sum := v + incr;
    FitMachine(sum, bits, sign);
    if sign { SignedVerdict(v, incr, bits, ow); } else { NonNegative(v, bits); UnsignedVerdict(v, incr, bits, ow); }
    hide Pow2, CheckSigned, CheckUnsigned, ToI64, ToU64, Fits, Stores, Reading, Max, Min;
    var (code, limit) := if sign then CheckSigned(v, incr, bits, ow) else CheckUnsigned(v, incr, bits, ow);
    VerdictStores(code, limit, if sign then ToI64(sum) else ToU64(sum), v, sum, bits, sign, ow);
  }

  lemma FitMachine(sum: int, bits: nat, sign: bool)
    requires GoodType(bits, sign)
    ensures Fits(sum, bits, sign) ==> (if sign then ToI64(sum) else ToU64(sum)) == sum
  {
    TypeRange(bits, sign);
    hide Pow2, ToI64, ToU64;
    if Fits(sum, bits, sign) {
      if sign { ToI64Id(sum); } else { ToU64Id(sum); }
    }
  }

  lemma NonNegative(v: int, bits: nat)
    requires bits > 0 && Fits(v, bits, false)
    ensures v >= 0
  {
  }

  lemma TypeRange(bits: nat, sign: bool)
    requires GoodType(bits, sign)
    ensures Max(bits, sign) < Pow2(63) && Min(bits, sign) >= 0 - Pow2(63) && Pow2(63) < Pow2(64) && Min(bits, sign) <= Max(bits, sign)
  {
    Pow2Step(64);
    if sign { Pow2Mono(bits - 1, 63); } else { Pow2Mono(bits, 63); }
    hide Pow2;
  }

  /** What INCRBY must do: the field ends up with the true sum or what the overflow type prescribes,
      the reply tells it, and no other bit changes. */
  ghost predicate Increments(was: seq<bv8>, now: seq<bv8>, off: nat, bits: nat, sign: bool, incr: int, ow: Overflow, reply: Option<int>)
    requires bits > 0 && |was| == |now| && off + bits <= 8 * |was|
  {
    var (v, v') := (Value(was, off, bits, sign), Value(now, off, bits, sign));
    && Stores(v, v + incr, bits, sign, ow, v')
    && reply == (if ow == Fail && !Fits(v + incr, bits, sign) then None else Some(v'))
    && KeptOutside(was, now, off, bits)
  }

  lemma IncrStored(was: seq<bv8>, now: seq<bv8>, off: nat, bits: nat, sign: bool, incr: int, ow: Overflow, newval: int)
    requires |was| == |now| && GoodType(bits, sign) && IsI64(incr) && off + bits <= 8 * |was|
    requires !sign ==> Value(was, off, bits, sign) >= 0
    requires NewValue(Value(was, off, bits, sign), incr, bits, sign, ow) == Some(newval)
    requires Written(was, now, off, bits, bits, ToU64(newval))
    ensures Increments(was, now, off, bits, sign, incr, ow, Some(newval))
  {
    hide Pow2, NewValue, Written, KeptOutside, Value, ToU64, Fits;
    ValueFits(was, off, bits, sign);
    NewValueStores(Value(was, off, bits, sign), incr, bits, sign, ow);
    WrittenReads(was, now, off, bits, sign, newval);
  }

  lemma IncrRefused(s: seq<bv8>, off: nat, bits: nat, sign: bool, incr: int, ow: Overflow)
    requires GoodType(bits, sign) && IsI64(incr) && off + bits <= 8 * |s|
    requires !sign ==> Value(s, off, bits, sign) >= 0
    requires NewValue(Value(s, off, bits, sign), incr, bits, sign, ow) == None
    ensures Increments(s, s, off, bits, sign, incr, ow, None)
  {
    hide Pow2, NewValue, Value, Fits;
    ValueFits(s, off, bits, sign);
    NewValueStores(Value(s, off, bits, sign), incr, bits, sign, ow);
  }

  /** The signed path of INCRBY. */
  method IncrSigned(p: array<bv8>, off: nat, bits: nat, incr: int, ow: Overflow) returns (reply: Option<int>)
    requires GoodType(bits, true) && IsI64(incr) && off + bits <= 8 * p.Length
    modifies p
    ensures Increments(old(p[..]), p[..], off, bits, true, incr, ow, reply)
  {
    hide Pow2, CheckSigned, ToI64, ToU64, Written, Value, Increments, IsI64;
    ghost var was := p[..];
    var oldval := GetSigned(p, off, bits);
    var (overflow, wrapped) := CheckSigned(oldval, incr, bits, ow);
    var newval := if overflow != 0 then wrapped else ToI64(oldval + incr);
    if overflow != 0 && ow == Fail {
      IncrRefused(was, off, bits, true, incr, ow);
      return None;
    }
    SetUnsigned(p, off, bits, ToU64(newval));
    IncrStored(was, p[..], off, bits, true, incr, ow, newval);
    reply := Some(newval);
  }

  /** The unsigned path of INCRBY. */
  method IncrUnsigned(p: array<bv8>, off: nat, bits: nat, incr: int, ow: Overflow) returns (reply: Option<int>)
    requires GoodType(bits, false) && IsI64(incr) && off + bits <= 8 * p.Length
    modifies p
    ensures Increments(old(p[..]), p[..], off, bits, false, incr, ow, reply)
  {
    hide Pow2, CheckUnsigned, ToU64, Written, Value, Increments, IsI64, Field;
    ghost var was := p[..];
    PlainReading(was, off, bits);
    var oldval := GetUnsigned(p, off, bits);
    var newval := ToU64(oldval + incr);
    var (overflow, wrapped) := CheckUnsigned(oldval, incr, bits, ow);
    if overflow != 0 { newval := wrapped; }
    if overflow != 0 && ow == Fail {
      IncrRefused(was, off, bits, false, incr, ow);
      return None;
    }
    LimitU64(oldval, incr, bits, ow);
    SetUnsigned(p, off, bits, newval);
    IncrStored(was, p[..], off, bits, false, incr, ow, newval);
    reply := Some(newval);
  }

  /** INCRBY in `bitfieldGeneric`. */
  method IncrBy(p: array<bv8>, off: nat, bits: nat, sign: bool, incr: int, ow: Overflow) returns (reply: Option<int>)
    requires GoodType(bits, sign) && IsI64(incr) && off + bits <= 8 * p.Length
    modifies p
    ensures Increments(old(p[..]), p[..], off, bits, sign, incr, ow, reply)
  {
    hide Increments;
    if sign { reply := IncrSigned(p, off, bits, incr, ow); } else { reply := IncrUnsigned(p, off, bits, incr, ow); }
  }

  lemma PlainReading(s: seq<bv8>, off: nat, bits: nat)
    requires bits > 0 && off + bits <= 8 * |s|
    ensures Value(s, off, bits, false) == Field(s, off, bits)
  {
  }

  /** The unsigned results are `uint64_t` values already. */
  lemma LimitU64(v: nat, incr: int, bits: nat, ow: Overflow)
    requires 0 < bits < 64
    ensures ToU64(CheckUnsigned(v, incr, bits, ow).1) == CheckUnsigned(v, incr, bits, ow).1
    ensures ToU64(ToU64(v + incr)) == ToU64(v + incr)
  {
    Pow2Mono(bits, 64);
    var limit := CheckUnsigned(v, incr, bits, ow).1;
    assert limit < Pow2(64);
    hide Pow2, ToU64, CheckUnsigned;
    ToU64Id(limit);
    ToU64Id(ToU64(v + incr));
  }

  // ---------- SET ----------

  /** What SET does. It saturates to the nearest bound exactly for the arguments named here. */
  ghost predicate Sets(was: seq<bv8>, now: seq<bv8>, off: nat, bits: nat, sign: bool, value: int, ow: Overflow, reply: Option<int>)
    requires bits > 0 && |was| == |now| && off + bits <= 8 * |was|
  {
    var (v, v') := (Value(was, off, bits, sign), Value(now, off, bits, sign));
    && (Fits(value, bits, sign) ==> v' == value)
    && (!Fits(value, bits, sign) ==>
          match ow
          case Wrap => v' % Pow2(bits) == value % Pow2(bits)
          case Sat => v' == Nearest(value, bits, sign) <==> (if sign then value >= Pow2(bits - 1) - Pow2(63) else value >= 0)
          case Fail => v' == v)
    && reply == (if ow == Fail && !Fits(value, bits, sign) then None else Some(v))
    && KeptOutside(was, now, off, bits)
  }

  /** `newval` of SET and whether it is stored. */
  function SetTo(value: int, bits: nat, sign: bool, ow: Overflow): Option<int>
    requires GoodType(bits, sign)
  {
    var (code, limit) := if sign then CheckSigned(value, 0, bits, ow) else CheckUnsigned(ToU64(value), 0, bits, ow);
    if code == 0 then Some(if sign then value else ToU64(value)) else if ow == Fail then None else Some(limit)
  }

  lemma SetToStores(value: int, bits: nat, sign: bool, ow: Overflow)
    requires GoodType(bits, sign) && IsI64(value)
    ensures var r := SetTo(value, bits, sign, ow);
            && (r == None <==> ow == Fail && !Fits(value, bits, sign))
            && (r.Some? ==> Fits(r.value, bits, sign))
            && (r.Some? && Fits(value, bits, sign) ==> r.value == value)
            && (r.Some? && !Fits(value, bits, sign) && ow == Wrap ==> r.value % Pow2(bits) == value % Pow2(bits))
            && (r.Some? && !Fits(value, bits, sign) && ow == Sat ==>
                  (r.value == Nearest(value, bits, sign) <==> (if sign then value >= Pow2(bits - 1) - Pow2(63) else value >= 0)))
  {
    FitMachine(value, bits, sign);
    if ow == Sat { LimitFits(value, bits, sign, ow); }
    ReadingCongruent(value, bits, sign);
    if sign { SignedSet(value, bits, ow); } else { UnsignedSet(value, bits, ow); }
    hide Pow2, CheckSigned, CheckUnsigned, ToI64, ToU64, Fits, Reading, Nearest;
  }

  /** Whatever SET takes for its limit fits the field. */
  lemma LimitFits(value: int, bits: nat, sign: bool, ow: Overflow)
    requires GoodType(bits, sign) && ow == Sat
    ensures if sign then Fits(CheckSigned(value, 0, bits, ow).1, bits, sign) || CheckSigned(value, 0, bits, ow).0 == 0
            else Fits(CheckUnsigned(ToU64(value), 0, bits, ow).1, bits, sign) || CheckUnsigned(ToU64(value), 0, bits, ow).0 == 0
  {
    hide Pow2, ToI64, ToU64;
  }

  lemma SetStored(was: seq<bv8>, now: seq<bv8>, off: nat, bits: nat, sign: bool, value: int, ow: Overflow, newval: int)
    requires |was| == |now| && GoodType(bits, sign) && IsI64(value) && off + bits <= 8 * |was|
    requires SetTo(value, bits, sign, ow) == Some(newval) && Written(was, now, off, bits, bits, ToU64(newval))
    ensures Sets(was, now, off, bits, sign, value, ow, Some(Value(was, off, bits, sign)))
  {
    hide Pow2, SetTo, Written, KeptOutside, Value, ToU64, Fits, Nearest;
    SetToStores(value, bits, sign, ow);
    WrittenReads(was, now, off, bits, sign, newval);
  }

  lemma SetRefused(s: seq<bv8>, off: nat, bits: nat, sign: bool, value: int, ow: Overflow)
    requires GoodType(bits, sign) && IsI64(value) && off + bits <= 8 * |s| && SetTo(value, bits, sign, ow) == None
    ensures Sets(s, s, off, bits, sign, value, ow, None)
  {
    hide Pow2, SetTo, Value, Fits, Nearest;
    SetToStores(value, bits, sign, ow);
  }

  /** SET in `bitfieldGeneric`; the reply is the old value. */
  method SetField(p: array<bv8>, off: nat, bits: nat, sign: bool, value: int, ow: Overflow) returns (reply: Option<int>)
    requires GoodType(bits, sign) && IsI64(value) && off + bits <= 8 * p.Length
    modifies p
    ensures Sets(old(p[..]), p[..], off, bits, sign, value, ow, reply)
  {
    hide Pow2, CheckSigned, CheckUnsigned, ToI64, ToU64, Written, Value, Sets, IsI64, Field;
    ghost var was := p[..];
    var oldval, newval, overflow := 0, value, 0;
    if sign {
      oldval := GetSigned(p, off, bits);
      var (code, wrapped) := CheckSigned(newval, 0, bits, ow);
      overflow := code;
      if overflow != 0 { newval := wrapped; }
    } else {
      PlainReading(was, off, bits);
      oldval := GetUnsigned(p, off, bits);
      newval := ToU64(value);
      var (code, wrapped) := CheckUnsigned(newval, 0, bits, ow);
      overflow := code;
      if overflow != 0 { newval := wrapped; }
    }
    if overflow != 0 && ow == Fail {
      SetRefused(was, off, bits, sign, value, ow);
      return None;
    }
    SetUnsigned(p, off, bits, ToU64(newval));
    SetStored(was, p[..], off, bits, sign, value, ow, newval);
    reply := Some(oldval);
  }

  // ---------- GET ----------

  /** The string followed by zeros. */
  function ZeroPadded(s: seq<bv8>, n: nat): seq<bv8> { s + seq(n, i => 0) }

  lemma {:induction false} FieldInSlice(s: seq<bv8>, from: nat, to: nat, off: nat, n: nat)
    requires from <= to <= |s| && 8 * from <= off && off + n <= 8 * to
    ensures Field(s[from..to], off - 8 * from, n) == Field(s, off, n)
  {
    hide BitAt;
    if n > 0 {
      FieldInSlice(s, from, to, off, n - 1);
      BitInSlice(s, from, to, off - 8 * from + n - 1);
    }
  }

  /** Up to nine bytes copied to a zeroed buffer. */
  method CopyNine(src: seq<bv8>, byte: nat) returns (buf: array<bv8>)
    ensures fresh(buf) && buf.Length == 9
    ensures buf[..] == ZeroPadded(src, byte + 9)[byte..byte + 9]
  {
    buf := new bv8[9](_ => 0);
    ghost var padded := ZeroPadded(src, byte + 9);
    var i := 0;
    while i < 9 && i + byte < |src|
      invariant 0 <= i <= 9
      invariant forall k :: 0 <= k < 9 ==> buf[k] == if k < i then padded[byte + k] else 0
    {
      buf[i] := src[i + byte];
      i := i + 1;
    }
  }

  lemma {:induction false} FieldOfZeros(s: seq<bv8>, off: nat, n: nat)
    requires off + n <= 8 * |s| && forall i :: off <= i < off + n ==> !BitAt(s, i)
    ensures Field(s, off, n) == 0
  {
    hide BitAt;
    if n > 0 { FieldOfZeros(s, off, n - 1); }
  }

  lemma ZeroBits(j: nat)
    requires j < 8
    ensures !BitOf(0, j)
  {
    match j { case 0 => case 1 => case 2 => case 3 => case 4 => case 5 => case 6 => case 7 => }
  }

  /** A field past the end of the string reads as zero, one inside it as it stands there. */
  lemma PaddedReads(s: seq<bv8>, n: nat, off: nat, bits: nat, sign: bool)
    requires bits > 0 && off + bits <= 8 * (|s| + n)
    ensures off >= 8 * |s| ==> Value(ZeroPadded(s, n), off, bits, sign) == 0
    ensures off + bits <= 8 * |s| ==> Value(ZeroPadded(s, n), off, bits, sign) == Value(s, off, bits, sign)
  {
    var padded := ZeroPadded(s, n);
    assert Pow2(bits - 1) > 0 by { PowPositive(bits - 1); }
    if off >= 8 * |s| {
      forall i | off <= i < off + bits ensures !BitAt(padded, i) { ZeroBits(i % 8); }
      FieldOfZeros(padded, off, bits);
    } else if off + bits <= 8 * |s| {
      assert padded[0..|s|] == s;
      FieldInSlice(padded, 0, |s|, off, bits);
    }
  }

  lemma {:induction false} PowPositive(n: nat)
    ensures Pow2(n) > 0
  {
    if n > 0 { PowPositive(n - 1); }
  }

  /** GET in `bitfieldGeneric`: a field may lie partly or wholly beyond the string, which reads as zeros there. */
  method GetField(src: seq<bv8>, off: nat, bits: nat, sign: bool) returns (value: int)
    requires GoodType(bits, sign)
    ensures value == Value(ZeroPadded(src, off / 8 + 9), off, bits, sign)
  {
    var byte := off / 8;
    var buf := CopyNine(src, byte);
    ghost var padded := ZeroPadded(src, byte + 9);
    assert |padded| == |src| + byte + 9;
    hide Field, ZeroPadded, Pow2, Reading;
    FieldInSlice(padded, byte, byte + 9, off, bits);
    if sign {
      value := GetSigned(buf, off - 8 * byte, bits);
    } else {
      PlainReading(padded, off, bits);
      value := GetUnsigned(buf, off - 8 * byte, bits);
    }
  }
}
