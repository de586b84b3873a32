/** BITFIELD arithmetic (bitops.c): 64-bit machine integers and the two overflow checks. */
module Bitfield {

  function Pow2(n: nat): (p: nat)
    ensures p > 0
  {
    if n == 0 then 1 else 2 * Pow2(n - 1)
  }

  /** Conversions to `uint64_t` and `int64_t`. */
  function ToU64(x: int): (u: nat)
    ensures u < Pow2(64)
  {
    x % Pow2(64)
  }

  function ToI64(x: int): int {
    if ToU64(x) >= Pow2(63) then ToU64(x) - Pow2(64) else ToU64(x)
  }

  predicate IsI64(x: int) { 0 - Pow2(63) <= x < Pow2(63) }

  /** The test `v & (1 << e)`. */
  predicate BitSet(v: nat, e: nat) { (v / Pow2(e)) % 2 == 1 }

  /** `u & ~mask` and `u | mask`, where `mask` has all bits from `bits` up. */
  function AndLow(u: nat, bits: nat): nat { u % Pow2(bits) }

  function OrHigh(u: nat, bits: nat): nat
    requires bits <= 64
  {
    assert Pow2(bits) <= Pow2(64) by { Pow2Mono(bits, 64); }
    u % Pow2(bits) + (Pow2(64) - Pow2(bits))
  }

  lemma {:induction false} Pow2Mono(a: nat, b: nat)
    requires a <= b
    ensures Pow2(a) <= Pow2(b)
  {
    if a < b { Pow2Mono(a, b - 1); }
  }

  lemma Pow2Step(n: nat)
    requires n > 0
    ensures Pow2(n) == 2 * Pow2(n - 1)
  {
  }

  /** What a field of this width and kind can hold. */
  function Max(bits: nat, sign: bool): int
    requires bits > 0
  {
    if sign then Pow2(bits - 1) - 1 else Pow2(bits) - 1
  }

  function Min(bits: nat, sign: bool): int
    requires bits > 0
  {
    if sign then 0 - Pow2(bits - 1) else 0
  }

  predicate Fits(x: int, bits: nat, sign: bool)
    requires bits > 0
  {
    Min(bits, sign) <= x <= Max(bits, sign)
  }

  /** The value of a field whose bits read as `u`. */
  function Reading(u: nat, bits: nat, sign: bool): int
    requires bits > 0
  {
    if sign && u >= Pow2(bits - 1) then u - Pow2(bits) else u
  }

  datatype Overflow = Wrap | Sat | Fail

  // ---------- Machine integers ----------

  lemma ModUnique(x: int, m: nat, q: int, r: int)
    requires m > 0 && x == m * q + r && 0 <= r < m
    ensures x % m == r
  {
    var k := x / m - q;
    assert m * k == r - x % m;
    assert k >= 1 ==> m * k >= m;
    assert k <= -1 ==> m * k <= 0 - m;
  }

  /** A multiple of the modulus does not matter. */
  lemma ModShift(x: int, m: nat, k: int)
    requires m > 0
    ensures (x + m * k) % m == x % m
  {
    assert x + m * k == m * (x / m + k) + x % m;
    ModUnique(x + m * k, m, x / m + k, x % m);
  }

  lemma ToU64Id(x: int)
    requires 0 <= x < Pow2(64)
    ensures ToU64(x) == x
  {
    hide Pow2;
    ModUnique(x, Pow2(64), 0, x);
  }

  lemma ToI64Id(x: int)
    requires IsI64(x)
    ensures ToI64(x) == x
  {
    Pow2Step(64);
    hide Pow2;
    if x >= 0 {
      ModUnique(x, Pow2(64), 0, x);
    } else {
      ModUnique(x, Pow2(64), -1, x + Pow2(64));
    }
  }

  /** Reducing to 64 bits first does not change the residue of a narrower width. */
  lemma {:induction false} NarrowU64(x: int, bits: nat)
    requires bits <= 64
    ensures ToU64(x) % Pow2(bits) == x % Pow2(bits)
  {
    var k := Pow2(64 - bits);
    Pow2Product(bits, 64 - bits);
    hide Pow2;
    var m := Pow2(bits);
    var q := x / Pow2(64);
    assert x == Pow2(64) * q + ToU64(x);
    assert Pow2(64) * q == m * (k * q) by { assert Pow2(64) == m * k; Assoc(m, k, q); }
    ModShift(ToU64(x), m, k * q);
  }

  lemma Assoc(a: int, b: int, c: int)
    ensures (a * b) * c == a * (b * c)
  {
  }

  lemma {:induction false} Pow2Product(a: nat, b: nat)
    ensures Pow2(a + b) == Pow2(a) * Pow2(b)
  {
    if b > 0 {
      Pow2Product(a, b - 1);
      Assoc(2, Pow2(a), Pow2(b - 1));
      assert Pow2(a + b) == 2 * Pow2(a + (b - 1));
    }
  }

  /** The sign bit of a narrow value. */
  lemma TopDigit(c: nat, bits: nat)
    requires bits > 0
    ensures BitSet(c, bits - 1) <==> c % Pow2(bits) >= Pow2(bits - 1)
  {
    Pow2Step(bits);
    hide Pow2;
    var h := Pow2(bits - 1);
    var (q, r) := (c / h, c % h);
    assert c == h * q + r;
    if q % 2 == 1 {
      assert h * q == h * (2 * (q / 2) + 1);
      assert h * (2 * (q / 2) + 1) == (2 * h) * (q / 2) + h;
      ModUnique(c, 2 * h, q / 2, h + r);
    } else {
      assert h * q == h * (2 * (q / 2));
      assert h * (2 * (q / 2)) == (2 * h) * (q / 2);
      ModUnique(c, 2 * h, q / 2, r);
    }
  }

  // ---------- The overflow checks ----------

  /** `checkUnsignedBitfieldOverflow`: the verdict and the limit. */
  function CheckUnsigned(value: nat, incr: int, bits: nat, ow: Overflow): (int, nat)
    requires 0 < bits <= 64
  {
    var max := if bits == 64 then Pow2(64) - 1 else Pow2(bits) - 1;
    var (maxincr, minincr) := (ToI64(max - value), ToI64(0 - value));
    var wrapped := AndLow(ToU64(value + incr), bits);
    if value > max || (incr > 0 && incr > maxincr) then
      (1, match ow case Wrap => wrapped case Sat => max case Fail => 0)
    else if incr < 0 && incr < minincr then
      match ow case Wrap => (1, wrapped) case Sat => (-1, 0) case Fail => (-1, 0)
    else (0, 0)
  }

  /** `checkSignedBitfieldOverflow`: the verdict and the limit. */
  function CheckSigned(value: int, incr: int, bits: nat, ow: Overflow): (int, int)
    requires 0 < bits <= 64
  {
    var max := if bits == 64 then Pow2(63) - 1 else Pow2(bits - 1) - 1;
    var min := (0 - max) - 1;
    var (maxincr, minincr) := (ToI64(max - value), ToI64(min - value));
    if value > max || (bits != 64 && incr > maxincr) || (value >= 0 && incr > 0 && incr > maxincr) then
      (1, match ow case Wrap => WrapSigned(value, incr, bits) case Sat => max case Fail => 0)
    else if value < min || (bits != 64 && incr < minincr) || (value < 0 && incr < 0 && incr < minincr) then
      match ow case Wrap => (1, WrapSigned(value, incr, bits)) case Sat => (-1, min) case Fail => (-1, 0)
    else (0, 0)
  }

  /** The label `handle_wrap` of the signed check. */
  function WrapSigned(value: int, incr: int, bits: nat): int
    requires 0 < bits <= 64
  {
    var c := ToU64(value + incr);
    ToI64(if bits == 64 then c else if BitSet(c, bits - 1) then OrHigh(c, bits) else AndLow(c, bits))
  }

  lemma HighI64(c: nat, bits: nat)
    requires 0 < bits < 64 && c % Pow2(bits) >= Pow2(bits - 1)
    ensures ToI64(OrHigh(c, bits)) == c % Pow2(bits) - Pow2(bits)
  {
    Pow2Mono(bits, 63);
    Pow2Step(64);
    Pow2Step(bits);
    hide Pow2, ToU64;
    ToU64Id(OrHigh(c, bits));
  }

  lemma LowI64(c: nat, bits: nat)
    requires 0 < bits < 64
    ensures ToI64(AndLow(c, bits)) == c % Pow2(bits)
  {
    Pow2Mono(bits, 63);
    hide Pow2, ToI64;
    ToI64Id(AndLow(c, bits));
  }

  lemma WideI64(c: nat)
    requires c < Pow2(64)
    ensures ToI64(c) == Reading(c, 64, true)
  {
    hide Pow2, ToU64;
    ToU64Id(c);
  }

  /** The wrapped value is the congruent one the field can hold. */
  lemma WrapSignedIs(value: int, incr: int, bits: nat)
    requires 0 < bits <= 64
    ensures WrapSigned(value, incr, bits) == Reading((value + incr) % Pow2(bits), bits, true)
  {
    var c := ToU64(value + incr);
    if bits == 64 {
      hide Pow2, ToI64;
      WideI64(c);
    } else {
      assert c % Pow2(bits) == (value + incr) % Pow2(bits) by { NarrowU64(value + incr, bits); }
      hide Pow2, ToI64, BitSet, ToU64, OrHigh, AndLow;
      NarrowI64(c, bits);
    }
  }

  lemma NarrowI64(c: nat, bits: nat)
    requires 0 < bits < 64
    ensures ToI64(if BitSet(c, bits - 1) then OrHigh(c, bits) else AndLow(c, bits)) == Reading(c % Pow2(bits), bits, true)
  {
    hide Pow2, ToI64, BitSet, ToU64, OrHigh, AndLow;
    TopDigit(c, bits);
    if BitSet(c, bits - 1) { HighI64(c, bits); } else { LowI64(c, bits); }
  }

  /** The reading of a residue is in range and congruent. */
  lemma ReadingCongruent(x: int, bits: nat, sign: bool)
    requires bits > 0
    ensures var v := Reading(x % Pow2(bits), bits, sign);
            Fits(v, bits, sign) && v % Pow2(bits) == x % Pow2(bits)
  {
    Pow2Step(bits);
    hide Pow2;
    var (m, u) := (Pow2(bits), x % Pow2(bits));
    ModUnique(u, m, 0, u);
    ModUnique(u - m, m, -1, u);
  }

  /** What a verdict and its limit must say about storing `sum`. */
  ghost predicate Verdict(code: int, limit: int, sum: int, bits: nat, sign: bool, ow: Overflow)
    requires bits > 0
  {
    && (code == 0 <==> Fits(sum, bits, sign))
    && (code != 0 && ow == Wrap ==> limit == Reading(sum % Pow2(bits), bits, sign))
    && (code != 0 && ow == Sat ==> limit == if sum > Max(bits, sign) then Max(bits, sign) else Min(bits, sign))
  }

  /** For every stored value and increment the unsigned check is right. */
  lemma UnsignedVerdict(value: nat, incr: int, bits: nat, ow: Overflow)
    requires 0 < bits < 64 && IsI64(incr) && Fits(value, bits, false)
    ensures var (code, limit) := CheckUnsigned(value, incr, bits, ow); Verdict(code, limit, value + incr, bits, false, ow)
  {
    hide Pow2, ToI64, ToU64, AndLow, Reading;
    var max := Pow2(bits) - 1;
    assert ToI64(max - value) == max - value && ToI64(0 - value) == 0 - value by {
      Pow2Mono(bits, 63);
      ToI64Id(max - value);
      ToI64Id(0 - value);
    }
    assert AndLow(ToU64(value + incr), bits) == Reading((value + incr) % Pow2(bits), bits, false) by {
      LowReading(value + incr, bits);
    }
  }

  lemma LowReading(x: int, bits: nat)
    requires 0 < bits < 64
    ensures AndLow(ToU64(x), bits) == Reading(x % Pow2(bits), bits, false)
  {
    NarrowU64(x, bits);
  }

  lemma NarrowVerdict(value: int, incr: int, bits: nat, ow: Overflow)
    requires 0 < bits < 64 && IsI64(incr) && Fits(value, bits, true)
    ensures var (code, limit) := CheckSigned(value, incr, bits, ow); Verdict(code, limit, value + incr, bits, true, ow)
  {
    hide Pow2, ToI64, WrapSigned, Reading;
    WrapSignedIs(value, incr, bits);
    var max := Pow2(bits - 1) - 1;
    var min := (0 - max) - 1;
    assert ToI64(max - value) == max - value && ToI64(min - value) == min - value by {
      Pow2Mono(bits, 63);
      Pow2Step(bits);
      ToI64Id(max - value);
      ToI64Id(min - value);
    }
  }

  lemma WideVerdict(value: int, incr: int, ow: Overflow)
    requires IsI64(incr) && Fits(value, 64, true)
    ensures var (code, limit) := CheckSigned(value, incr, 64, ow); Verdict(code, limit, value + incr, 64, true, ow)
  {
    hide Pow2, ToI64, WrapSigned, Reading;
    WrapSignedIs(value, incr, 64);
    var max := Pow2(63) - 1;
    var min := (0 - max) - 1;
    if value >= 0 { ToI64Id(max - value); } else { ToI64Id(min - value); }
  }

  /** For every stored value and increment the signed check is right. */
  lemma SignedVerdict(value: int, incr: int, bits: nat, ow: Overflow)
    requires 0 < bits <= 64 && IsI64(incr) && Fits(value, bits, true)
    ensures var (code, limit) := CheckSigned(value, incr, bits, ow); Verdict(code, limit, value + incr, bits, true, ow)
  {
    if bits == 64 { WideVerdict(value, incr, ow); } else { NarrowVerdict(value, incr, bits, ow); }
  }

  // ---------- SET: the same checks on a value that may be out of range ----------

  function Nearest(x: int, bits: nat, sign: bool): int
    requires bits > 0
  {
    if x > Max(bits, sign) then Max(bits, sign) else if x < Min(bits, sign) then Min(bits, sign) else x
  }

  /** A signed SET is checked right, but it saturates a very negative value to the largest one: the
      distance to the maximum no longer fits `int64_t` and is compared before the lower bound is. */
  lemma SignedSet(value: int, bits: nat, ow: Overflow)
    requires 0 < bits <= 64 && IsI64(value)
    ensures var (code, limit) := CheckSigned(value, 0, bits, ow);
            && (code == 0 <==> Fits(value, bits, true))
            && (code != 0 && ow == Wrap ==> limit == Reading(value % Pow2(bits), bits, true))
            && (code != 0 && ow == Sat ==> (limit == Nearest(value, bits, true) <==> value >= Pow2(bits - 1) - Pow2(63)))
  {
    hide Pow2, ToI64, WrapSigned, Reading;
    WrapSignedIs(value, 0, bits);
    var max := Pow2(bits - 1) - 1;
    if bits < 64 {
      assert Pow2(bits - 1) <= Pow2(62) && Pow2(63) == 2 * Pow2(62) && Pow2(64) == 2 * Pow2(63) by {
        Pow2Mono(bits - 1, 62);
        Pow2Step(63);
        Pow2Step(64);
      }
      if max - value < Pow2(63) { ToI64Id(max - value); } else { FarI64(max - value); }
      if (0 - max) - 1 <= value <= max { ToI64Id((0 - max) - 1 - value); }
    }
  }

  lemma FarI64(x: int)
    requires Pow2(63) <= x < Pow2(64)
    ensures ToI64(x) < 0
  {
    hide Pow2, ToU64;
    ToU64Id(x);
  }

  /** The smallest `int64_t` stored into a saturating eight-bit field becomes 127. */
  lemma SmallestSaturatesHigh()
    ensures CheckSigned(0 - Pow2(63), 0, 8, Sat) == (1, 127)
  {
    assert Pow2(7) == 128;
    assert Pow2(64) == 2 * Pow2(63) by { Pow2Step(64); }
    assert Pow2(63) > 128 by { Pow2Mono(8, 63); }
    hide Pow2, ToI64;
    FarI64(127 + Pow2(63));
  }

  /** An unsigned SET reads its argument as `uint64_t`, so a negative one saturates to the largest. */
  lemma UnsignedSet(value: int, bits: nat, ow: Overflow)
    requires 0 < bits < 64 && IsI64(value)
    ensures var (code, limit) := CheckUnsigned(ToU64(value), 0, bits, ow);
            && (code == 0 <==> Fits(value, bits, false))
            && (code != 0 && ow == Wrap ==> limit == Reading(value % Pow2(bits), bits, false))
            && (code != 0 && ow == Sat ==> (limit == Nearest(value, bits, false) <==> value >= 0))
  {
    assert Pow2(bits) > 1 by { Pow2Step(bits); }
    hide Pow2, ToI64, AndLow, Reading;
    var u := ToU64(value);
    LowReading(u, bits);
    assert u % Pow2(bits) == value % Pow2(bits) by { NarrowU64(value, bits); }
    assert if value >= 0 then u == value else u > Pow2(bits) - 1 by { SetU64(value, bits); }
  }

  lemma SetU64(value: int, bits: nat)
    requires 0 < bits < 64 && IsI64(value)
    ensures if value >= 0 then ToU64(value) == value else ToU64(value) > Pow2(bits) - 1
  {
    Pow2Mono(bits, 63);
    Pow2Step(64);
    hide Pow2;
    if value >= 0 { ToU64Id(value); } else { ModUnique(value, Pow2(64), -1, value + Pow2(64)); }
  }

  /** Minus one stored into a saturating unsigned eight-bit field becomes 255, not 0. */
  lemma MinusOneSaturatesHigh()
    ensures CheckUnsigned(ToU64(-1), 0, 8, Sat) == (1, 255) && Nearest(-1, 8, false) == 0
  {
    assert Pow2(8) == 256;
    SetU64(-1, 8);
    hide ToU64;
  }
}
