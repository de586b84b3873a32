/** The text helpers the Redis sources share: decimal numbers (`ll2string`, `atoi`,
    `strtol`) and `fgets`. A byte string is a `string`; one `char` is one byte. */
module Text {

  datatype Option<+T> = None | Some(value: T)

  predicate IsDigit(c: char) { '0' <= c <= '9' }

  predicate IsSpace(c: char) { c == ' ' || '\t' <= c <= '\r' }

  function Digit(d: nat): (c: char)
    requires d < 10
    ensures IsDigit(c) && DigitValue(c) == d
  {
    '0' + d as char
  }

  function DigitValue(c: char): nat
    requires IsDigit(c)
  {
    (c - '0') as nat
  }

  /** `ll2string` on a non-negative number. */
  function Dec(n: nat): (s: string)
    ensures |s| >= 1 && forall i :: 0 <= i < |s| ==> IsDigit(s[i])
  {
    if n < 10 then [Digit(n)] else Dec(n / 10) + [Digit(n % 10)]
  }

  predicate AllDigits(s: string) { forall i :: 0 <= i < |s| ==> IsDigit(s[i]) }

  function DigitsValue(s: string): nat
    requires AllDigits(s)
  {
    if s == "" then 0 else 10 * DigitsValue(s[..|s| - 1]) + DigitValue(s[|s| - 1])
  }

  /** How many digits `s` starts with. */
  function SpanDigits(s: string): (n: nat)
    ensures n <= |s| && AllDigits(s[..n]) && (n < |s| ==> !IsDigit(s[n]))
  {
    if s == "" || !IsDigit(s[0]) then 0 else
      assert s == [s[0]] + s[1..];
      1 + SpanDigits(s[1..])
  }

  function SkipSpaces(s: string): string {
    if s != "" && IsSpace(s[0]) then SkipSpaces(s[1..]) else s
  }

  /** `atoi`, `atoll` and `strtol` base 10: blanks, an optional sign, digits, then anything. */
  function Atoi(s: string): int {
    var t := SkipSpaces(s);
    if t != "" && t[0] == '-' then -(DigitsValue(t[1..][..SpanDigits(t[1..])]) as int)
    else if t != "" && t[0] == '+' then DigitsValue(t[1..][..SpanDigits(t[1..])])
    else DigitsValue(t[..SpanDigits(t)])
  }

  lemma {:induction false} SpanUnique(d: string, rest: string)
    requires AllDigits(d)
    requires rest == "" || !IsDigit(rest[0])
    ensures SpanDigits(d + rest) == |d| && (d + rest)[..|d|] == d
  {
    if d != "" {
      assert (d + rest)[1..] == d[1..] + rest;
      SpanUnique(d[1..], rest);
    }
  }

  lemma {:induction false} DecValue(n: nat)
    ensures DigitsValue(Dec(n)) == n
  {
    if n >= 10 {
      DecValue(n / 10);
      var s := Dec(n);
      assert s[..|s| - 1] == Dec(n / 10);
    }
  }

  /** Reading back a printed number, whatever non-digit follows it. */
  lemma {:induction false} AtoiDec(n: nat, rest: string)
    requires rest == "" || !IsDigit(rest[0])
    ensures Atoi(Dec(n) + rest) == n
  {
    var s := Dec(n) + rest;
    assert s[0] == Dec(n)[0];
    assert SkipSpaces(s) == s;
    SpanUnique(Dec(n), rest);
    DecValue(n);
  }

  lemma {:induction false} DecFirstDigit(n: nat)
    requires n >= 1
    ensures DigitValue(Dec(n)[0]) >= 1
  {
    if n >= 10 {
      DecFirstDigit(n / 10);
      assert Dec(n)[0] == Dec(n / 10)[0];
    }
  }

  lemma {:induction false} DigitsValuePositive(s: string)
    requires AllDigits(s) && s != "" && DigitValue(s[0]) >= 1
    ensures DigitsValue(s) >= 1
  {
    if |s| > 1 {
      DigitsValuePositive(s[..|s| - 1]);
    } else {
      assert s[..0] == "";
    }
  }

  /** A number cut short still reads as a positive number. */
  lemma AtoiDecPrefix(n: nat, k: nat)
    requires n >= 1 && 1 <= k <= |Dec(n)|
    ensures Atoi(Dec(n)[..k]) >= 1
  {
    var s := Dec(n)[..k];
    assert s[0] == Dec(n)[0];
    assert SkipSpaces(s) == s;
    assert s + "" == s;
    SpanUnique(s, "");
    DecFirstDigit(n);
    DigitsValuePositive(s);
  }

  /** The printed form determines the number. */
  lemma DecInjective(m: nat, n: nat)
    requires Dec(m) == Dec(n)
    ensures m == n
  {
    DecValue(m);
    DecValue(n);
  }

  /** How many characters `fgets` takes: through the first newline, at most `limit`. */
  function LineLength(s: string, limit: nat): (n: nat)
    ensures n <= |s| && n <= limit && (s != "" && limit > 0 ==> n > 0)
  {
    if s == "" || limit == 0 then 0
    else if s[0] == '\n' then 1
    else 1 + LineLength(s[1..], limit - 1)
  }

  /** `fgets` of a whole line that fits. */
  lemma {:induction false} LineLengthWhole(h: string, rest: string, limit: nat)
    requires '\n' !in h && |h| < limit
    ensures LineLength(h + "\n" + rest, limit) == |h| + 1
  {
    var s := h + "\n" + rest;
    if h == "" {
      assert s[0] == '\n';
    } else {
      assert s[0] == h[0];
      assert s[1..] == h[1..] + "\n" + rest;
      LineLengthWhole(h[1..], rest, limit - 1);
    }
  }

  /** `fgets` of a last line that has no newline. */
  lemma {:induction false} LineLengthLast(h: string, limit: nat)
    requires '\n' !in h && |h| <= limit
    ensures LineLength(h, limit) == |h|
  {
    if h != "" {
      LineLengthLast(h[1..], limit - 1);
    }
  }
}
