/** BITOP (bitops.c): four words at a time while all sources have data, then byte by byte. */
module BitOp {
  import opened Text
  import opened Bits

  datatype Op = And | Or | Xor | Not

  /** A source key: a missing one counts as an empty string. */
  type Source = Option<seq<bv8>>

  function Bytes(src: Source): seq<bv8> { if src.Some? then src.value else [] }

  function Combine(op: Op, a: bv8, b: bv8): bv8 {
    match op
    case And => And8(a, b)
    case Or => Or8(a, b)
    case Xor => Xor8(a, b)
    case Not => a
  }

  function And8(a: bv8, b: bv8): bv8 { a & b }

  function Or8(a: bv8, b: bv8): bv8 { a | b }

  function Xor8(a: bv8, b: bv8): bv8 { a ^ b }

  function Not8(a: bv8): bv8 { !a }

  /** Byte `j` of the first `n` sources combined, each padded with zeros. */
  function OutByte(op: Op, srcs: seq<Source>, j: nat, n: nat): bv8
    requires 0 < n <= |srcs|
  {
    if n == 1 then (if op == Not then Not8(PadByte(Bytes(srcs[0]), j)) else PadByte(Bytes(srcs[0]), j))
    else Combine(op, OutByte(op, srcs, j, n - 1), PadByte(Bytes(srcs[n - 1]), j))
  }

  function SrcBit(srcs: seq<Source>, i: nat, j: nat, k: nat): bool
    requires i < |srcs| && k < 8
  {
    BitOf(PadByte(Bytes(srcs[i]), j), k)
  }

  function Parity(srcs: seq<Source>, j: nat, k: nat, n: nat): bool
    requires n <= |srcs| && k < 8
  {
    if n == 0 then false else Parity(srcs, j, k, n - 1) != SrcBit(srcs, n - 1, j, k)
  }

  lemma CombineBit(op: Op, a: bv8, b: bv8, k: nat)
    requires k < 8
    ensures BitOf(Combine(op, a, b), k) ==
            match op
            case And => BitOf(a, k) && BitOf(b, k)
            case Or => BitOf(a, k) || BitOf(b, k)
            case Xor => BitOf(a, k) != BitOf(b, k)
            case Not => BitOf(a, k)
  {
    hide BitOf;
    AndBit(a, b, k);
    OrBit(a, b, k);
    XorBit(a, b, k);
  }

  ghost predicate AllSet(srcs: seq<Source>, j: nat, k: nat, n: nat)
    requires n <= |srcs| && k < 8
  {
    forall i :: 0 <= i < n ==> SrcBit(srcs, i, j, k)
  }

  ghost predicate AnySet(srcs: seq<Source>, j: nat, k: nat, n: nat)
    requires n <= |srcs| && k < 8
  {
    exists i :: 0 <= i < n && SrcBit(srcs, i, j, k)
  }

  lemma OneMoreSource(srcs: seq<Source>, j: nat, k: nat, n: nat)
    requires n < |srcs| && k < 8
    ensures AllSet(srcs, j, k, n + 1) == (AllSet(srcs, j, k, n) && SrcBit(srcs, n, j, k))
    ensures AnySet(srcs, j, k, n + 1) == (AnySet(srcs, j, k, n) || SrcBit(srcs, n, j, k))
    ensures AllSet(srcs, j, k, 0) && !AnySet(srcs, j, k, 0)
  {
    hide SrcBit;
    if AllSet(srcs, j, k, n + 1) { assert AllSet(srcs, j, k, n); }
    if AnySet(srcs, j, k, n) { assert AnySet(srcs, j, k, n + 1); }
  }

  /** Bit by bit: all of them, any of them, an odd number of them, or not the only one. */
  lemma {:induction false} OutBits(op: Op, srcs: seq<Source>, j: nat, k: nat, n: nat)
    requires 0 < n <= |srcs| && k < 8 && (op == Not ==> n == 1)
    ensures BitOf(OutByte(op, srcs, j, n), k) ==
            match op
            case And => AllSet(srcs, j, k, n)
            case Or => AnySet(srcs, j, k, n)
            case Xor => Parity(srcs, j, k, n)
            case Not => !SrcBit(srcs, 0, j, k)
  {
    hide BitOf, PadByte, Combine, AllSet, AnySet;
    OneMoreSource(srcs, j, k, n - 1);
    if n == 1 {
      NotBit(PadByte(Bytes(srcs[0]), j), k);
    } else {
      OutBits(op, srcs, j, k, n - 1);
      CombineBit(op, OutByte(op, srcs, j, n - 1), PadByte(Bytes(srcs[n - 1]), j), k);
    }
  }

  // ---------- The fast path ----------

  /** What a word operation does to each of its bytes; NOT has no second operand. */
  function Mix(op: Op, a: bv8, b: bv8): bv8 { if op == Not then Not8(a) else Combine(op, a, b) }

  /** The `n` bytes at an index combined with those of a source, and no other changed. */
  ghost predicate MixedAt(op: Op, was: seq<bv8>, now: seq<bv8>, src: seq<bv8>, at: nat, n: nat)
    requires at + n <= |was| == |now| && at + n <= |src|
  {
    && (forall i :: at <= i < at + n ==> now[i] == Mix(op, was[i], src[i]))
    && (forall i :: 0 <= i < |was| && !(at <= i < at + n) ==> now[i] == was[i])
  }

  /** `lres[k] op= lp[i][k]` for the word of eight bytes at an index. */
  method MixWord(op: Op, res: array<bv8>, src: seq<bv8>, at: nat)
    requires at + 8 <= res.Length && at + 8 <= |src|
    modifies res
    ensures MixedAt(op, old(res[..]), res[..], src, at, 8)
  {
    hide Mix;
    forall k | 0 <= k < 8 { res[at + k] := Mix(op, res[at + k], src[at + k]); }
  }

  lemma MixedNext(op: Op, a: seq<bv8>, b: seq<bv8>, c: seq<bv8>, src: seq<bv8>, at: nat, n: nat, m: nat)
    requires at + n + m <= |a| == |b| == |c| && at + n + m <= |src|
    requires MixedAt(op, a, b, src, at, n) && MixedAt(op, b, c, src, at + n, m)
    ensures MixedAt(op, a, c, src, at, n + m)
  {
    hide Mix;
  }

  /** Four words: the body of the innermost loop. */
  method MixFour(op: Op, res: array<bv8>, src: seq<bv8>, at: nat)
    requires at + 32 <= res.Length && at + 32 <= |src|
    modifies res
    ensures MixedAt(op, old(res[..]), res[..], src, at, 32)
  {
    hide MixedAt;
    ghost var r0 := res[..];
    MixWord(op, res, src, at);
    ghost var r1 := res[..];
    MixWord(op, res, src, at + 8);
    ghost var r2 := res[..];
    MixedNext(op, r0, r1, r2, src, at, 8, 8);
    MixWord(op, res, src, at + 16);
    ghost var r3 := res[..];
    MixedNext(op, r0, r2, r3, src, at, 16, 8);
    MixWord(op, res, src, at + 24);
    MixedNext(op, r0, r3, res[..], src, at, 24, 8);
  }

  /** The state of the result: bytes before `j` are final, those from `j` to `min` a copy of the first
      source, of which 32 are combined with `n` sources already. */
  ghost predicate Progress(op: Op, srcs: seq<Source>, res: seq<bv8>, j: nat, min: nat, block: nat, n: nat)
    requires 0 < n <= |srcs|
  {
    && j + block <= min <= |res|
    && (forall i :: 0 <= i < j ==> res[i] == OutByte(op, srcs, i, |srcs|))
    && (forall i :: j <= i < j + block ==> res[i] == OutByte(op, srcs, i, n))
    && (forall i :: j + block <= i < min ==> res[i] == PadByte(Bytes(srcs[0]), i))
  }

  ghost predicate AllLong(srcs: seq<Source>, min: nat) {
    forall i :: 0 <= i < |srcs| ==> min <= |Bytes(srcs[i])|
  }

  lemma ProgressSource(op: Op, srcs: seq<Source>, was: seq<bv8>, now: seq<bv8>, j: nat, min: nat, n: nat)
    requires 0 < n < |srcs| && op != Not && AllLong(srcs, min) && |was| == |now|
    requires Progress(op, srcs, was, j, min, 32, n) && MixedAt(op, was, now, Bytes(srcs[n]), j, 32)
    ensures Progress(op, srcs, now, j, min, 32, n + 1)
  {
    hide Combine;
    forall i | j <= i < j + 32 ensures now[i] == OutByte(op, srcs, i, n + 1) {
      assert was[i] == OutByte(op, srcs, i, n);
      assert PadByte(Bytes(srcs[n]), i) == Bytes(srcs[n])[i];
    }
  }

  lemma ProgressStart(op: Op, srcs: seq<Source>, res: seq<bv8>, j: nat, min: nat)
    requires |srcs| > 0 && op != Not && Progress(op, srcs, res, j, min, 0, 1) && j + 32 <= min
    ensures Progress(op, srcs, res, j, min, 32, 1)
  {
  }

  lemma ProgressNot(srcs: seq<Source>, was: seq<bv8>, now: seq<bv8>, j: nat, min: nat)
    requires |srcs| == 1 && AllLong(srcs, min) && |was| == |now| && j + 32 <= min
    requires Progress(Not, srcs, was, j, min, 0, 1) && MixedAt(Not, was, now, Bytes(srcs[0]), j, 32)
    ensures Progress(Not, srcs, now, j + 32, min, 0, 1)
  {
    hide Not8;
  }

  lemma ProgressDone(op: Op, srcs: seq<Source>, res: seq<bv8>, j: nat, min: nat)
    requires |srcs| > 0 && Progress(op, srcs, res, j, min, 32, |srcs|)
    ensures Progress(op, srcs, res, j + 32, min, 0, 1)
  {
  }

  /** One round of the fast path: 32 bytes combined over all sources. */
  method MixRound(op: Op, res: array<bv8>, srcs: seq<Source>, j: nat, min: nat)
    requires |srcs| > 0 && (op == Not ==> |srcs| == 1) && AllLong(srcs, min) && j + 32 <= min
    requires Progress(op, srcs, res[..], j, min, 0, 1)
    modifies res
    ensures Progress(op, srcs, res[..], j + 32, min, 0, 1)
  {
    ghost var was := res[..];
    if op == Not {
      MixFour(op, res, Bytes(srcs[0]), j);
      ProgressNot(srcs, was, res[..], j, min);
      return;
    }
    ProgressStart(op, srcs, was, j, min);
    hide Progress, MixedAt;
    var i := 1;
    while i < |srcs|
      invariant 1 <= i <= |srcs| && Progress(op, srcs, res[..], j, min, 32, i)
    {
      ghost var before := res[..];
      assert min <= |Bytes(srcs[i])|;
      ProgressLength(op, srcs, before, j, min, 32, i);
      MixFour(op, res, Bytes(srcs[i]), j);
      ProgressSource(op, srcs, before, res[..], j, min, i);
      i := i + 1;
    }
    ProgressDone(op, srcs, res[..], j, min);
  }

  lemma ProgressLength(op: Op, srcs: seq<Source>, res: seq<bv8>, j: nat, min: nat, block: nat, n: nat)
    requires 0 < n <= |srcs| && Progress(op, srcs, res, j, min, block, n)
    ensures j + block <= min <= |res|
  {
  }

  // ---------- The byte tail ----------

  /** A byte that no further source can change. */
  predicate Absorbing(op: Op, b: bv8) { (op == And && b == 0) || (op == Or && b == 0xFF) }

  lemma AbsorbStep(op: Op, a: bv8, b: bv8)
    requires Absorbing(op, a)
    ensures Combine(op, a, b) == a
  {
  }

  lemma {:induction false} Absorbed(op: Op, srcs: seq<Source>, j: nat, n: nat, m: nat)
    requires 0 < n <= m <= |srcs| && Absorbing(op, OutByte(op, srcs, j, n))
    ensures OutByte(op, srcs, j, m) == OutByte(op, srcs, j, n)
  {
    hide Combine, Absorbing, PadByte;
    if n < m {
      Absorbed(op, srcs, j, n, m - 1);
      AbsorbStep(op, OutByte(op, srcs, j, m - 1), PadByte(Bytes(srcs[m - 1]), j));
    }
  }

  /** One byte of the tail: the walk over the sources stops once the byte cannot change any more. */
  method TailByte(op: Op, srcs: seq<Source>, j: nat) returns (output: bv8)
    requires |srcs| > 0 && (op == Not ==> |srcs| == 1)
    ensures output == OutByte(op, srcs, j, |srcs|)
  {
    hide Combine, Absorbing, PadByte, Not8;
    output := PadByte(Bytes(srcs[0]), j);
    if op == Not { output := Not8(output); }
    var i := 1;
    while i < |srcs|
      invariant 1 <= i <= |srcs| && output == OutByte(op, srcs, j, i)
    {
      output := Combine(op, output, PadByte(Bytes(srcs[i]), j));
      if Absorbing(op, output) {
        Absorbed(op, srcs, j, i + 1, |srcs|);
        return;
      }
      i := i + 1;
    }
  }

  // ---------- The whole command ----------

  /** The longest source. */
  function MaxLength(srcs: seq<Source>, n: nat): nat
    requires n <= |srcs|
  {
    if n == 0 then 0
    else if |Bytes(srcs[n - 1])| > MaxLength(srcs, n - 1) then |Bytes(srcs[n - 1])| else MaxLength(srcs, n - 1)
  }

  /** No source is longer, and one is as long. */
  lemma {:induction false} LongestIs(srcs: seq<Source>, n: nat)
    requires n <= |srcs|
    ensures forall i :: 0 <= i < n ==> |Bytes(srcs[i])| <= MaxLength(srcs, n)
    ensures MaxLength(srcs, n) == 0 || exists i :: 0 <= i < n && |Bytes(srcs[i])| == MaxLength(srcs, n)
  {
    if n > 0 {
      LongestIs(srcs, n - 1);
      assert n - 1 < n;
    }
  }

  /** The loop over the keys. */
  method Lengths(srcs: seq<Source>) returns (minlen: nat, maxlen: nat)
    requires |srcs| > 0
    ensures maxlen == MaxLength(srcs, |srcs|) && AllLong(srcs, minlen) && minlen <= maxlen
  {
    minlen, maxlen := 0, 0;
    var j := 0;
    while j < |srcs|
      invariant 0 <= j <= |srcs| && maxlen == MaxLength(srcs, j) && minlen <= maxlen
      invariant forall i :: 0 <= i < j ==> minlen <= |Bytes(srcs[i])|
    {
      if srcs[j].None? {
        minlen := 0;
      } else {
        var len := |srcs[j].value|;
        if len > maxlen { maxlen := len; }
        if j == 0 || len < minlen { minlen := len; }
      }
      j := j + 1;
    }
  }

  lemma ProgressCopied(op: Op, srcs: seq<Source>, res: seq<bv8>, min: nat)
    requires |srcs| > 0 && AllLong(srcs, min) && min <= |res|
    requires forall i :: 0 <= i < min ==> res[i] == Bytes(srcs[0])[i]
    ensures Progress(op, srcs, res, 0, min, 0, 1)
  {
    assert min <= |Bytes(srcs[0])|;
  }

  /** The fast path: as long as all sources have 32 more bytes. */
  method FastPath(op: Op, res: array<bv8>, srcs: seq<Source>, min: nat) returns (j: nat)
    requires |srcs| > 0 && (op == Not ==> |srcs| == 1) && AllLong(srcs, min) && min <= res.Length
    modifies res
    ensures j <= min && forall i :: 0 <= i < j ==> res[i] == OutByte(op, srcs, i, |srcs|)
  {
    assert min <= |Bytes(srcs[0])|;
    forall i | 0 <= i < min { res[i] := Bytes(srcs[0])[i]; }
    ProgressCopied(op, srcs, res[..], min);
    var minlen := min;
    j := 0;
    while minlen >= 32
      invariant j + minlen == min && Progress(op, srcs, res[..], j, min, 0, 1)
    {
      MixRound(op, res, srcs, j, min);
      j := j + 32;
      minlen := minlen - 32;
    }
  }

  /** The computing part of `bitopCommand`. */
  method Bitop(op: Op, srcs: seq<Source>) returns (res: array<bv8>)
    requires |srcs| > 0 && (op == Not ==> |srcs| == 1)
    ensures fresh(res) && res.Length == MaxLength(srcs, |srcs|)
    ensures forall i :: 0 <= i < res.Length ==> res[i] == OutByte(op, srcs, i, |srcs|)
  {
    var minlen, maxlen := Lengths(srcs);
    res := new bv8[maxlen](_ => 0);
    var j := 0;
    if minlen >= 32 && |srcs| <= 16 {
      j := FastPath(op, res, srcs, minlen);
    }
    hide OutByte;
    while j < maxlen
      invariant 0 <= j <= maxlen && forall i :: 0 <= i < j ==> res[i] == OutByte(op, srcs, i, |srcs|)
    {
      res[j] := TailByte(op, srcs, j);
      j := j + 1;
    }
  }
}
