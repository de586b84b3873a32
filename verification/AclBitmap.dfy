/** The bitmap of a selector as acl.c lays it out: sixteen words of 64 bits. */
module AclBitmap {
  import opened Text
  import opened AclSelector

  const WORDS := 16
  const ALL_ONES: bv64 := 0xFFFF_FFFF_FFFF_FFFF

  function Shifted(b: bv6): bv64 { 1 << b }

  /** The mask of a bit inside its word. */
  function Mask(k: nat): bv64
    requires k < 64
  {
    Shifted(k as bv6)
  }

  /** `ACLGetCommandBitCoordinates`: the word and the mask of a command id. */
  function Coordinates(id: nat): (r: Option<(nat, bv64)>)
    ensures r.Some? <==> id < BITS
    ensures r.Some? ==> r.value.0 < WORDS
  {
    if id >= BITS then None else Some((id / 8 / 8, Mask(id % 64)))
  }

  function And(w: bv64, mask: bv64): bv64 { w & mask }

  predicate Has(w: bv64, mask: bv64) { And(w, mask) != 0 }

  /** `ACLGetSelectorCommandBit`: past the bitmap there is no permission. */
  predicate CommandBit(words: seq<bv64>, id: nat)
    requires |words| == WORDS
  {
    match Coordinates(id)
    case None => false
    case Some((word, bit)) => Has(words[word], bit)
  }

  function WordBits(words: seq<bv64>): seq<bool>
    requires |words| == WORDS
  {
    seq(BITS, k requires 0 <= k < BITS => CommandBit(words, k))
  }

  // ---------- Masks ----------

  lemma ShiftedOnce(a: bv6, b: bv6)
    ensures Shifted(a) != 0 && (a != b ==> Shifted(a) & Shifted(b) == 0)
  {
  }

  lemma SixBits(k: nat)
    requires k < 64
    ensures (k as bv6) as nat == k
  {
  }

  /** Every mask has a bit of its own. */
  lemma MasksApart(j: nat, k: nat)
    requires j < 64 && k < 64
    ensures Mask(j) != 0 && (j != k ==> !Has(Mask(j), Mask(k)))
  {
    hide Shifted;
    SixBits(j);
    SixBits(k);
    ShiftedOnce(j as bv6, k as bv6);
  }

  lemma OrOwn(w: bv64, m: bv64)
    ensures (w | m) & m == m && (w & !m) & m == 0
  {
  }

  lemma FillOwn(m: bv64)
    ensures ALL_ONES & m == m && 0 & m == 0
  {
  }

  lemma OrOther(w: bv64, m: bv64, n: bv64)
    requires And(m, n) == 0
    ensures And(w | m, n) == And(w, n)
  {
  }

  lemma AndOther(w: bv64, m: bv64, n: bv64)
    requires And(m, n) == 0
    ensures And(w & !m, n) == And(w, n)
  {
  }

  lemma OwnMask(w: bv64, m: bv64)
    requires m != 0
    ensures Has(SetWord(w, m, true), m) && !Has(SetWord(w, m, false), m)
  {
    OrOwn(w, m);
  }

  lemma OtherMask(w: bv64, m: bv64, n: bv64, value: bool)
    requires !Has(m, n)
    ensures Has(SetWord(w, m, value), n) == Has(w, n)
  {
    hide And;
    if value { OrOther(w, m, n); } else { AndOther(w, m, n); }
  }

  // ---------- Writing ----------

  function SetWord(w: bv64, bit: bv64, value: bool): bv64 { if value then w | bit else w & !bit }

  lemma SetWordSame(w: bv64, j: nat, k: nat, value: bool)
    requires j < 64 && k < 64
    ensures Has(SetWord(w, Mask(j), value), Mask(k)) == if j == k then value else Has(w, Mask(k))
  {
    hide Mask, Has, SetWord;
    MasksApart(j, k);
    if j == k { OwnMask(w, Mask(j)); } else { OtherMask(w, Mask(j), Mask(k), value); }
  }

  /** Two ids with the same word and mask are the same id. */
  lemma Apart(a: nat, b: nat)
    requires a < BITS && b < BITS
    ensures a / 8 / 8 == b / 8 / 8 && a % 64 == b % 64 ==> a == b
  {
    assert a / 8 / 8 == a / 64 && b / 8 / 8 == b / 64;
  }

  /** Writing one bit of one word writes that command's bit and no other. */
  lemma WordBitsSet(words: seq<bv64>, id: nat, value: bool)
    requires |words| == WORDS && id < BITS
    ensures var (word, bit) := Coordinates(id).value;
            WordBits(words[word := SetWord(words[word], bit, value)]) == WordBits(words)[id := value]
  {
    var (word, bit) := Coordinates(id).value;
    var words' := words[word := SetWord(words[word], bit, value)];
    forall k | 0 <= k < BITS ensures CommandBit(words', k) == if k == id then value else CommandBit(words, k) {
      hide Mask, SetWord, Has;
      Apart(id, k);
      SetWordSame(words[word], id % 64, k % 64, value);
    }
    hide CommandBit, Coordinates, SetWord;
  }

  /** The two fills of `ACLSetSelector`. */
  lemma WordBitsFilled(value: bool)
    ensures WordBits(Filled(value)) == seq(BITS, _ => value)
  {
    forall k | 0 <= k < BITS ensures CommandBit(Filled(value), k) == value {
      hide Mask;
      MasksApart(k % 64, k % 64);
      FillOwn(Mask(k % 64));
    }
    hide CommandBit, Filled;
  }

  function Filled(value: bool): seq<bv64> { seq(WORDS, _ => if value then ALL_ONES else 0) }
}
