/** The text of a selector's command rules (acl.c): rules separated by one space, edited in
    place. `ACLSelectorRemoveCommandRule` moves bytes inside the buffer; it is proved to
    filter the list of rules that the buffer spells. */
module AclRules {

  predicate Spaceless(s: string) { ' ' !in s && '\0' !in s }

  /** A rule without spaces, as nearly all are: a sign, then a name. */
  predicate RuleText(r: string) { r != "" && Spaceless(r) }

  predicate RuleTexts(rules: seq<string>) { forall i :: 0 <= i < |rules| ==> RuleText(rules[i]) }

  /** What the scan of a text takes for a rule: one character, then up to the next space. */
  predicate Piece(r: string) { r != "" && ' ' !in r[1..] && '\0' !in r }

  /** Only the last one may be empty, behind a space at the end of the text. */
  predicate Pieces(ps: seq<string>) {
    forall i :: 0 <= i < |ps| ==> Piece(ps[i]) || (i == |ps| - 1 && ps[i] == "")
  }

  /** The rule names `name`, or a subcommand or first argument of it. */
  predicate Matches(rule: string, name: string) {
    rule != "" && (rule[1..] == name || (|rule| > |name| + 1 && rule[1..][..|name|] == name && rule[|name| + 1] == '|'))
  }

  /** The rules that `name` does not replace, in order. */
  function Filter(rules: seq<string>, name: string): seq<string> {
    if rules == [] then []
    else (if Matches(rules[0], name) then [] else [rules[0]]) + Filter(rules[1..], name)
  }

  /** The rules joined by single spaces. */
  function Join(rules: seq<string>): string {
    if rules == [] then ""
    else if |rules| == 1 then rules[0]
    else rules[0] + " " + Join(rules[1..])
  }

  /** Each rule with a space behind it. */
  function Spaced(rules: seq<string>): string {
    if rules == [] then "" else rules[0] + " " + Spaced(rules[1..])
  }

  lemma {:induction false} SpacedMore(rules: seq<string>, r: string)
    ensures Spaced(rules + [r]) == Spaced(rules) + r + " "
  {
    if rules == [] {
      assert rules + [r] == [r] && [r][1..] == [];
    } else {
      assert (rules + [r])[1..] == rules[1..] + [r];
      SpacedMore(rules[1..], r);
    }
  }

  lemma {:induction false} JoinAppend(a: seq<string>, b: seq<string>)
    requires b != []
    ensures Join(a + b) == Spaced(a) + Join(b)
  {
    if a == [] {
      assert a + b == b;
    } else {
      assert (a + b)[1..] == a[1..] + b;
      JoinAppend(a[1..], b);
    }
  }

  /** Without the last space, the spaced rules are the joined ones. */
  lemma {:induction false} JoinIsTrimmed(rules: seq<string>)
    requires rules != []
    ensures |Spaced(rules)| > 0 && Join(rules) == Spaced(rules)[..|Spaced(rules)| - 1]
  {
    if |rules| > 1 {
      JoinIsTrimmed(rules[1..]);
    } else {
      assert rules[1..] == [];
    }
  }

  lemma JoinMore(rules: seq<string>, r: string)
    requires RuleTexts(rules)
    ensures Join(rules + [r]) == (if Join(rules) == "" then "" else Join(rules) + " ") + r
  {
    JoinAppend(rules, [r]);
    if rules != [] {
      JoinIsTrimmed(rules);
      SpacedEnds(rules);
      assert Join(rules) != "" by { if |rules| > 1 { assert Join(rules)[0] == rules[0][0]; } }
    }
  }

  lemma {:induction false} SpacedEnds(rules: seq<string>)
    requires rules != []
    ensures |Spaced(rules)| > 0 && Spaced(rules)[|Spaced(rules)| - 1] == ' '
  {
    if |rules| > 1 { SpacedEnds(rules[1..]); }
  }

  // ---------- Cutting a text into rules ----------

  /** The first space, or the end. */
  function SpaceAt(s: string): (k: nat)
    ensures k <= |s| && ' ' !in s[..k] && (k < |s| ==> s[k] == ' ')
  {
    if s == "" || s[0] == ' ' then 0
    else
      assert s == [s[0]] + s[1..];
      1 + SpaceAt(s[1..])
  }

  /** The rules of any text, as the scan of it finds them. */
  function Cut(text: string): seq<string>
    decreases |text|
  {
    if text == "" then []
    else
      var k := 1 + SpaceAt(text[1..]);
      if k == |text| then [text]
      else [text[..k]] + if k + 1 == |text| then [""] else Cut(text[k + 1..])
  }

  /** The first rule of a text, and the rest of the text if a space follows. */
  lemma CutParts(text: string)
    requires text != ""
    ensures var k := 1 + SpaceAt(text[1..]);
            && k <= |text| && ' ' !in text[..k][1..]
            && (k < |text| ==> text == text[..k] + " " + text[k + 1..])
            && (k == |text| ==> text[..k] == text)
  {
    var k := 1 + SpaceAt(text[1..]);
    assert text[..k][1..] == text[1..][..k - 1];
    assert k < |text| ==> text[k] == text[1..][k - 1];
  }

  lemma {:induction false} CutJoins(text: string)
    ensures Join(Cut(text)) == text
    ensures text != "" ==> Cut(text) != []
    decreases |text|
  {
    if text != "" {
      var k := 1 + SpaceAt(text[1..]);
      CutParts(text);
      if k < |text| {
        var rest := if k + 1 == |text| then [""] else Cut(text[k + 1..]);
        CutJoins(text[k + 1..]);
        assert Join(rest) == text[k + 1..];
        hide SpaceAt, Join;
        JoinTwo(text[..k], rest);
      }
    }
  }

  lemma JoinTwo(p: string, rest: seq<string>)
    requires rest != []
    ensures Join([p] + rest) == p + " " + Join(rest)
  {
    assert ([p] + rest)[1..] == rest;
  }

  lemma {:induction false} CutPieces(text: string)
    requires '\0' !in text
    ensures Pieces(Cut(text)) && (text != "" ==> Cut(text) != [])
    decreases |text|
  {
    if text != "" {
      var k := 1 + SpaceAt(text[1..]);
      CutParts(text);
      assert Piece(text[..k]);
      if k < |text| {
        hide SpaceAt;
        var rest := if k + 1 == |text| then [""] else Cut(text[k + 1..]);
        CutPieces(text[k + 1..]);
        assert Pieces([""]);
        PiecesMore(text[..k], rest);
      }
    }
  }

  lemma PiecesMore(p: string, rest: seq<string>)
    requires Piece(p) && Pieces(rest) && rest != []
    ensures Pieces([p] + rest)
  {
    var all := [p] + rest;
    assert forall i :: 0 < i < |all| ==> all[i] == rest[i - 1];
  }

  lemma {:induction false} SpaceAtEnd(w: string, rest: string)
    requires ' ' !in w && (rest == "" || rest[0] == ' ')
    ensures SpaceAt(w + rest) == |w|
  {
    if w == "" {
      assert w + rest == rest;
    } else {
      assert (w + rest)[1..] == w[1..] + rest;
      SpaceAtEnd(w[1..], rest);
    }
  }

  /** Rules without spaces are found again in their text. */
  lemma {:induction false} CutFinds(rules: seq<string>)
    requires RuleTexts(rules)
    ensures Cut(Join(rules)) == rules
  {
    if |rules| == 1 {
      var w := rules[0];
      SpaceAtEnd(w[1..], "");
      assert w[1..] + "" == w[1..];
      assert rules == [w];
    } else if |rules| > 1 {
      var (w, tail) := (rules[0], Join(rules[1..]));
      var text := w + " " + tail;
      assert text[1..] == w[1..] + (" " + tail);
      SpaceAtEnd(w[1..], " " + tail);
      CutFinds(rules[1..]);
      assert tail != "" by { FirstChar(rules[1..]); }
      assert text[..|w|] == w && text[|w| + 1..] == tail;
      assert [w] + rules[1..] == rules;
    }
  }

  lemma FirstChar(rules: seq<string>)
    requires rules != [] && rules[0] != ""
    ensures Join(rules) != "" && Join(rules)[0] == rules[0][0]
  {
  }

  // ---------- The buffer ----------

  /** The buffer holds `text` as a C string. */
  ghost predicate Spells(buf: array<char>, text: string)
    reads buf
  {
    |text| < buf.Length && buf[..|text|] == text && buf[|text|] == '\0' && '\0' !in text
  }

  lemma Moved(was: seq<char>, now: seq<char>, text: string, to: nat, from: nat)
    requires |text| < |was| == |now| && was[..|text|] == text && was[|text|] == '\0' && '\0' !in text && to <= from <= |text|
    requires forall i :: 0 <= i < to ==> now[i] == was[i]
    requires forall i :: to <= i <= to + (|text| - from) ==> now[i] == was[i + (from - to)]
    ensures var moved := text[..to] + text[from..];
            now[..|moved|] == moved && now[|moved|] == '\0' && '\0' !in moved
  {
    var moved := text[..to] + text[from..];
    forall i | 0 <= i < |moved| ensures now[i] == moved[i] {
      assert moved[i] == text[if i < to then i else i + (from - to)];
      assert text[if i < to then i else i + (from - to)] == was[if i < to then i else i + (from - to)];
    }
  }

  /** `memmove` towards the front, the terminator included. */
  method MoveDown(buf: array<char>, to: nat, from: nat, ghost text: string)
    requires Spells(buf, text) && to <= from <= |text|
    modifies buf
    ensures Spells(buf, text[..to] + text[from..])
  {
    var n := StringLength(buf, from, text);
    ghost var was := buf[..];
    assert was[..|text|] == text;
    forall i | 0 <= i < n + 1 { buf[to + i] := buf[from + i]; }
    ghost var now := buf[..];
    forall i | to <= i <= to + n ensures now[i] == was[i + (from - to)] {
      assert buf[to + (i - to)] == was[from + (i - to)];
    }
    Moved(was, now, text, to, from);
    assert buf[..to + n] == now[..to + n];
  }

  /** `strlen` from a position. */
  method StringLength(buf: array<char>, from: nat, ghost text: string) returns (n: nat)
    requires Spells(buf, text) && from <= |text|
    ensures n == |text| - from
  {
    n := 0;
    assert forall i :: 0 <= i < |text| ==> buf[i] == buf[..|text|][i] == text[i];
    while buf[from + n] != '\0'
      invariant from + n <= |text|
      decreases |text| - from - n
    {
      n := n + 1;
    }
  }

  /** `strchr` for a space, or the end of the string. */
  method RuleEnd(buf: array<char>, from: nat, ghost text: string) returns (e: nat)
    requires Spells(buf, text) && from <= |text|
    ensures from <= e <= |text| && ' ' !in text[from..e] && (e < |text| ==> text[e] == ' ')
  {
    e := from;
    while buf[e] != '\0' && buf[e] != ' '
      invariant from <= e <= |text| && ' ' !in text[from..e]
      decreases |text| - e
    {
      assert buf[..|text|][e] == text[e];
      assert text[from..e + 1] == text[from..e] + [text[e]];
      e := e + 1;
    }
    assert e < |text| ==> buf[..|text|][e] == text[e];
  }

  /** The comparison of one rule with the new one: equal, or a `|` child of it. */
  method CompareRule(buf: array<char>, name: nat, e: nat, newRule: string, ghost text: string) returns (match_: bool)
    requires Spells(buf, text) && 1 <= name <= e <= |text|
    ensures match_ <==> Matches(text[name - 1..e], newRule)
  {
    var len := e - name;
    var common := if len < |newRule| then len else |newRule|;
    ghost var rule := text[name - 1..e];
    assert rule[1..] == text[name..e] == buf[name..e] by { assert buf[..|text|][name..e] == buf[name..e]; }
    match_ := buf[name..name + common] == newRule[..common]
              && (len == |newRule| || (len > |newRule| && buf[name + |newRule|] == '|'));
    assert buf[name..e][..common] == buf[name..name + common];
    if len > |newRule| {
      assert rule[|newRule| + 1] == buf[name..e][|newRule|];
    }
  }

  /** The scan stands at the first of the remaining rules, behind those it kept. */
  ghost predicate Placed(buf: array<char>, pos: nat, kept: seq<string>, rest: seq<string>)
    reads buf
  {
    if rest == [] then Spells(buf, Join(kept)) && pos == |Join(kept)|
    else Spells(buf, Spaced(kept) + Join(rest)) && pos == |Spaced(kept)|
  }

  /** One turn of the loop: the next rule is moved over or passed. */
  method ConsiderRule(buf: array<char>, start: nat, newRule: string, ghost kept: seq<string>, ghost rest: seq<string>)
    returns (next: nat)
    requires Pieces(rest) && rest != [] && rest[0] != "" && Placed(buf, start, kept, rest)
    modifies buf
    ensures Placed(buf, next, if Matches(rest[0], newRule) then kept else kept + [rest[0]], rest[1..])
  {
    hide Matches, Join, Spaced;
    ghost var text := Spaced(kept) + Join(rest);
    var copyPosition := start;
    var existing := start + 1;
    FirstRule(kept, rest, text);
    assert forall i :: 0 <= i < |text| ==> buf[i] == buf[..|text|][i] == text[i];
    var ruleEnd := RuleEnd(buf, existing, text);
    RuleEndIs(kept, rest, text, ruleEnd);
    if buf[ruleEnd] == '\0' && copyPosition != 0 { copyPosition := copyPosition - 1; }
    var copyEnd := if buf[ruleEnd] == ' ' then ruleEnd + 1 else ruleEnd;
    var matching := CompareRule(buf, existing, ruleEnd, newRule, text);
    if matching {
      MoveDown(buf, copyPosition, copyEnd, text);
      if |rest| > 1 { RuleDropped(kept, rest, text); } else { LastDropped(kept, rest, text); }
      next := copyPosition;
    } else {
      RuleKept(kept, rest, text);
      next := copyEnd;
    }
  }

  /** `ACLSelectorRemoveCommandRule`. */
  method RemoveCommandRule(buf: array<char>, newRule: string, ghost rules: seq<string>)
    requires Pieces(rules) && Spells(buf, Join(rules))
    modifies buf
    ensures Spells(buf, Join(Filter(rules, newRule)))
  {
    hide Matches, Filter, Join, Spaced;
    var existing: nat := 0;
    ghost var kept: seq<string>, rest := [], rules;
    NothingKept(rules, newRule);
    while buf[existing] != '\0'
      invariant kept + Filter(rest, newRule) == Filter(rules, newRule)
      invariant Pieces(rest) && Placed(buf, existing, kept, rest)
      decreases |rest|
    {
      Standing(buf, existing, kept, rest);
      FilterStep(kept, rest, newRule);
      existing := ConsiderRule(buf, existing, newRule, kept, rest);
      if !Matches(rest[0], newRule) { kept := kept + [rest[0]]; }
      PiecesRest(rest);
      rest := rest[1..];
    }
    Standing(buf, existing, kept, rest);
    AllDone(kept, rest, newRule);
  }

  lemma PiecesRest(ps: seq<string>)
    requires Pieces(ps) && ps != []
    ensures Pieces(ps[1..])
  {
    hide Piece;
    assert forall i :: 0 <= i < |ps[1..]| ==> ps[1..][i] == ps[i + 1];
  }

  /** The scan has not ended exactly while a rule is left. */
  lemma Standing(buf: array<char>, pos: nat, kept: seq<string>, rest: seq<string>)
    requires Pieces(rest) && Placed(buf, pos, kept, rest)
    ensures pos < buf.Length && (buf[pos] != '\0' <==> rest != [] && rest[0] != "")
    ensures rest != [] && rest[0] == "" ==> rest == [""]
  {
    if rest != [] {
      assert Piece(rest[0]) || (|rest| == 1 && rest[0] == "");
      var text := Spaced(kept) + Join(rest);
      assert buf[..|text|] == text;
      if rest[0] != "" {
        FirstChar(rest);
        assert text[pos] == rest[0][0];
        assert buf[..|text|][pos] == text[pos];
      }
    }
  }

  lemma NothingKept(rules: seq<string>, name: string)
    ensures [] + Filter(rules, name) == Filter(rules, name) && "" + Join(rules) == Join(rules)
    ensures Spaced([]) == "" && (rules == [] ==> Join(rules) == Join([]) == "")
  {
  }

  /** While rules remain the next one starts right behind those kept. */
  lemma {:induction false} FirstRule(kept: seq<string>, rest: seq<string>, text: string)
    requires rest != [] && rest[0] != "" && text == Spaced(kept) + Join(rest)
    ensures |Spaced(kept)| + |rest[0]| <= |text| && |rest[0]| >= 1
    ensures text[|Spaced(kept)|..|Spaced(kept)| + |rest[0]|] == rest[0]
    ensures |rest| > 1 ==> |Spaced(kept)| + |rest[0]| < |text| && text[|Spaced(kept)| + |rest[0]|] == ' '
    ensures |rest| == 1 ==> |Spaced(kept)| + |rest[0]| == |text|
  {
    var (w, j) := (rest[0], Join(rest));
    if |rest| > 1 { assert j == w + " " + Join(rest[1..]); } else { assert j == w; }
    hide Join, Spaced;
    assert j[..|w|] == w;
    assert text[|Spaced(kept)|..|Spaced(kept)| + |w|] == j[..|w|];
  }

  lemma {:induction false} RuleEndIs(kept: seq<string>, rest: seq<string>, text: string, e: nat)
    requires rest != [] && Piece(rest[0]) && text == Spaced(kept) + Join(rest)
    requires |Spaced(kept)| + 1 <= e <= |text|
    requires ' ' !in text[|Spaced(kept)| + 1..e] && (e < |text| ==> text[e] == ' ')
    ensures e == |Spaced(kept)| + |rest[0]| && text[|Spaced(kept)|..e] == rest[0]
  {
    FirstRule(kept, rest, text);
    hide Join, Spaced;
    var s := |Spaced(kept)|;
    assert text[s + 1..s + |rest[0]|] == rest[0][1..];
    EndUnique(text, s, s + |rest[0]|, e);
  }

  /** Two ends of the same word are the same. */
  lemma EndUnique(text: string, s: nat, t: nat, e: nat)
    requires s < t <= |text| && ' ' !in text[s + 1..t] && (t < |text| ==> text[t] == ' ')
    requires s < e <= |text| && ' ' !in text[s + 1..e] && (e < |text| ==> text[e] == ' ')
    ensures e == t
  {
    assert forall k :: s + 1 <= k < t ==> text[k] == text[s + 1..t][k - s - 1];
    assert forall k :: s + 1 <= k < e ==> text[k] == text[s + 1..e][k - s - 1];
  }

  lemma {:induction false} FilterStep(kept: seq<string>, rest: seq<string>, name: string)
    requires rest != []
    ensures kept + Filter(rest, name)
         == (if Matches(rest[0], name) then kept else kept + [rest[0]]) + Filter(rest[1..], name)
  {
    hide Matches;
    var f := Filter(rest[1..], name);
    assert Filter(rest, name) == (if Matches(rest[0], name) then [] else [rest[0]]) + f;
    hide Filter;
    assert [] + f == f;
    assert kept + ([rest[0]] + f) == (kept + [rest[0]]) + f;
  }

  /** Removing a rule that others follow takes the space behind it. */
  lemma RuleDropped(kept: seq<string>, rest: seq<string>, text: string)
    requires |rest| > 1 && text == Spaced(kept) + Join(rest)
    ensures var s, e := |Spaced(kept)|, |Spaced(kept)| + |rest[0]|;
            e + 1 <= |text| && text[..s] + text[e + 1..] == Spaced(kept) + Join(rest[1..])
  {
    assert Join(rest) == rest[0] + " " + Join(rest[1..]);
    hide Spaced, Join;
    assert text[|Spaced(kept)| + |rest[0]| + 1..] == Join(rest[1..]);
  }

  /** Removing the last rule takes the space before it, if there is one. */
  lemma LastDropped(kept: seq<string>, rest: seq<string>, text: string)
    requires |rest| == 1 && text == Spaced(kept) + Join(rest)
    ensures var s, e := |Spaced(kept)|, |Spaced(kept)| + |rest[0]|;
            text[..if s == 0 then 0 else s - 1] + text[e..] == Join(kept)
    ensures |Join(kept)| == if |Spaced(kept)| == 0 then 0 else |Spaced(kept)| - 1
  {
    assert Join(rest) == rest[0];
    assert text[|Spaced(kept)| + |rest[0]|..] == "";
    if kept != [] {
      JoinIsTrimmed(kept);
      hide Spaced, Join;
    }
  }

  lemma RuleKept(kept: seq<string>, rest: seq<string>, text: string)
    requires rest != [] && text == Spaced(kept) + Join(rest)
    ensures |rest| > 1 ==> text == Spaced(kept + [rest[0]]) + Join(rest[1..])
                           && |Spaced(kept + [rest[0]])| == |Spaced(kept)| + |rest[0]| + 1
    ensures |rest| == 1 ==> text == Join(kept + [rest[0]])
  {
    if |rest| > 1 {
      SpacedMore(kept, rest[0]);
    } else {
      assert rest == [rest[0]];
      JoinAppend(kept, rest);
    }
  }

  /** At the end the text is what was kept, and the space at its end if there was one. */
  lemma AllDone(kept: seq<string>, rest: seq<string>, name: string)
    requires rest == [] || rest == [""]
    ensures kept + Filter(rest, name) == kept + rest && kept + [] == kept
    ensures rest == [""] ==> Join(kept + rest) == Spaced(kept) + Join(rest)
  {
    if rest == [""] {
      assert Filter(rest, name) == [""] + Filter(rest[1..], name);
      JoinAppend(kept, rest);
    }
  }
}
