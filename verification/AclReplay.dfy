/** Over every sequence of operations, a selector's kept rules regenerate its permissions. The
    text they are joined into does so exactly when no rule holds a quote or a blank, because
    reading the text back goes through `sdssplitargs`. */
module AclReplay {
  import opened Text
  import opened Sds
  import opened AclRules
  import opened AclSelector

  // ---------- Every operation keeps the invariant ----------

  lemma {:induction false} FilterNoneReplaced(rules: seq<string>, name: string)
    requires NoneReplaced(rules)
    ensures NoneReplaced(Filter(rules, name))
  {
    hide Matches;
    if rules != [] {
      var tail := Filter(rules[1..], name);
      assert forall j :: 0 < j < |rules| ==> rules[j] == rules[1..][j - 1];
      FilterNoneReplaced(rules[1..], name);
      FilterIn(rules[1..], name);
      forall j | 0 <= j < |tail| && tail[j] != "" ensures !Matches(rules[0], tail[j][1..]) {
        var k :| 0 <= k < |rules[1..]| && rules[1..][k] == tail[j];
        assert rules[k + 1] == tail[j];
      }
    }
  }

  lemma UpdateKeepsRules(t: Table, rules: seq<string>, rule: string)
    requires RulesOk(t, rules) && Canonical(rule) && EffectOf(t, rule).Some?
    ensures RulesOk(t, Filter(rules, rule[1..]) + [rule])
  {
    hide Matches, EffectOf, Canonical;
    assert rule != "" by { CanonicalNonEmpty(rule); }
    FilterIn(rules, rule[1..]);
    FilterNoneReplaced(rules, rule[1..]);
  }

  lemma CanonicalNonEmpty(rule: string)
    requires Canonical(rule)
    ensures rule != ""
  {
  }

  lemma ReplayMore(t: Table, rules: seq<string>, rule: string, p: Permissions)
    requires Effective(t, rules) && EffectOf(t, rule).Some?
    ensures Effective(t, rules + [rule])
    ensures Replay(t, rules + [rule], p) == Act(Replay(t, rules, p), EffectOf(t, rule).value)
  {
    hide EffectOf, Act;
    assert (rules + [rule])[..|rules|] == rules;
  }

  /** The text with the new rule at the end, and the ones it replaces gone, replays to the
      new permissions. */
  lemma UpdateReplays(t: Table, rules: seq<string>, rule: string, p: Permissions)
    requires WfTable(t) && RulesOk(t, rules) && Canonical(rule) && EffectOf(t, rule).Some?
    ensures Effective(t, Filter(rules, rule[1..]) + [rule])
    ensures Replay(t, Filter(rules, rule[1..]) + [rule], p) == Act(Replay(t, rules, p), EffectOf(t, rule).value)
  {
    hide Matches, EffectOf, Act, Canonical, Replay, Covers, SameUnder;
    CanonicalNonEmpty(rule);
    var e := EffectOf(t, rule).value;
    forall i | 0 <= i < |rules| && Matches(rules[i], rule[1..]) ensures Covers(e, EffectOf(t, rules[i]).value) {
      ReplacedIsCovered(t, rule, rules[i]);
    }
    FilterReplays(t, rules, rule, p);
    ReplayMore(t, Filter(rules, rule[1..]), rule, p);
    SameUnderActs(e, Replay(t, rules, p), Replay(t, Filter(rules, rule[1..]), p));
  }

  lemma {:induction false} ReplayReserved(t: Table, rules: seq<string>, p: Permissions)
    requires WfTable(t) && Effective(t, rules) && |p.bits| == BITS
    ensures |Replay(t, rules, p).bits| == BITS && Replay(t, rules, p).bits[BITS - 1] == p.bits[BITS - 1]
  {
    hide EffectOf;
    if rules != [] {
      ReplayReserved(t, rules[..|rules| - 1], p);
      var e := EffectOf(t, rules[|rules| - 1]).value;
      if e.Write? { ReservedBitKept(t, rules[|rules| - 1]); }
    }
  }

  lemma RuleIsCanonical(op: string)
    requires Spaceless(op) && op != "" && (op[0] == '+' || op[0] == '-')
    ensures Canonical([op[0]] + Lower(op[1..]))
  {
    LowerIdempotent(op[1..]);
    var rule := [op[0]] + Lower(op[1..]);
    assert rule[1..] == Lower(op[1..]);
    assert forall i :: 0 < i < |rule| ==> rule[i] == LowerChar(op[i]);
  }

  lemma RulesAreTexts(t: Table, rules: seq<string>)
    requires RulesOk(t, rules)
    ensures RuleTexts(rules)
  {
    hide EffectOf, NoneReplaced, Lower;
    forall i | 0 <= i < |rules| ensures RuleText(rules[i]) { assert Canonical(rules[i]); }
  }

  lemma EverythingInv(t: Table, value: bool)
    ensures SelInv(t, Everything(value))
  {
  }

  /** The selector after an operation; a refused one changes nothing. */
  function After(t: Table, sel: Selector, op: string): Selector {
    match SetSelector(t, sel, op)
    case Err(_) => sel
    case Ok(sel') => sel'
  }

  /** Every operation, accepted or refused, keeps the text and the permissions in agreement. */
  lemma OperationKeepsInv(t: Table, sel: Selector, op: string)
    requires WfTable(t) && SelInv(t, sel) && Spaceless(op)
    ensures SelInv(t, After(t, sel, op))
  {
    if SetSelector(t, sel, op).Err? {
    } else if IsAll(op) {
      EverythingInv(t, true);
    } else if IsNone(op) {
      EverythingInv(t, false);
    } else {
      RulesAreTexts(t, sel.rules);
      OperationActs(t, sel, op);
      RuleIsCanonical(op);
      hide EffectOf, Act, Replay, Canonical, SetSelector, PermissionsOf, Everything, WfTable, ArgsOfTop;
      var rule := [op[0]] + Lower(op[1..]);
      var sel' := SetSelector(t, sel, op).sel;
      var start := PermissionsOf(Everything(sel.bits[BITS - 1]));
      EverythingBits(sel.bits[BITS - 1]);
      UpdateKeepsRules(t, sel.rules, rule);
      UpdateReplays(t, sel.rules, rule, start);
      assert PermissionsOf(sel') == Replay(t, sel'.rules, start);
      ReplayReserved(t, sel'.rules, start);
      BitsOf(sel');
    }
  }

  lemma EverythingBits(value: bool)
    ensures var p := PermissionsOf(Everything(value)); |p.bits| == BITS && p.bits[BITS - 1] == value
  {
  }

  lemma BitsOf(sel: Selector)
    ensures PermissionsOf(sel).bits == sel.bits
  {
  }

  // ---------- Regenerating ----------

  /** The rules applied one after the other, as `ACLDescribeSelectorCommandRules` and
      `ACLRecomputeCommandBitsFromCommandRulesAllUsers` do; `None` is the assertion that a
      rule was refused. */
  function ApplyAll(t: Table, sel: Selector, rules: seq<string>): Option<Selector>
    decreases |rules|
  {
    if rules == [] then Some(sel)
    else
      match SetSelector(t, sel, rules[0])
      case Err(_) => None
      case Ok(sel') => ApplyAll(t, sel', rules[1..])
  }

  lemma {:induction false} FilterKeepsAll(rules: seq<string>, name: string)
    requires forall i :: 0 <= i < |rules| ==> !Matches(rules[i], name)
    ensures Filter(rules, name) == rules
  {
    hide Matches;
    if rules != [] { FilterKeepsAll(rules[1..], name); }
  }

  /** A kept rule is accepted again, is no `@all`, and is stored as it is. */
  lemma RuleAccepted(t: Table, sel: Selector, rule: string)
    requires WfTable(t) && ArgsOfTop(t, sel) && RuleTexts(sel.rules) && Canonical(rule) && EffectOf(t, rule).Some?
    requires forall i :: 0 <= i < |sel.rules| ==> !Matches(sel.rules[i], rule[1..])
    ensures SetSelector(t, sel, rule).Ok?
    ensures var sel' := SetSelector(t, sel, rule).sel;
            && sel'.rules == sel.rules + [rule] && ArgsOfTop(t, sel')
            && PermissionsOf(sel') == Act(PermissionsOf(sel), EffectOf(t, rule).value)
  {
    NoAllRule(t, rule);
    FilterKeepsAll(sel.rules, rule[1..]);
    assert [rule[0]] + rule[1..] == rule;
    assert SetSelector(t, sel, rule).Ok?;
    OperationActs(t, sel, rule);
  }

  lemma KeptTexts(t: Table, a: seq<string>, b: seq<string>)
    requires RulesOk(t, a + b)
    ensures RuleTexts(a)
  {
    RulesAreTexts(t, a + b);
    hide RulesOk, RuleText;
    assert forall i :: 0 <= i < |a| ==> (a + b)[i] == a[i];
  }

  lemma NoAllRule(t: Table, rule: string)
    requires WfTable(t) && Canonical(rule) && EffectOf(t, rule).Some?
    ensures !IsAll(rule) && !IsNone(rule)
  {
    var l := Lower(rule);
    assert l[0] == rule[0] && l[1..] == Lower(rule[1..]);
    assert "+@all"[1..] == "@all" && "-@all"[1..] == "@all";
    assert "@all"[1..] == "all" && Lower("all") == "all";
  }

  lemma {:induction false} RulesReapply(t: Table, sel: Selector, rules: seq<string>, p: Permissions)
    requires WfTable(t) && ArgsOfTop(t, sel) && RulesOk(t, sel.rules + rules) && Effective(t, sel.rules)
    requires PermissionsOf(sel) == Replay(t, sel.rules, p)
    ensures ApplyAll(t, sel, rules).Some?
    ensures var sel' := ApplyAll(t, sel, rules).value;
            sel'.rules == sel.rules + rules && PermissionsOf(sel') == Replay(t, sel.rules + rules, p)
    decreases |rules|
  {
    hide EffectOf, Act, Replay, Canonical, SetSelector, PermissionsOf, WfTable, ArgsOfTop, Matches;
    var all := sel.rules + rules;
    if rules == [] {
      assert all == sel.rules;
    } else {
      var rule := rules[0];
      assert rule == all[|sel.rules|];
      CanonicalNonEmpty(rule);
      assert forall i :: 0 <= i < |sel.rules| ==> all[i] == sel.rules[i];
      assert RuleTexts(sel.rules) by { KeptTexts(t, sel.rules, rules); }
      RuleAccepted(t, sel, rule);
      var sel' := SetSelector(t, sel, rule).sel;
      assert sel'.rules + rules[1..] == all;
      ReplayMore(t, sel.rules, rule, p);
      RulesReapply(t, sel', rules[1..], p);
    }
  }

  // ---------- Splitting the text ----------

  predicate AllPlain(rules: seq<string>) { forall i :: 0 <= i < |rules| ==> PlainWord(rules[i]) }

  /** Plain rules: the text splits back into them. */
  lemma {:induction false} JoinSplits(rules: seq<string>)
    requires AllPlain(rules)
    ensures SplitArgs(Join(rules)) == Some(rules)
  {
    hide SplitArgs, PlainWord;
    if rules == [] {
      SplitNothing();
    } else if |rules| == 1 {
      SplitNothing();
      assert rules[0] + "" == rules[0];
      SplitPlainWord(rules[0], "");
      assert [rules[0]] + [] == rules;
    } else {
      var rest := " " + Join(rules[1..]);
      assert Join(rules) == rules[0] + rest && rest[1..] == Join(rules[1..]);
      SplitPlainWord(rules[0], rest);
      JoinSplits(rules[1..]);
      assert [rules[0]] + rules[1..] == rules;
    }
  }

  lemma SplitNothing()
    ensures SplitArgs("") == Some([])
  {
  }

  // ---------- Every run ----------

  /** A selector after any operations. */
  function Run(t: Table, sel: Selector, ops: seq<string>): Selector
    decreases |ops|
  {
    if ops == [] then sel else Run(t, After(t, sel, ops[0]), ops[1..])
  }

  lemma {:induction false} RunKeepsInv(t: Table, sel: Selector, ops: seq<string>)
    requires WfTable(t) && SelInv(t, sel)
    requires forall i :: 0 <= i < |ops| ==> Spaceless(ops[i])
    ensures SelInv(t, Run(t, sel, ops))
    decreases |ops|
  {
    hide SelInv, WfTable, After, Spaceless;
    if ops != [] {
      OperationKeepsInv(t, sel, ops[0]);
      RunKeepsInv(t, After(t, sel, ops[0]), ops[1..]);
    }
  }

  lemma {:induction false} JoinWeight(rules: seq<string>)
    requires rules != []
    ensures Weight(rules) == |Join(rules)| + 1
  {
    if |rules| > 1 { JoinWeight(rules[1..]); } else { assert rules[1..] == []; }
  }

  lemma {:induction false} FilterWeight(rules: seq<string>, name: string)
    ensures Weight(Filter(rules, name)) <= Weight(rules)
  {
    hide Matches;
    if rules != [] {
      var tail := Filter(rules[1..], name);
      assert ([rules[0]] + tail)[1..] == tail && [] + tail == tail;
      FilterWeight(rules[1..], name);
    }
  }

  /** No quote, and no blank but spaces. */
  predicate Clean(s: string) {
    forall i :: 0 <= i < |s| ==> s[i] == ' ' || (!IsDelimiter(s[i]) && s[i] != '"' && s[i] != '\'')
  }

  predicate AllClean(rules: seq<string>) { forall i :: 0 <= i < |rules| ==> Clean(rules[i]) }

  lemma CleanSum(a: string, b: string)
    ensures Clean(a + b) <==> Clean(a) && Clean(b)
  {
    assert forall i :: 0 <= i < |a| ==> (a + b)[i] == a[i];
    assert forall i :: 0 <= i < |b| ==> (a + b)[|a| + i] == b[i];
  }

  lemma {:induction false} JoinClean(rules: seq<string>)
    ensures Clean(Join(rules)) <==> AllClean(rules)
  {
    if rules != [] {
      assert forall i :: 0 < i < |rules| ==> rules[i] == rules[1..][i - 1];
      if |rules| > 1 {
        CleanSum(rules[0] + " ", Join(rules[1..]));
        CleanSum(rules[0], " ");
        JoinClean(rules[1..]);
        assert AllClean(rules) <==> Clean(rules[0]) && AllClean(rules[1..]);
      }
    }
  }

  lemma NothingWeighs()
    ensures Weight([]) == 0 && AllClean([]) && Join([]) == ""
  {
  }

  lemma OperationRules(t: Table, sel: Selector, op: string)
    requires SetSelector(t, sel, op).Ok?
    ensures IsAll(op) || IsNone(op) ==> SetSelector(t, sel, op).sel.rules == []
    ensures !IsAll(op) && !IsNone(op) ==>
              && op != "" && (op[0] == '+' || op[0] == '-')
              && SetSelector(t, sel, op).sel.rules == UpdateRules(sel.rules, op[1..], op[0] == '+')
  {
    hide Resolve, UpdateRules, Lower;
  }

  lemma UpdateWeight(rules: seq<string>, name: string, allow: bool)
    ensures var rules' := UpdateRules(rules, name, allow);
            && Weight(rules') <= Weight(rules) + |name| + 2
            && (AllClean(rules) && Clean(name) ==> AllClean(rules'))
  {
    var (kept, text) := (Filter(rules, Lower(name)), UpdateText(rules, name, allow));
    assert |Lower(name)| == |name|;
    FilterWeight(rules, Lower(name));
    CutJoins(text);
    JoinWeight(Cut(text));
    if kept == [] { NothingWeighs(); } else { JoinWeight(kept); }
    if AllClean(rules) && Clean(name) { UpdateClean(rules, name, allow); }
    hide Weight, Cut, Filter, Join, Clean, AllClean;
  }

  lemma UpdateClean(rules: seq<string>, name: string, allow: bool)
    requires AllClean(rules) && Clean(name)
    ensures AllClean(UpdateRules(rules, name, allow))
  {
    var (kept, text) := (Filter(rules, Lower(name)), UpdateText(rules, name, allow));
    assert Clean(Lower(name)) by { assert forall i :: 0 <= i < |name| ==> Lower(name)[i] == LowerChar(name[i]); }
    assert Clean(Sign(allow)) && Clean(" ") && Clean("");
    hide Filter, Join, Cut, Clean, Lower, Matches;
    FilterIn(rules, Lower(name));
    JoinClean(kept);
    CleanSum(Join(kept), " ");
    CleanSum(Sign(allow), Lower(name));
    CleanSum(if Join(kept) == "" then "" else Join(kept) + " ", Sign(allow) + Lower(name));
    CutJoins(text);
    JoinClean(Cut(text));
  }

  /** An operation adds no more to the text than its own length, and no quote of its own. */
  lemma OperationWeight(t: Table, sel: Selector, op: string)
    requires SetSelector(t, sel, op).Ok?
    ensures var sel' := SetSelector(t, sel, op).sel;
            && Weight(sel'.rules) <= Weight(sel.rules) + |op| + 1
            && (AllClean(sel.rules) && Clean(op) ==> AllClean(sel'.rules))
  {
    hide SetSelector, UpdateRules, IsAll, IsNone, Weight, Clean, AllClean, Join;
    OperationRules(t, sel, op);
    NothingWeighs();
    if !IsAll(op) && !IsNone(op) {
      assert op == [op[0]] + op[1..];
      CleanSum([op[0]], op[1..]);
      UpdateWeight(sel.rules, op[1..], op[0] == '+');
    }
  }

  lemma {:induction false} ApplyAllWeight(t: Table, sel: Selector, words: seq<string>)
    requires ApplyAll(t, sel, words).Some?
    ensures var rules := ApplyAll(t, sel, words).value.rules;
            && Weight(rules) <= Weight(sel.rules) + Weight(words)
            && (AllClean(sel.rules) && AllClean(words) ==> AllClean(rules))
    decreases |words|
  {
    hide SetSelector, Clean;
    if words != [] {
      OperationWeight(t, sel, words[0]);
      ApplyAllWeight(t, SetSelector(t, sel, words[0]).sel, words[1..]);
    }
  }

  // ---------- The theorem ----------

  /** What `ACLDescribeSelectorCommandRules` rebuilds from the text of a selector: the text is
      split and applied behind the `@all` that the reserved bit chooses. `None` is one of its two
      assertions, unbalanced quotes or a refused word. */
  function Reload(t: Table, sel: Selector): Option<Selector>
    requires |sel.bits| == BITS
  {
    match SplitArgs(Join(sel.rules))
    case None => None
    case Some(words) => ApplyAll(t, Everything(sel.bits[BITS - 1]), words)
  }

  ghost predicate SameText(again: Option<Selector>, sel: Selector) {
    again.Some? && Join(again.value.rules) == Join(sel.rules)
  }

  /** The two have the same bitmap, the same first arguments up to case, and the same text. */
  ghost predicate Same(again: Option<Selector>, sel: Selector) {
    SameText(again, sel) && again.value.bits == sel.bits && PermissionsOf(again.value) == PermissionsOf(sel)
  }

  /** Applying the kept rules rebuilds the selector. */
  lemma Regenerates(t: Table, sel: Selector)
    requires WfTable(t) && SelInv(t, sel)
    ensures Same(ApplyAll(t, Everything(sel.bits[BITS - 1]), sel.rules), sel)
  {
    var start := Everything(sel.bits[BITS - 1]);
    assert [] + sel.rules == sel.rules;
    assert Replay(t, [], PermissionsOf(start)) == PermissionsOf(start);
    assert ArgsOfTop(t, start);
    hide WfTable, EffectOf, Canonical, NoneReplaced, ApplyAll, Replay;
    RulesReapply(t, start, sel.rules, PermissionsOf(start));
    BitsOf(sel);
    BitsOf(ApplyAll(t, start, sel.rules).value);
  }

  lemma PlainTextIsClean(words: seq<string>)
    requires forall i :: 0 <= i < |words| ==> PlainText(words[i])
    ensures AllClean(words) && forall i :: 0 <= i < |words| ==> ' ' !in words[i]
  {
    forall i | 0 <= i < |words| ensures Clean(words[i]) && ' ' !in words[i] { assert PlainText(words[i]); }
  }

  /** A text that comes back has no quote and no blank but spaces, and was split at these. */
  lemma ReloadedIsClean(t: Table, sel: Selector)
    requires |sel.bits| == BITS && SameText(Reload(t, sel), sel)
    ensures Clean(Join(sel.rules)) && SplitArgs(Join(sel.rules)).Some?
    ensures forall i :: 0 <= i < |SplitArgs(Join(sel.rules)).value| ==> PlainText(SplitArgs(Join(sel.rules)).value[i])
  {
    var text := Join(sel.rules);
    NothingWeighs();
    SplitNothing();
    if text != "" {
      var (words, start) := (SplitArgs(text).value, Everything(sel.bits[BITS - 1]));
      assert start.rules == [];
      hide PlainText, SplitArgs, ApplyAll, Join, Weight, Clean, AllClean, Everything;
      var rules := ApplyAll(t, start, words).value.rules;
      ApplyAllWeight(t, start, words);
      SplitShrinks(text);
      JoinWeight(rules);
      PlainTextIsClean(words);
      JoinClean(rules);
    }
  }

  lemma CleanIsPlain(t: Table, rules: seq<string>)
    requires RulesOk(t, rules)
    ensures AllPlain(rules) <==> Clean(Join(rules))
  {
    JoinClean(rules);
    hide EffectOf, NoneReplaced, Join, Lower;
    if AllClean(rules) {
      forall i | 0 <= i < |rules| ensures PlainWord(rules[i]) {
        assert Canonical(rules[i]) && Clean(rules[i]);
      }
    } else {
      var i :| 0 <= i < |rules| && !Clean(rules[i]);
      assert !PlainWord(rules[i]);
    }
  }

  /** The text rebuilds the selector, permissions and text, exactly when no kept rule holds a
      quote, a tab, a carriage return or a line feed. */
  lemma ReloadsIff(t: Table, sel: Selector)
    requires WfTable(t) && SelInv(t, sel)
    ensures SameText(Reload(t, sel), sel) <==> AllPlain(sel.rules)
    ensures Same(Reload(t, sel), sel) <==> AllPlain(sel.rules)
    ensures SplitArgs(Join(sel.rules)) == Some(sel.rules) <==> AllPlain(sel.rules)
  {
    CleanIsPlain(t, sel.rules);
    Regenerates(t, sel);
    hide WfTable, RulesOk, AllPlain, ApplyAll, SplitArgs, Join, Clean, PermissionsOf, Replay, PlainText;
    if AllPlain(sel.rules) { JoinSplits(sel.rules); }
    if SameText(Reload(t, sel), sel) { ReloadedIsClean(t, sel); }
  }

  /** Starting from an empty selector and after any operations: the kept rules rebuild the
      selector, and so does their text exactly when it has no quote and no blank but the spaces
      between rules. */
  lemma RulesRegeneratePermissions(t: Table, ops: seq<string>)
    requires WfTable(t)
    requires forall i :: 0 <= i < |ops| ==> Spaceless(ops[i])
    ensures var sel := Run(t, EMPTY, ops);
            && |sel.bits| == BITS
            && Same(ApplyAll(t, Everything(sel.bits[BITS - 1]), sel.rules), sel)
            && (Same(Reload(t, sel), sel) <==> AllPlain(sel.rules))
  {
    EverythingInv(t, false);
    assert EMPTY == Everything(false);
    RunKeepsInv(t, EMPTY, ops);
    Regenerates(t, Run(t, EMPTY, ops));
    ReloadsIff(t, Run(t, EMPTY, ops));
    hide WfTable, Run, ApplyAll, Reload, AllPlain, PermissionsOf, RulesOk, Replay, ArgsOfTop, Same;
  }

  lemma SpacelessReloadsIff(t: Table, sel: Selector, op: string)
    requires WfTable(t) && SelInv(t, sel) && Spaceless(op)
    requires SetSelector(t, sel, op).Ok? && !IsAll(op) && !IsNone(op)
    ensures |After(t, sel, op).bits| == BITS
    ensures Same(Reload(t, After(t, sel, op)), After(t, sel, op))
       <==> PlainWord(op) && AllPlain(Filter(sel.rules, Lower(op[1..])))
  {
    OperationKeepsInv(t, sel, op);
    SpacelessRules(t, sel, op);
    RuleIsPlain(op);
    var sel' := After(t, sel, op);
    ReloadsIff(t, sel');
    AllPlainMore(Filter(sel.rules, Lower(op[1..])), [op[0]] + Lower(op[1..]));
    assert |sel'.bits| == BITS;
    hide WfTable, SelInv, Reload, SetSelector, PermissionsOf, Filter, PlainWord, Lower, IsAll, IsNone, AllPlain, Same;
  }

  lemma SpacelessRules(t: Table, sel: Selector, op: string)
    requires SelInv(t, sel) && Spaceless(op) && SetSelector(t, sel, op).Ok? && !IsAll(op) && !IsNone(op)
    ensures op != "" && After(t, sel, op).rules == Filter(sel.rules, Lower(op[1..])) + [[op[0]] + Lower(op[1..])]
  {
    RulesAreTexts(t, sel.rules);
    OperationRules(t, sel, op);
    assert Spaceless(op[1..]) && Sign(op[0] == '+') == [op[0]];
    hide SelInv, SetSelector, RuleTexts;
    UpdateSpaceless(sel.rules, op[1..], op[0] == '+');
  }

  lemma OperationBits(t: Table, sel: Selector, op: string)
    requires SetSelector(t, sel, op).Ok? && |sel.bits| == BITS
    ensures |After(t, sel, op).bits| == BITS
  {
    hide Resolve, UpdateRules, AddFirstArg;
  }

  // ---------- First arguments with spaces ----------

  ghost predicate ArgsSpaceless(sel: Selector) {
    forall id, i :: id in sel.firstArgs && 0 <= i < |sel.firstArgs[id]| ==> ' ' !in sel.firstArgs[id][i]
  }

  lemma ArgAdded(args: map<nat, seq<string>>, id: nat, arg: string)
    requires ' ' !in arg && forall k, i :: k in args && 0 <= i < |args[k]| ==> ' ' !in args[k][i]
    ensures var args' := AddFirstArg(args, id, arg); forall k, i :: k in args' && 0 <= i < |args'[k]| ==> ' ' !in args'[k][i]
  {
  }

  lemma OperationArgs(t: Table, sel: Selector, op: string)
    requires SetSelector(t, sel, op).Ok? && ArgsSpaceless(sel) && ' ' !in op
    ensures ArgsSpaceless(SetSelector(t, sel, op).sel)
  {
    hide UpdateRules, AddFirstArg, Lookup, LastIndexOf;
    if !IsAll(op) && !IsNone(op) {
      var x := Resolve(t, op[0] == '+', op[1..]);
      if x.FirstArg? {
        assert ' ' !in x.arg;
        ArgAdded(sel.firstArgs, x.id, x.arg);
      }
    }
  }

  lemma {:induction false} ApplyAllArgs(t: Table, sel: Selector, words: seq<string>)
    requires ApplyAll(t, sel, words).Some? && ArgsSpaceless(sel)
    requires forall i :: 0 <= i < |words| ==> ' ' !in words[i]
    ensures ArgsSpaceless(ApplyAll(t, sel, words).value)
    decreases |words|
  {
    hide SetSelector, ArgsSpaceless;
    if words != [] {
      OperationArgs(t, sel, words[0]);
      ApplyAllArgs(t, SetSelector(t, sel, words[0]).sel, words[1..]);
    }
  }

  lemma LowerSpaces(s: string)
    ensures ' ' in Lower(s) <==> ' ' in s
  {
    if ' ' in s {
      var i :| 0 <= i < |s| && s[i] == ' ';
      assert Lower(s)[i] == ' ';
    }
    if ' ' in Lower(s) {
      var i :| 0 <= i < |s| && Lower(s)[i] == ' ';
      assert LowerChar(s[i]) == ' ';
    }
  }

  lemma SpacedNotFound(t: Table, name: string)
    requires NamesSpaceless(t) && ' ' in name
    ensures Lookup(t, name).NotFound?
  {
    LowerSpaces(name);
    var n := Lower(name);
    var i := IndexOf(n, '|');
    assert i < |n| ==> n == n[..i] + [n[i]] + n[i + 1..];
  }

  lemma SpacedCategory(t: Table, allow: bool, name: string)
    requires NamesSpaceless(t) && ' ' in name && name[0] == '@'
    ensures Resolve(t, allow, name).Refused?
  {
    hide CategoryCommands, Ids, Resets, Lookup, LastIndexOf;
    assert name == [name[0]] + name[1..];
    LowerSpaces(name[1..]);
  }

  /** An accepted operation with a space is one on a first argument with a space. */
  lemma SpacedIsFirstArg(t: Table, allow: bool, name: string)
    requires NamesSpaceless(t) && !Resolve(t, allow, name).Refused? && ' ' in name
    ensures Resolve(t, allow, name).FirstArg? && ' ' in Resolve(t, allow, name).arg
  {
    hide CategoryCommands, Ids, Resets, Lookup, LastIndexOf, NamesSpaceless, Lower;
    if name[0] == '@' { SpacedCategory(t, allow, name); }
    SpacedNotFound(t, name);
    var i := LastIndexOf(name, '|');
    if i >= 0 {
      assert name == name[..i] + [name[i]] + name[i + 1..];
      if ' ' in name[..i] { SpacedNotFound(t, name[..i]); }
    }
  }

  lemma AddedPermission(sel: Selector, id: nat, arg: string)
    ensures (id, Lower(arg)) in PermissionsOf(sel.(firstArgs := AddFirstArg(sel.firstArgs, id, arg))).args
  {
    AddArgActs(sel, id, arg);
  }

  lemma PermissionsSpaceless(sel: Selector)
    requires ArgsSpaceless(sel)
    ensures forall a :: a in PermissionsOf(sel).args ==> ' ' !in a.1
  {
    forall a | a in PermissionsOf(sel).args ensures ' ' !in a.1 {
      var k, i :| k in sel.firstArgs && 0 <= i < |sel.firstArgs[k]| && a == (k, Lower(sel.firstArgs[k][i]));
      LowerSpaces(sel.firstArgs[k][i]);
    }
  }

  /** A first argument with a space is never rebuilt with the same text: what is read back from an
      unquoted text has no spaces. */
  lemma SpacedNeverSame(t: Table, sel: Selector, op: string)
    requires NamesSpaceless(t) && |sel.bits| == BITS && ' ' in op
    requires SetSelector(t, sel, op).Ok? && !IsAll(op) && !IsNone(op)
    ensures |After(t, sel, op).bits| == BITS && !Same(Reload(t, After(t, sel, op)), After(t, sel, op))
  {
    OperationBits(t, sel, op);
    var sel' := After(t, sel, op);
    assert op == [op[0]] + op[1..];
    SpacedIsFirstArg(t, op[0] == '+', op[1..]);
    var x := Resolve(t, op[0] == '+', op[1..]);
    AddedPermission(sel, x.id, x.arg);
    LowerSpaces(x.arg);
    assert PermissionsOf(sel').args == PermissionsOf(sel.(firstArgs := AddFirstArg(sel.firstArgs, x.id, x.arg))).args;
    assert (x.id, Lower(x.arg)) in PermissionsOf(sel').args;
    hide SetSelector, PermissionsOf, Resolve, IsAll, IsNone, Lower, NamesSpaceless, AddFirstArg;
    if Same(Reload(t, sel'), sel') { PlainReloadHasNoSpaces(t, sel'); }
  }

  lemma PlainReloadHasNoSpaces(t: Table, sel: Selector)
    requires |sel.bits| == BITS && SameText(Reload(t, sel), sel)
    ensures forall a :: a in PermissionsOf(Reload(t, sel).value).args ==> ' ' !in a.1
  {
    ReloadedIsClean(t, sel);
    var words := SplitArgs(Join(sel.rules)).value;
    var start := Everything(sel.bits[BITS - 1]);
    assert ArgsSpaceless(start);
    hide SplitArgs, Join, PlainText, ApplyAll, ArgsSpaceless, PermissionsOf, Clean, Everything;
    PlainTextIsClean(words);
    ApplyAllArgs(t, start, words);
    PermissionsSpaceless(ApplyAll(t, start, words).value);
  }

  /** What a caller can check before any operation but the two `@all` ones: the text afterwards
      rebuilds the selector exactly when there is no quote and no blank in the operation, nor in
      any of the rules it does not replace. */
  lemma OperationReloadsIff(t: Table, sel: Selector, op: string)
    requires WfTable(t) && SelInv(t, sel) && '\0' !in op
    requires SetSelector(t, sel, op).Ok? && !IsAll(op) && !IsNone(op)
    ensures |After(t, sel, op).bits| == BITS
    ensures Same(Reload(t, After(t, sel, op)), After(t, sel, op))
       <==> PlainWord(op) && AllPlain(Filter(sel.rules, Lower(op[1..])))
  {
    if Spaceless(op) { SpacelessReloadsIff(t, sel, op); } else { SpacedNeverSame(t, sel, op); }
    hide WfTable, SelInv, Reload, SetSelector, PermissionsOf, Filter, Lower, IsAll, IsNone, Same;
  }

  lemma AllPlainMore(kept: seq<string>, rule: string)
    ensures AllPlain(kept + [rule]) <==> AllPlain(kept) && PlainWord(rule)
  {
    hide PlainWord;
    var all := kept + [rule];
    assert all[|kept|] == rule && forall i :: 0 <= i < |kept| ==> all[i] == kept[i];
  }

  lemma RuleIsPlain(op: string)
    ensures op != "" ==> (PlainWord(op) <==> PlainWord([op[0]] + Lower(op[1..])))
  {
    if op != "" {
      var rule := [op[0]] + Lower(op[1..]);
      assert forall i :: 0 < i < |rule| ==> rule[i] == LowerChar(op[i]);
      assert forall i :: 0 <= i < |rule| ==> (PlainChar(op[i]) <==> PlainChar(rule[i]));
    }
  }

  // ---------- Every run, exactly ----------

  /** The operation changes rules, not all of them at once. */
  predicate EditsRules(t: Table, sel: Selector, op: string) {
    SetSelector(t, sel, op).Ok? && !IsAll(op) && !IsNone(op)
  }

  /** No accepted operation of the run holds a quote or a blank. */
  predicate AcceptedPlain(t: Table, sel: Selector, ops: seq<string>)
    decreases |ops|
  {
    ops == [] ||
    ((EditsRules(t, sel, ops[0]) ==> PlainWord(ops[0])) && AcceptedPlain(t, After(t, sel, ops[0]), ops[1..]))
  }

  ghost predicate ComesBack(t: Table, sel: Selector) {
    |sel.bits| == BITS && Same(Reload(t, sel), sel)
  }

  /** At every moment of the run the text rebuilds the selector. */
  ghost predicate ComesBackThroughout(t: Table, sel: Selector, ops: seq<string>) {
    forall k :: 0 <= k <= |ops| ==> ComesBack(t, Run(t, sel, ops[..k]))
  }

  lemma ThroughoutStep(t: Table, sel: Selector, ops: seq<string>)
    requires ops != []
    ensures ComesBackThroughout(t, sel, ops)
       <==> ComesBack(t, sel) && ComesBackThroughout(t, After(t, sel, ops[0]), ops[1..])
  {
    hide After, ComesBack;
    var (sel1, tail) := (After(t, sel, ops[0]), ops[1..]);
    assert Run(t, sel, ops[..0]) == sel;
    forall k | 0 < k <= |ops| ensures Run(t, sel, ops[..k]) == Run(t, sel1, tail[..k - 1]) {
      assert ops[..k][1..] == tail[..k - 1];
    }
    if ComesBackThroughout(t, sel, ops) {
      assert ComesBack(t, Run(t, sel, ops[..0]));
      forall j | 0 <= j <= |tail| ensures ComesBack(t, Run(t, sel1, tail[..j])) {
        assert Run(t, sel, ops[..j + 1]) == Run(t, sel1, tail[..j]);
      }
    }
  }

  lemma ThroughoutStarts(t: Table, sel: Selector, ops: seq<string>)
    ensures ComesBackThroughout(t, sel, ops) ==> ComesBack(t, sel)
    ensures ops == [] ==> (ComesBackThroughout(t, sel, ops) <==> ComesBack(t, sel))
  {
    hide ComesBack;
    assert Run(t, sel, ops[..0]) == sel;
    assert ops == [] ==> forall k :: 0 <= k <= |ops| ==> ops[..k] == [];
  }

  /** With plain rules so far: one more operation, spaces included, keeps them plain exactly when
      the text still comes back. */
  lemma OneMore(t: Table, sel: Selector, op: string)
    requires WfTable(t) && SelInv(t, sel) && AllPlain(sel.rules) && '\0' !in op
    ensures ComesBack(t, After(t, sel, op)) <==> (EditsRules(t, sel, op) ==> PlainWord(op))
    ensures (EditsRules(t, sel, op) ==> PlainWord(op)) ==>
              SelInv(t, After(t, sel, op)) && AllPlain(After(t, sel, op).rules)
  {
    if EditsRules(t, sel, op) {
      FilterPlain(sel.rules, Lower(op[1..]));
      OperationReloadsIff(t, sel, op);
      if PlainWord(op) {
        assert Spaceless(op);
        OperationKeepsInv(t, sel, op);
        ReloadsIff(t, After(t, sel, op));
      }
    } else {
      WholeOperation(t, sel, op);
      ReloadsIff(t, After(t, sel, op));
    }
    hide WfTable, SelInv, Reload, SetSelector, PermissionsOf, AllPlain, PlainWord, Filter, IsAll, IsNone;
  }

  lemma WholeOperation(t: Table, sel: Selector, op: string)
    requires SelInv(t, sel) && AllPlain(sel.rules) && !EditsRules(t, sel, op)
    ensures SelInv(t, After(t, sel, op)) && AllPlain(After(t, sel, op).rules)
  {
    EverythingInv(t, true);
    EverythingInv(t, false);
    hide SelInv, Resolve;
  }

  lemma FilterPlain(rules: seq<string>, name: string)
    requires AllPlain(rules)
    ensures AllPlain(Filter(rules, name))
  {
    hide PlainWord, Matches;
    FilterIn(rules, name);
  }

  lemma {:induction false} RunComesBackIff(t: Table, sel: Selector, ops: seq<string>)
    requires WfTable(t) && SelInv(t, sel) && AllPlain(sel.rules)
    requires forall i :: 0 <= i < |ops| ==> '\0' !in ops[i]
    ensures ComesBackThroughout(t, sel, ops) <==> AcceptedPlain(t, sel, ops)
    decreases |ops|
  {
    ReloadsIff(t, sel);
    assert ComesBack(t, sel);
    hide WfTable, SelInv, AllPlain, After, ComesBack, ComesBackThroughout, PlainWord, EditsRules;
    ThroughoutStarts(t, sel, ops);
    if ops != [] {
      ThroughoutStep(t, sel, ops);
      OneMore(t, sel, ops[0]);
      if EditsRules(t, sel, ops[0]) ==> PlainWord(ops[0]) {
        RunComesBackIff(t, After(t, sel, ops[0]), ops[1..]);
      } else {
        ThroughoutStarts(t, After(t, sel, ops[0]), ops[1..]);
      }
    }
  }

  /** Over every run from an empty selector, whatever the operations hold: the text rebuilds the
      selector at every moment if and only if no accepted operation holds a quote or a blank. */
  lemma EveryRunComesBackIff(t: Table, ops: seq<string>)
    requires WfTable(t) && forall i :: 0 <= i < |ops| ==> '\0' !in ops[i]
    ensures ComesBackThroughout(t, EMPTY, ops) <==> AcceptedPlain(t, EMPTY, ops)
  {
    EverythingInv(t, false);
    assert EMPTY == Everything(false);
    RunComesBackIff(t, EMPTY, ops);
  }

  // ---------- Where the text does not come back ----------

  /** `select` has first arguments, not subcommands. */
  ghost predicate HasSelect(t: Table) {
    "select" in t.cmds && t.cmds["select"].subs.None?
  }

  lemma SelectBar(arg: string)
    requires '|' !in arg
    ensures var name := "select|" + arg;
            LastIndexOf(name, '|') == 6 && name[..6] == "select" && name[7..] == arg && name[0] != '@'
  {
    var name := "select|" + arg;
    LastIndexIsLast(name, '|');
    assert name[6] == '|' && forall k :: 7 <= k < |name| ==> name[k] == arg[k - 7];
  }

  lemma SelectFound(t: Table)
    requires HasSelect(t)
    ensures Lookup(t, "select") == Top("select", t.cmds["select"])
  {
    assert Lower("select") == "select" && '|' !in "select";
    NoBarTop(t, "select");
  }

  lemma SelectOp(arg: string)
    requires Lower(arg) == arg
    ensures var op := "+select|" + arg;
            op[1..] == "select|" + arg && Lower(op[1..]) == op[1..] && !IsAll(op) && !IsNone(op)
  {
    var op := "+select|" + arg;
    assert Lower("select|") == "select|";
    assert op[1..] == "select|" + arg;
    assert Lower(op)[0] == '+' && Lower(op)[1] == 's';
    assert forall i :: 0 <= i < |arg| ==> LowerChar(arg[i]) == arg[i];
  }

  /** A first argument of `select` is accepted and kept, whatever it holds. */
  lemma SelectArg(t: Table, arg: string)
    requires HasSelect(t) && arg != "" && '|' !in arg && Lower(arg) == arg
    ensures SetSelector(t, EMPTY, "+select|" + arg)
         == Ok(Selector(EMPTY.bits, false, map[t.cmds["select"].id := [arg]], Cut("+select|" + arg)))
  {
    hide Lookup, LastIndexOf, Lower, IsAll, IsNone, Cut, Join, Filter, CategoryCommands, Ids, Resets;
    SelectBar(arg);
    SelectFound(t);
    SelectOp(arg);
    var name := "select|" + arg;
    assert Resolve(t, true, name) == FirstArg(t.cmds["select"].id, arg);
    hide Resolve;
    assert Sign(true) + name == "+select|" + arg;
    FirstText(name);
    FirstOfNone(t.cmds["select"].id, arg);
    hide UpdateText, AddFirstArg;
  }

  lemma FirstText(name: string)
    ensures Lower(name) == name ==> UpdateText([], name, true) == Sign(true) + name
  {
    assert "" + (Sign(true) + name) == Sign(true) + name;
  }

  lemma FirstOfNone(id: nat, arg: string)
    ensures AddFirstArg(map[], id, arg) == map[id := [arg]]
  {
    assert [] + [arg] == [arg];
  }

  lemma SplitSelect(arg: string, rest: string)
    requires TakePlain(arg) == Token(rest, "") || TakePlain(arg).BadQuotes?
    ensures SplitArgs("+select|" + arg) == if TakePlain(arg).Token? then Some(["+select|" + rest]) else None
  {
    var s := "+select|" + arg;
    TakePlainChars("+select|", arg);
    assert s[0] == '+';
    assert SkipSpaces(s) == s;
    SplitNothing();
    if TakePlain(arg).Token? {
      SplitWord(s, "+select|" + rest, "");
      assert ["+select|" + rest] + [] == ["+select|" + rest];
    }
  }

  /** The text of a selector with one first argument of `select`, read back. */
  lemma SelectReload(t: Table, arg: string)
    requires HasSelect(t) && arg != "" && '|' !in arg && Lower(arg) == arg
    ensures SetSelector(t, EMPTY, "+select|" + arg).Ok?
    ensures var sel := SetSelector(t, EMPTY, "+select|" + arg).sel;
            && |sel.bits| == BITS && sel.bits == EMPTY.bits && sel.firstArgs == map[t.cmds["select"].id := [arg]]
            && Reload(t, sel) == match SplitArgs("+select|" + arg)
                                 case None => None
                                 case Some(words) => ApplyAll(t, EMPTY, words)
  {
    SelectArg(t, arg);
    CutJoins("+select|" + arg);
    assert EMPTY.bits[BITS - 1] == false && Everything(false) == EMPTY;
    hide SetSelector, SplitArgs, ApplyAll, Cut, Join, Everything;
  }

  lemma ApplyOne(t: Table, sel: Selector, word: string)
    ensures ApplyAll(t, sel, [word]) == match SetSelector(t, sel, word) case Err(_) => None case Ok(sel') => Some(sel')
  {
    hide SetSelector;
    assert [word][1..] == [];
  }

  /** One single quote: accepted, and describing the selector fails on unbalanced quotes. */
  lemma QuoteNotReloaded(t: Table)
    requires HasSelect(t)
    ensures SetSelector(t, EMPTY, "+select|'").Ok?
    ensures |SetSelector(t, EMPTY, "+select|'").sel.bits| == BITS
    ensures Reload(t, SetSelector(t, EMPTY, "+select|'").sel) == None
  {
    assert "+select|" + "'" == "+select|'";
    SelectReload(t, "'");
    assert TakePlain("'").BadQuotes?;
    SplitSelect("'", "");
    hide SetSelector, SplitArgs, ApplyAll, Reload;
  }

  lemma DoubleQuoted()
    ensures TakePlain("\"a\"") == Token("a", "") && Lower("\"a\"") == "\"a\"" && Lower("a") == "a"
  {
    var arg := "\"a\"";
    assert arg[1..] == "a\"" && "a\""[1..] == "\"" && "\""[1..] == "";
    assert TakeDouble("\"") == Token("", "");
    assert TakeDouble("a\"") == Token("a", "");
  }

  /** Double quotes around it: accepted with them, rebuilt without them. */
  lemma QuotesLost(t: Table)
    requires HasSelect(t)
    ensures var sel := SetSelector(t, EMPTY, "+select|\"a\"");
            && sel.Ok? && |sel.sel.bits| == BITS && sel.sel.firstArgs == map[t.cmds["select"].id := ["\"a\""]]
            && Reload(t, sel.sel).Some?
            && Reload(t, sel.sel).value.firstArgs == map[t.cmds["select"].id := ["a"]]
            && Reload(t, sel.sel).value.bits == sel.sel.bits
  {
    assert "+select|" + "\"a\"" == "+select|\"a\"" && "+select|" + "a" == "+select|a";
    DoubleQuoted();
    SelectReload(t, "\"a\"");
    SelectReload(t, "a");
    SplitSelect("\"a\"", "a");
    ApplyOne(t, EMPTY, "+select|a");
    hide SetSelector, SplitArgs, ApplyAll, Reload, Lower, TakePlain;
  }

  /** A first argument with a space: the next removal takes its text apart at the space. The text then
      names another first argument than the one that is allowed. */
  lemma SpacedRuleTakenApart(t: Table)
    requires HasSelect(t) && "get" in t.cmds && t.cmds["get"].id != t.cmds["select"].id
    ensures var sel := Run(t, EMPTY, ["+select|a -get", "+get"]);
            && Join(sel.rules) == "+select|a +get"
            && t.cmds["select"].id in sel.firstArgs && sel.firstArgs[t.cmds["select"].id] == ["a -get"]
  {
    SpacedAdded(t);
    hide SetSelector, Join;
    var first := After(t, EMPTY, "+select|a -get");
    GetAdded(t, first);
    RunTwo(t, EMPTY, "+select|a -get", "+get");
  }

  lemma RunTwo(t: Table, sel: Selector, a: string, b: string)
    ensures Run(t, sel, [a, b]) == After(t, After(t, sel, a), b)
  {
    hide After;
    assert [a, b][1..] == [b] && [b][1..] == [];
    assert Run(t, After(t, sel, a), [b]) == After(t, After(t, sel, a), b);
  }

  lemma SpacedAdded(t: Table)
    requires HasSelect(t)
    ensures var sel := After(t, EMPTY, "+select|a -get");
            sel.rules == ["+select|a", "-get"] && sel.firstArgs == map[t.cmds["select"].id := ["a -get"]]
  {
    hide SetSelector, Lower, Cut;
    SpacedName();
    SpacedText();
    SelectArg(t, "a -get");
  }

  lemma SpacedName()
    ensures "+select|" + "a -get" == "+select|a -get" && Lower("a -get") == "a -get" && '|' !in "a -get"
  {
  }

  lemma SpacedText()
    ensures Cut("+select|a -get") == ["+select|a", "-get"]
  {
    var rules := ["+select|a", "-get"];
    assert rules[1..] == ["-get"];
    assert Join(rules) == "+select|a -get";
    hide Join, Cut;
    CutFinds(rules);
  }

  lemma GetResolves(t: Table)
    requires "get" in t.cmds
    ensures Resolve(t, true, "get") == Perm(Ids(Top("get", t.cmds["get"])), {t.cmds["get"].id})
    ensures !IsAll("+get") && !IsNone("+get") && Lower("get") == "get"
  {
    assert Lower("get") == "get" && '|' !in "get" && Lower("+get") == "+get";
    NoBarTop(t, "get");
    LastIndexIsLast("get", '|');
    hide Lookup, LastIndexOf, Lower, CategoryCommands, Ids;
  }

  lemma GetAdded(t: Table, sel: Selector)
    requires "get" in t.cmds && sel.rules == ["+select|a", "-get"]
    ensures var sel' := After(t, sel, "+get");
            Join(sel'.rules) == "+select|a +get" && sel'.firstArgs == sel.firstArgs - {t.cmds["get"].id}
  {
    hide Resolve, Ids, IsAll, IsNone, UpdateRules, Join, After, Lower;
    GetResolves(t);
    GetUpdates();
    GetOp();
    CommandAdded(t, sel, "+get", "get");
  }

  lemma GetOp()
    ensures "+get" != "" && "+get"[0] == '+' && "+get"[1..] == "get"
  {
  }

  lemma CommandAdded(t: Table, sel: Selector, op: string, name: string)
    requires op != "" && op[0] == '+' && op[1..] == name && !IsAll(op) && !IsNone(op) && Resolve(t, true, name).Perm?
    ensures var sel' := After(t, sel, op);
            && sel'.rules == UpdateRules(sel.rules, name, true)
            && sel'.firstArgs == sel.firstArgs - Resolve(t, true, name).resets
  {
    hide Resolve, IsAll, IsNone, UpdateRules, SetBits;
  }

  lemma GetUpdates()
    ensures Join(UpdateRules(["+select|a", "-get"], "get", true)) == "+select|a +get"
  {
    GetReplaced();
    GetText();
    assert Lower("get") == "get";
    hide Filter, Join, Cut, Lower, Sign;
    CutJoins("+select|a +get");
  }

  lemma GetText()
    ensures ("+select|a" + " ") + (Sign(true) + "get") == "+select|a +get"
  {
  }

  lemma GetReplaced()
    ensures Join(Filter(["+select|a", "-get"], "get")) == "+select|a"
  {
    var rules := ["+select|a", "-get"];
    assert rules[1..] == ["-get"] && ["-get"][1..] == [];
    assert "-get"[1..] == "get" && "+select|a"[1] == 's';
    assert Filter(["-get"], "get") == [];
    assert !Matches("+select|a", "get");
    assert Filter(rules, "get") == ["+select|a"];
  }
}
