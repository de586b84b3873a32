/** What each kind of ACL operation allows and denies, read off the command table, and which
    operations are refused. */
module AclMeaning {
  import opened Text
  import opened Sds
  import opened AclRules
  import opened AclSelector

  // ---------- The two operations on everything ----------

  /** `+@all` and `allcommands` allow every command, also those not known yet. */
  lemma AllowsAll(t: Table, sel: Selector, op: string)
    requires Lower(op) == "allcommands" || Lower(op) == "+@all"
    ensures var r := SetSelector(t, sel, op);
            && r.Ok? && |r.sel.bits| == BITS && (forall k :: 0 <= k < BITS ==> r.sel.bits[k]) && r.sel.allCommands
            && r.sel.firstArgs == map[] && r.sel.rules == []
  {
  }

  /** `-@all` and `nocommands` deny every command, also those not known yet. */
  lemma DeniesAll(t: Table, sel: Selector, op: string)
    requires Lower(op) == "nocommands" || Lower(op) == "-@all"
    ensures var r := SetSelector(t, sel, op);
            && r.Ok? && |r.sel.bits| == BITS && (forall k :: 0 <= k < BITS ==> !r.sel.bits[k]) && !r.sel.allCommands
            && r.sel.firstArgs == map[] && r.sel.rules == []
  {
    assert "nocommands"[0] != "allcommands"[0] && "-@all"[0] != "+@all"[0];
    assert "nocommands"[0] != "+@all"[0] && "-@all"[0] != "allcommands"[0];
  }

  // ---------- Bars in names ----------

  lemma LowerKeepsBar(name: string)
    ensures '|' in Lower(name) <==> '|' in name
  {
    if '|' in name {
      var i :| 0 <= i < |name| && name[i] == '|';
      assert Lower(name)[i] == '|';
    }
    if '|' in Lower(name) {
      var i :| 0 <= i < |name| && Lower(name)[i] == '|';
      assert LowerChar(name[i]) == '|';
    }
  }

  lemma {:induction false} LastBar(a: string, b: string)
    requires '|' !in b
    ensures LastIndexOf(a + "|" + b, '|') == |a|
    decreases |b|
  {
    var s := a + "|" + b;
    if b == "" {
      assert s[|a|] == '|' && |s| == |a| + 1;
    } else {
      var init := b[..|b| - 1];
      assert s[|s| - 1] == b[|b| - 1] && s[..|s| - 1] == a + "|" + init;
      LastBar(a, init);
    }
  }

  lemma {:induction false} FirstBar(a: string, b: string)
    requires '|' !in a
    ensures IndexOf(a + "|" + b, '|') == |a|
  {
    var s := a + "|" + b;
    if a != "" {
      assert s[0] == a[0] && s[1..] == a[1..] + "|" + b;
      FirstBar(a[1..], b);
    }
  }

  lemma BarStays(name: string, k: nat)
    requires k < |name| && Lower(name)[k] == '|'
    ensures name[k] == '|'
  {
    assert LowerChar(name[k]) == '|';
  }

  /** A name that reads `p|q` in lower case. */
  lemma Parted(name: string, p: string, q: string)
    requires Lower(name) == p + "|" + q
    ensures |name| == |p| + 1 + |q| && name == name[..|p|] + "|" + name[|p| + 1..]
    ensures Lower(name[..|p|]) == p && Lower(name[|p| + 1..]) == q
  {
    hide Lower;
    var l := p + "|" + q;
    assert l[|p|] == '|' && l[..|p|] == p && l[|p| + 1..] == q;
    assert |Lower(name)| == |name|;
    BarStays(name, |p|);
    LowerParts(name, |p|);
    LowerParts(name, |p| + 1);
    assert name == name[..|p|] + [name[|p|]] + name[|p| + 1..];
  }

  lemma FirstChar(name: string, p: string, q: string)
    requires Lower(name) == p + q && p != ""
    ensures name != "" && (name[0] == '@' <==> p[0] == '@')
  {
    assert LowerChar(name[0]) == p[0];
  }

  lemma BarFacts(name: string, p: string, q: string)
    requires Lower(name) == p + "|" + q && '|' !in q && p != "" && p[0] != '@'
    ensures |p| < |name| && LastIndexOf(name, '|') == |p| && Lower(name[..|p|]) == p && name[0] != '@'
  {
    hide LastIndexOf, Lower;
    Parted(name, p, q);
    assert p + "|" + q == p + ("|" + q);
    FirstChar(name, p, "|" + q);
    LowerKeepsBar(name[|p| + 1..]);
    LastBar(name[..|p|], name[|p| + 1..]);
  }

  lemma CommandFound(t: Table, raw: string, n: string)
    requires n in t.cmds && '|' !in n && Lower(raw) == n
    ensures Lookup(t, raw) == Top(n, t.cmds[n])
  {
    LowerIdempotent(raw);
    NoBarTop(t, n);
    LookupLower(t, raw);
  }

  lemma SubFound(t: Table, name: string, n: string, s: string)
    requires Lower(name) == n + "|" + s && '|' !in n && '|' !in s && n in t.cmds
    ensures Lookup(t, name) == if s in Subs(t.cmds[n]) then SubOf(n, s, Subs(t.cmds[n])[s]) else NotFound
  {
    var l := Lower(name);
    FirstBar(n, s);
    assert l[..|n|] == n && l[|n| + 1..] == s;
    hide IndexOf;
  }

  // ---------- Operations on a name ----------

  /** `op` is a sign and, in any case, `name`. */
  predicate Signs(op: string, name: string) {
    op != "" && (op[0] == '+' || op[0] == '-') && Lower(op[1..]) == name
  }

  lemma NotWhole(op: string, name: string)
    requires Signs(op, name) && name != "@all"
    ensures !IsAll(op) && !IsNone(op)
  {
    assert Lower(op)[0] == op[0] && Lower(op)[1..] == Lower(op[1..]);
    assert "+@all"[1..] == "@all" && "-@all"[1..] == "@all";
  }

  ghost predicate IsSubId(c: Cmd, k: nat) { exists s :: s in Subs(c) && Subs(c)[s].id == k }

  /** The bits are those of before but for the ids, which have the value. */
  ghost predicate Wrote(was: Selector, now: Selector, ids: set<nat>, value: bool) {
    && |now.bits| == |was.bits|
    && forall k :: 0 <= k < |was.bits| ==> now.bits[k] == if k in ids then value else was.bits[k]
  }

  lemma PermWrites(sel: Selector, allow: bool, name: string, ids: set<nat>, resets: set<nat>)
    ensures var r := ApplyTarget(sel, allow, name, Perm(ids, resets));
            && r.Ok? && Wrote(sel, r.sel, ids, allow) && r.sel.firstArgs == sel.firstArgs - resets
            && r.sel.allCommands == (sel.allCommands && (allow || ids == {}))
  {
    hide UpdateRules;
  }

  lemma TopResolves(t: Table, allow: bool, name: string, n: string)
    requires WfTable(t) && n in t.cmds && Lower(name) == n
    ensures Resolve(t, allow, name) == Perm({t.cmds[n].id} + SubIds(t.cmds[n]), {t.cmds[n].id})
  {
    assert n + "" == n;
    FirstChar(name, n, "");
    LowerKeepsBar(name);
    LastIndexIsLast(name, '|');
    CommandFound(t, name, n);
    hide Lookup, LastIndexOf, CategoryCommands, Lower, WfTable;
  }

  /** A command: its bit and those of its subcommands, and its first arguments are forgotten. */
  lemma CommandOperation(t: Table, sel: Selector, op: string, n: string)
    requires WfTable(t) && n in t.cmds && Signs(op, n)
    ensures var r := SetSelector(t, sel, op);
            && r.Ok?
            && Wrote(sel, r.sel, {t.cmds[n].id} + set s | s in Subs(t.cmds[n]) :: Subs(t.cmds[n])[s].id, op[0] == '+')
            && r.sel.allCommands == (sel.allCommands && op[0] == '+')
            && r.sel.firstArgs == sel.firstArgs - {t.cmds[n].id}
  {
    NotWhole(op, n);
    hide Resolve, IsAll, IsNone, UpdateRules, WfTable, Wrote, ApplyTarget, Lower;
    TopResolves(t, op[0] == '+', op[1..], n);
    PermWrites(sel, op[0] == '+', op[1..], {t.cmds[n].id} + SubIds(t.cmds[n]), {t.cmds[n].id});
  }

  lemma CategoryResolves(t: Table, allow: bool, name: string, c: string)
    requires c in t.categories && Lower(name) == "@" + c
    ensures Resolve(t, allow, name).Perm?
    ensures forall id :: id in Resolve(t, allow, name).ids <==> InCategory(t, c, id)
  {
    assert |name| == |c| + 1 && LowerChar(name[0]) == '@';
    LowerParts(name, 1);
    assert Lower(name)[1..] == c;
    hide Lower, Lookup, LastIndexOf;
    var found := CategoryCommands(t, c);
    forall id | InCategory(t, c, id) ensures id in Resolve(t, allow, name).ids {
      if n :| n in t.cmds && c in t.cmds[n].cats && (t.cmds[n].id == id || IsSubId(t.cmds[n], id)) {
        assert Top(n, t.cmds[n]) in found && id in Ids(Top(n, t.cmds[n]));
      } else {
        var n, s :| n in t.cmds && s in Subs(t.cmds[n]) && c in Subs(t.cmds[n])[s].cats && Subs(t.cmds[n])[s].id == id;
        assert SubOf(n, s, Subs(t.cmds[n])[s]) in found && id in Ids(SubOf(n, s, Subs(t.cmds[n])[s]));
      }
    }
  }

  /** The id of a command of the category or of one of its subcommands, or of a subcommand that is
      itself in the category. */
  ghost predicate InCategory(t: Table, c: string, id: nat) {
    || (exists n :: n in t.cmds && c in t.cmds[n].cats && (t.cmds[n].id == id || IsSubId(t.cmds[n], id)))
    || (exists n, s :: n in t.cmds && s in Subs(t.cmds[n]) && c in Subs(t.cmds[n])[s].cats && Subs(t.cmds[n])[s].id == id)
  }

  /** A category: exactly the commands and subcommands in it. */
  lemma CategoryOperation(t: Table, sel: Selector, op: string, c: string)
    requires WfTable(t) && c in t.categories && Signs(op, "@" + c)
    ensures var r := SetSelector(t, sel, op);
            && r.Ok? && |r.sel.bits| == |sel.bits|
            && forall k: nat :: k < |sel.bits| ==> r.sel.bits[k] == if InCategory(t, c, k) then op[0] == '+' else sel.bits[k]
  {
    assert ("@" + c)[1..] == c && "@all"[1..] == "all";
    NotWhole(op, "@" + c);
    hide Resolve, IsAll, IsNone, UpdateRules, InCategory, WfTable, ApplyTarget, Lower;
    CategoryResolves(t, op[0] == '+', op[1..], c);
    var x := Resolve(t, op[0] == '+', op[1..]);
    PermWrites(sel, op[0] == '+', op[1..], x.ids, x.resets);
  }

  lemma SubResolves(t: Table, allow: bool, name: string, n: string, s: string)
    requires WfTable(t) && Lower(name) == n + "|" + s && '|' !in s && s != "" && n in t.cmds && s in Subs(t.cmds[n])
    ensures Resolve(t, allow, name) == Perm({Subs(t.cmds[n])[s].id}, {Subs(t.cmds[n])[s].id})
  {
    assert n != "" && '|' !in n && n[0] != '@';
    hide Lookup, LastIndexOf, CategoryCommands, Lower, WfTable;
    Parted(name, n, s);
    BarFacts(name, n, s);
    CommandFound(t, name[..|n|], n);
    SubFound(t, name, n, s);
    assert name[|n| + 1..] != "";
  }

  /** A subcommand: its own bit only. */
  lemma SubcommandOperation(t: Table, sel: Selector, op: string, n: string, s: string)
    requires WfTable(t) && n in t.cmds && s in Subs(t.cmds[n]) && s != "" && '|' !in s && Signs(op, n + "|" + s)
    ensures var r := SetSelector(t, sel, op);
            && r.Ok? && Wrote(sel, r.sel, {Subs(t.cmds[n])[s].id}, op[0] == '+')
            && r.sel.allCommands == (sel.allCommands && op[0] == '+')
            && r.sel.firstArgs == sel.firstArgs - {Subs(t.cmds[n])[s].id}
  {
    assert (n + "|" + s)[0] == n[0];
    NotWhole(op, n + "|" + s);
    hide Resolve, IsAll, IsNone, UpdateRules, WfTable, Wrote, ApplyTarget, Lower;
    SubResolves(t, op[0] == '+', op[1..], n, s);
    PermWrites(sel, op[0] == '+', op[1..], {Subs(t.cmds[n])[s].id}, {Subs(t.cmds[n])[s].id});
  }

  lemma ArgResolves(t: Table, name: string, n: string, arg: string)
    requires WfTable(t) && n in t.cmds && t.cmds[n].subs.None? && |name| >= |n| + 1
    requires Lower(name[..|n|]) == n && name[|n|..] == "|" + arg && arg != "" && '|' !in arg
    ensures Resolve(t, true, name) == FirstArg(t.cmds[n].id, arg)
  {
    assert n != "" && '|' !in n && n[0] != '@';
    assert name == name[..|n|] + "|" + arg && name[|n| + 1..] == arg;
    assert n + "" == n;
    FirstChar(name[..|n|], n, "");
    hide Lookup, LastIndexOf, CategoryCommands, Lower, WfTable;
    LastBar(name[..|n|], arg);
    CommandFound(t, name[..|n|], n);
  }

  /** A first argument of a command without subcommands: allowed besides those that are, and no bit
      changes. */
  lemma FirstArgOperation(t: Table, sel: Selector, op: string, n: string, arg: string)
    requires WfTable(t) && n in t.cmds && t.cmds[n].subs.None? && |op| >= |n| + 2 && op[0] == '+'
    requires Lower(op[1..][..|n|]) == n && op[1..][|n|..] == "|" + arg && arg != "" && '|' !in arg
    ensures var r := SetSelector(t, sel, op);
            && r.Ok? && r.sel.bits == sel.bits && r.sel.allCommands == sel.allCommands
            && t.cmds[n].id in r.sel.firstArgs && HasArg(r.sel.firstArgs[t.cmds[n].id], arg)
            && (forall k :: k != t.cmds[n].id ==>
                  (k in r.sel.firstArgs <==> k in sel.firstArgs) && (k in sel.firstArgs ==> r.sel.firstArgs[k] == sel.firstArgs[k]))
            && (t.cmds[n].id in sel.firstArgs ==> sel.firstArgs[t.cmds[n].id] <= r.sel.firstArgs[t.cmds[n].id])
  {
    var name := op[1..];
    assert name[|n|] == '|';
    LowerKeepsBar(name);
    NotWhole(op, Lower(name));
    ArgResolves(t, name, n, arg);
    hide Resolve, IsAll, IsNone, UpdateRules, WfTable;
    ArgThere(sel.firstArgs, t.cmds[n].id, arg);
  }

  lemma ArgThere(args: map<nat, seq<string>>, id: nat, arg: string)
    ensures var args' := AddFirstArg(args, id, arg);
            && id in args' && HasArg(args'[id], arg)
            && (id in args ==> args[id] <= args'[id])
            && args' - {id} == args - {id}
  {
    var args' := AddFirstArg(args, id, arg);
    var there := if id in args then args[id] else [];
    if !HasArg(there, arg) { assert args'[id][|there|] == arg; }
  }

  // ---------- Refusals ----------

  /** A name without a bar that no command has, and a category that there is not. */
  lemma UnknownRefused(t: Table, sel: Selector, op: string, name: string)
    requires WfTable(t) && Signs(op, name) && name != "@all"
    requires if name != "" && name[0] == '@' then name[1..] !in t.categories else '|' !in name && name !in t.cmds
    ensures SetSelector(t, sel, op) == Err(ENOENT)
  {
    NotWhole(op, name);
    var raw := op[1..];
    LowerParts(raw, 1);
    LowerFirst(raw);
    LowerKeepsBar(raw);
    LastIndexIsLast(raw, '|');
    if '|' !in name {
      LowerIdempotent(raw);
      NoBarTop(t, name);
      LookupLower(t, raw);
    }
    hide Lookup, LastIndexOf, CategoryCommands, Lower, WfTable, IsAll, IsNone;
  }

  /** A command with a bar and nothing behind it. */
  lemma EmptyArgRefused(t: Table, sel: Selector, op: string, n: string)
    requires WfTable(t) && n in t.cmds && Signs(op, n + "|" + "") && op[0] == '+'
    ensures SetSelector(t, sel, op) == Err(EINVAL)
  {
    assert n != "" && '|' !in n && n[0] != '@' && (n + "|" + "")[0] == n[0];
    NotWhole(op, n + "|" + "");
    hide Lookup, LastIndexOf, CategoryCommands, Lower, IsAll, IsNone, WfTable;
    var name := op[1..];
    Parted(name, n, "");
    BarFacts(name, n, "");
    CommandFound(t, name[..|n|], n);
  }

  /** A first argument of a subcommand. */
  lemma SubArgRefused(t: Table, sel: Selector, op: string, n: string, s: string, arg: string)
    requires WfTable(t) && n in t.cmds && s in Subs(t.cmds[n]) && '|' !in s && '|' !in arg
    requires Signs(op, n + "|" + s + "|" + arg) && op[0] == '+'
    ensures SetSelector(t, sel, op) == Err(ECHILD)
  {
    assert n != "" && '|' !in n && n[0] != '@';
    var (name, parent) := (op[1..], n + "|" + s);
    assert (parent + "|" + arg)[0] == n[0] && parent[0] == n[0];
    NotWhole(op, parent + "|" + arg);
    hide Lookup, LastIndexOf, CategoryCommands, Lower, IsAll, IsNone, WfTable;
    BarFacts(name, parent, arg);
    SubFound(t, name[..|parent|], n, s);
    ChildRefused(t, name, |parent|);
  }

  lemma ChildRefused(t: Table, name: string, k: nat)
    requires k < |name| && LastIndexOf(name, '|') == k && name[0] != '@' && Lookup(t, name[..k]).SubOf?
    ensures Resolve(t, true, name) == Refused(ECHILD)
  {
    hide Lookup, LastIndexOf, CategoryCommands, Lower;
  }

  /** A first argument cannot be taken away alone. */
  lemma DenyArgRefused(t: Table, sel: Selector, op: string, n: string, arg: string)
    requires WfTable(t) && n in t.cmds && t.cmds[n].subs.None? && '|' !in arg
    requires Signs(op, n + "|" + arg) && op[0] == '-'
    ensures SetSelector(t, sel, op) == Err(ENOENT)
  {
    assert n != "" && '|' !in n && n[0] != '@' && (n + "|" + arg)[0] == n[0];
    NotWhole(op, n + "|" + arg);
    hide Lookup, LastIndexOf, CategoryCommands, Lower, IsAll, IsNone, WfTable;
    assert n + "|" + arg == n + ("|" + arg);
    FirstChar(op[1..], n, "|" + arg);
    SubFound(t, op[1..], n, arg);
  }

  // ---------- The rules that stay ----------

  /** The rule is about the name, or a subcommand or first argument of it. */
  predicate About(rule: string, name: string) {
    rule != "" && (rule[1..] == name || name + "|" <= rule[1..])
  }

  lemma AboutIsMatching(rule: string, name: string)
    ensures About(rule, name) <==> Matches(rule, name)
  {
    if rule != "" {
      var r := rule[1..];
      if |r| > |name| {
        assert rule[|name| + 1] == r[|name|];
        assert name + "|" <= r <==> r[..|name|] == name && r[|name|] == '|' by {
          assert r[..|name| + 1] == r[..|name|] + [r[|name|]];
          assert (name + "|")[..|name|] == name && (name + "|")[|name|] == '|';
        }
      }
    }
  }

  lemma {:induction false} FilterHas(rules: seq<string>, name: string, rule: string)
    ensures rule in Filter(rules, name) <==> rule in rules && !Matches(rule, name)
  {
    hide Matches;
    if rules != [] {
      FilterHas(rules[1..], name, rule);
      assert rule in rules <==> rule == rules[0] || rule in rules[1..];
    }
  }

  /** After an accepted operation on a name the text holds exactly the earlier rules that are not about
      that name, and the operation itself in lower case at the end. */
  lemma RulesThatStay(t: Table, sel: Selector, op: string, rule: string)
    requires RuleTexts(sel.rules) && Spaceless(op) && SetSelector(t, sel, op).Ok? && !IsAll(op) && !IsNone(op)
    ensures op != ""
    ensures var rules := SetSelector(t, sel, op).sel.rules;
            && rules != [] && rules[|rules| - 1] == [op[0]] + Lower(op[1..])
            && (rule in rules[..|rules| - 1] <==> rule in sel.rules && !About(rule, Lower(op[1..])))
  {
    var name := op[1..];
    assert Spaceless(name) && Sign(op[0] == '+') == [op[0]];
    UpdateSpaceless(sel.rules, name, op[0] == '+');
    FilterHas(sel.rules, Lower(name), rule);
    AboutIsMatching(rule, Lower(name));
    hide Resolve, UpdateRules, Filter, Matches, About, Lower;
    var kept := Filter(sel.rules, Lower(name));
    assert (kept + [[op[0]] + Lower(name)])[..|kept|] == kept;
  }

  /** First arguments are kept once up to case. */
  predicate OnceUpToCase(args: seq<string>) {
    forall i, j :: 0 <= i < j < |args| ==> Lower(args[i]) != Lower(args[j])
  }

  lemma ArgsStayDistinct(args: map<nat, seq<string>>, id: nat, arg: string)
    requires forall k :: k in args ==> OnceUpToCase(args[k])
    ensures var args' := AddFirstArg(args, id, arg); forall k :: k in args' ==> OnceUpToCase(args'[k])
  {
    hide Lower;
  }
}
