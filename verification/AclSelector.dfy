/** Command permissions of an ACL selector (acl.c): every accepted rule changes a bitmap and
    a table of allowed first arguments, and is kept in an ordered list of rules. Applied again
    in order, the kept rules always regenerate the permissions. */
module AclSelector {
  import opened Text
  import opened Sds
  import opened AclRules

  /** USER_COMMAND_BITS_COUNT. The last bit stands for commands not known yet. */
  const BITS := 1024

  // ---------- The command table ----------

  datatype Sub = Sub(id: nat, cats: set<string>)

  datatype Cmd = Cmd(id: nat, cats: set<string>, subs: Option<map<string, Sub>>)

  /** `server.orig_commands`, keyed by lower-case names, and the category names. */
  datatype Table = Table(cmds: map<string, Cmd>, categories: set<string>)

  function Subs(c: Cmd): map<string, Sub> {
    if c.subs.Some? then c.subs.value else map[]
  }

  /** Ids lie below the reserved bit, and no subcommand shares its id with a command. Names are
      not empty, have no spaces and do not look like a category; `all` is not the name of a category. */
  ghost predicate WfTable(t: Table) {
    && (forall n :: n in t.cmds ==> n != "" && '|' !in n && n[0] != '@' && t.cmds[n].id < BITS - 1)
    && (forall c :: c in t.categories ==> '|' !in c && c != "all")
    && (forall n, s :: n in t.cmds && s in Subs(t.cmds[n]) ==> Subs(t.cmds[n])[s].id < BITS - 1)
    && (forall a, b, s :: a in t.cmds && b in t.cmds && s in Subs(t.cmds[b]) ==> t.cmds[a].id != Subs(t.cmds[b])[s].id)
    && NamesSpaceless(t)
  }

  /** What `isCommandNameValid` asks of names, as far as spaces go. */
  ghost predicate NamesSpaceless(t: Table) {
    && (forall n :: n in t.cmds ==> ' ' !in n)
    && (forall c :: c in t.categories ==> ' ' !in c)
    && (forall n, s :: n in t.cmds && s in Subs(t.cmds[n]) ==> ' ' !in s)
  }

  datatype Found = NotFound | Top(name: string, cmd: Cmd) | SubOf(parent: string, name: string, sub: Sub)

  function IndexOf(s: string, c: char): (i: nat)
    ensures i <= |s| && (i < |s| ==> s[i] == c) && c !in s[..i]
  {
    if s == "" || s[0] == c then 0
    else
      assert s == [s[0]] + s[1..];
      1 + IndexOf(s[1..], c)
  }

  /** `strrchr`: the last position of `c`, or -1. */
  function LastIndexOf(s: string, c: char): (i: int)
    ensures -1 <= i < |s| && (i >= 0 ==> s[i] == c)
  {
    if s == "" then -1
    else if s[|s| - 1] == c then |s| - 1
    else LastIndexOf(s[..|s| - 1], c)
  }

  lemma {:induction false} LastIndexIsLast(s: string, c: char)
    ensures LastIndexOf(s, c) == -1 <==> c !in s
    ensures forall k :: LastIndexOf(s, c) < k < |s| ==> s[k] != c
  {
    if s != "" {
      var init := s[..|s| - 1];
      LastIndexIsLast(init, c);
      assert s == init + [s[|s| - 1]];
    }
  }

  /** `ACLLookupCommand`: a command, or `command|subcommand`, in any case. */
  function Lookup(t: Table, name: string): Found {
    var n := Lower(name);
    var i := IndexOf(n, '|');
    if i == |n| then (if n in t.cmds then Top(n, t.cmds[n]) else NotFound)
    else
      var (parent, sub) := (n[..i], n[i + 1..]);
      if '|' !in sub && parent in t.cmds && sub in Subs(t.cmds[parent])
      then SubOf(parent, sub, Subs(t.cmds[parent])[sub])
      else NotFound
  }

  function SubIds(c: Cmd): set<nat> {
    set s | s in Subs(c) :: Subs(c)[s].id
  }

  /** The bits `ACLChangeSelectorPerm` sets. */
  function Ids(f: Found): set<nat> {
    match f
    case NotFound => {}
    case Top(_, c) => {c.id} + SubIds(c)
    case SubOf(_, _, s) => {s.id}
  }

  /** The ids whose first arguments it forgets. */
  function Resets(f: Found): set<nat> {
    match f
    case NotFound => {}
    case Top(_, c) => {c.id}
    case SubOf(_, _, s) => {s.id}
  }

  /** What `ACLSetSelectorCommandBitsForCategory` reaches, commands and subcommands. */
  function CategoryCommands(t: Table, cat: string): set<Found> {
    (set n | n in t.cmds && cat in t.cmds[n].cats :: Top(n, t.cmds[n]))
    + (set n, s | n in t.cmds && s in Subs(t.cmds[n]) && cat in Subs(t.cmds[n])[s].cats
       :: SubOf(n, s, Subs(t.cmds[n])[s]))
  }

  // ---------- The selector ----------

  /** `rules` are the rules that the text is cut into. */
  datatype Selector = Selector(bits: seq<bool>, allCommands: bool, firstArgs: map<nat, seq<string>>, rules: seq<string>)

  const EMPTY := Selector(seq(BITS, _ => false), false, map[], [])

  datatype Errno = ENOENT | EINVAL | ECHILD

  datatype Result = Ok(sel: Selector) | Err(errno: Errno)

  datatype Target = Refused(errno: Errno) | Perm(ids: set<nat>, resets: set<nat>) | FirstArg(id: nat, arg: string)

  /** What the text behind a `+` or `-` stands for, in the order the branches of
      `ACLSetSelector` decide it. */
  function Resolve(t: Table, allow: bool, name: string): Target {
    if name != "" && name[0] == '@' then
      var cat := Lower(name[1..]);
      if cat in t.categories then
        Perm(set f, id | f in CategoryCommands(t, cat) && id in Ids(f) :: id,
             set f, id | f in CategoryCommands(t, cat) && id in Resets(f) :: id)
      else Refused(ENOENT)
    else if allow && LastIndexOf(name, '|') >= 0 then
      var i := LastIndexOf(name, '|');
      match Lookup(t, name[..i])
      case NotFound => Refused(ENOENT)
      case SubOf(_, _, _) => Refused(ECHILD)
      case Top(_, c) =>
        if name[i + 1..] == "" then Refused(EINVAL)
        else if c.subs.Some? then Found2Target(Lookup(t, name))
        else FirstArg(c.id, name[i + 1..])
    else Found2Target(Lookup(t, name))
  }

  function Found2Target(f: Found): Target {
    if f.NotFound? then Refused(ENOENT) else Perm(Ids(f), Resets(f))
  }

  function SetBits(bits: seq<bool>, ids: set<nat>, value: bool): (r: seq<bool>)
    ensures |r| == |bits| && forall k :: 0 <= k < |bits| ==> r[k] == if k in ids then value else bits[k]
  {
    seq(|bits|, k requires 0 <= k < |bits| => if k in ids then value else bits[k])
  }

  /** `ACLAddAllowedFirstArg`: unless it is there already, in any case. */
  function AddFirstArg(args: map<nat, seq<string>>, id: nat, arg: string): map<nat, seq<string>> {
    var there := if id in args then args[id] else [];
    if HasArg(there, arg) then args else args[id := there + [arg]]
  }

  predicate HasArg(there: seq<string>, arg: string) {
    exists i :: 0 <= i < |there| && Lower(there[i]) == Lower(arg)
  }

  function Sign(allow: bool): string { if allow then "+" else "-" }

  /** `ACLUpdateCommandRules`, on the text: the rules that go, and the new one behind a space. */
  function UpdateText(rules: seq<string>, name: string, allow: bool): string {
    var kept := Join(Filter(rules, Lower(name)));
    (if kept == "" then "" else kept + " ") + (Sign(allow) + Lower(name))
  }

  /** The rules of the new text. A name with spaces is cut into several. */
  function UpdateRules(rules: seq<string>, name: string, allow: bool): seq<string> {
    Cut(UpdateText(rules, name, allow))
  }

  /** Without spaces the rules are the old ones that stay, and the new one. */
  lemma UpdateSpaceless(rules: seq<string>, name: string, allow: bool)
    requires RuleTexts(rules) && Spaceless(name)
    ensures UpdateRules(rules, name, allow) == Filter(rules, Lower(name)) + [Sign(allow) + Lower(name)]
  {
    hide Filter, Cut, Join;
    var (kept, rule) := (Filter(rules, Lower(name)), Sign(allow) + Lower(name));
    FilterIn(rules, Lower(name));
    assert RuleTexts(kept);
    assert Spaceless(rule) by { assert forall i :: 0 <= i < |name| ==> rule[i + 1] == LowerChar(name[i]); SpacelessChars(name, rule); }
    JoinMore(kept, rule);
    CutFinds(kept + [rule]);
  }

  lemma SpacelessChars(name: string, rule: string)
    requires Spaceless(name) && |rule| == |name| + 1 && rule[0] != ' ' && rule[0] != '\0'
    requires forall i :: 0 <= i < |name| ==> rule[i + 1] == LowerChar(name[i])
    ensures Spaceless(rule)
  {
    forall k | 0 <= k < |rule| ensures rule[k] != ' ' && rule[k] != '\0' {
      if k > 0 { assert rule[k] == rule[(k - 1) + 1] == LowerChar(name[k - 1]); }
    }
  }

  predicate IsAll(op: string) { Lower(op) == "allcommands" || Lower(op) == "+@all" }

  predicate IsNone(op: string) { Lower(op) == "nocommands" || Lower(op) == "-@all" }

  function Everything(value: bool): Selector {
    Selector(seq(BITS, _ => value), value, map[], [])
  }

  /** Allowing or denying what a name resolved to, and keeping the rule. */
  function ApplyTarget(sel: Selector, allow: bool, name: string, target: Target): Result {
    match target
    case Refused(errno) => Err(errno)
    case Perm(ids, resets) =>
      Ok(Selector(SetBits(sel.bits, ids, allow), sel.allCommands && (allow || ids == {}),
                  sel.firstArgs - resets, UpdateRules(sel.rules, name, allow)))
    case FirstArg(id, arg) =>
      Ok(sel.(firstArgs := AddFirstArg(sel.firstArgs, id, arg), rules := UpdateRules(sel.rules, name, allow)))
  }

  /** The command branches of `ACLSetSelector`. */
  function SetSelector(t: Table, sel: Selector, op: string): Result {
    if IsAll(op) then Ok(Everything(true))
    else if IsNone(op) then Ok(Everything(false))
    else if op != "" && (op[0] == '+' || op[0] == '-') then
      ApplyTarget(sel, op[0] == '+', op[1..], Resolve(t, op[0] == '+', op[1..]))
    else Err(EINVAL)
  }

  // ---------- Permissions and effects ----------

  /** What a selector allows: the bitmap, and first arguments up to case. */
  datatype Permissions = Permissions(bits: seq<bool>, args: set<(nat, string)>)

  function PermissionsOf(sel: Selector): Permissions {
    Permissions(sel.bits, set id, i | id in sel.firstArgs && 0 <= i < |sel.firstArgs[id]| :: (id, Lower(sel.firstArgs[id][i])))
  }

  datatype Effect = Write(ids: set<nat>, value: bool) | AddArg(id: nat, arg: string)

  function Act(p: Permissions, e: Effect): Permissions {
    match e
    case Write(ids, value) => Permissions(SetBits(p.bits, ids, value), set a | a in p.args && a.0 !in ids)
    case AddArg(id, arg) => p.(args := p.args + {(id, arg)})
  }

  /** The effect of a rule as kept in the text. */
  function EffectOf(t: Table, rule: string): Option<Effect> {
    if rule == "" || (rule[0] != '+' && rule[0] != '-') then None
    else
      match Resolve(t, rule[0] == '+', rule[1..])
      case Refused(_) => None
      case Perm(ids, _) => Some(Write(ids, rule[0] == '+'))
      case FirstArg(id, arg) => Some(AddArg(id, arg))
  }

  ghost predicate Effective(t: Table, rules: seq<string>) {
    forall i :: 0 <= i < |rules| ==> EffectOf(t, rules[i]).Some?
  }

  function Replay(t: Table, rules: seq<string>, p: Permissions): Permissions
    requires Effective(t, rules)
  {
    if rules == [] then p
    else Act(Replay(t, rules[..|rules| - 1], p), EffectOf(t, rules[|rules| - 1]).value)
  }

  // ---------- Dropping a replaced rule changes nothing ----------

  /** `e` makes the two the same. */
  ghost predicate SameUnder(e: Effect, p: Permissions, q: Permissions) {
    && |p.bits| == |q.bits|
    && match e
       case Write(ids, _) =>
         && (forall k :: 0 <= k < |p.bits| && k !in ids ==> p.bits[k] == q.bits[k])
         && (forall a: (nat, string) :: a.0 !in ids ==> (a in p.args <==> a in q.args))
       case AddArg(id, arg) =>
         && p.bits == q.bits
         && (forall a: (nat, string) :: a != (id, arg) ==> (a in p.args <==> a in q.args))
  }

  lemma SameUnderActs(e: Effect, p: Permissions, q: Permissions)
    requires SameUnder(e, p, q)
    ensures Act(p, e) == Act(q, e)
  {
    match e
    case Write(ids, _) =>
      assert Act(p, e).args == Act(q, e).args;
    case AddArg(id, arg) =>
      assert p.args + {(id, arg)} == q.args + {(id, arg)};
  }

  lemma SameUnderStays(e: Effect, d: Effect, p: Permissions, q: Permissions)
    requires SameUnder(e, p, q)
    ensures SameUnder(e, Act(p, d), Act(q, d))
  {
  }

  /** Whatever `d` does, `e` does over. */
  predicate Covers(e: Effect, d: Effect) {
    match d
    case Write(ids, _) => e.Write? && ids <= e.ids
    case AddArg(id, arg) => (e.Write? && id in e.ids) || e == d
  }

  lemma CoveredIsSame(e: Effect, d: Effect, p: Permissions)
    requires Covers(e, d)
    ensures SameUnder(e, Act(p, d), p)
  {
  }

  lemma {:induction false} FilterMore(rules: seq<string>, r: string, name: string)
    ensures Filter(rules + [r], name) == Filter(rules, name) + if Matches(r, name) then [] else [r]
  {
    hide Matches;
    if rules == [] {
      assert rules + [r] == [r] && [r][1..] == [];
    } else {
      assert (rules + [r])[1..] == rules[1..] + [r];
      FilterMore(rules[1..], r, name);
    }
  }

  lemma {:induction false} FilterIn(rules: seq<string>, name: string)
    ensures forall i :: 0 <= i < |Filter(rules, name)| ==>
              Filter(rules, name)[i] in rules && !Matches(Filter(rules, name)[i], name)
  {
    hide Matches;
    if rules != [] { FilterIn(rules[1..], name); }
  }

  /** Replaying with or without the rules that `rule` replaces: the same once `rule` is replayed. */
  lemma {:induction false} FilterReplays(t: Table, rules: seq<string>, rule: string, p: Permissions)
    requires Effective(t, rules) && rule != "" && EffectOf(t, rule).Some?
    requires forall i :: 0 <= i < |rules| && Matches(rules[i], rule[1..]) ==>
               Covers(EffectOf(t, rule).value, EffectOf(t, rules[i]).value)
    ensures Effective(t, Filter(rules, rule[1..]))
    ensures SameUnder(EffectOf(t, rule).value, Replay(t, rules, p), Replay(t, Filter(rules, rule[1..]), p))
  {
    hide Matches, EffectOf, Act, Covers;
    FilterIn(rules, rule[1..]);
    var e := EffectOf(t, rule).value;
    if rules == [] {
      SameUnderReflexive(e, p);
    } else {
      var init, last := rules[..|rules| - 1], rules[|rules| - 1];
      assert rules == init + [last];
      FilterMore(init, last, rule[1..]);
      FilterIn(init, rule[1..]);
      FilterReplays(t, init, rule, p);
      var kept := Filter(init, rule[1..]);
      var d := EffectOf(t, last).value;
      var (full, part) := (Replay(t, init, p), Replay(t, kept, p));
      hide SameUnder;
      if Matches(last, rule[1..]) {
        CoveredIsSame(e, d, full);
        SameUnderTransitive(e, Act(full, d), full, part);
        assert kept + [] == kept;
      } else {
        SameUnderStays(e, d, full, part);
        assert (kept + [last])[..|kept|] == kept;
      }
    }
  }

  lemma SameUnderReflexive(e: Effect, p: Permissions)
    ensures SameUnder(e, p, p)
  {
  }

  lemma SameUnderTransitive(e: Effect, p: Permissions, q: Permissions, r: Permissions)
    requires SameUnder(e, p, q) && SameUnder(e, q, r)
    ensures SameUnder(e, p, r)
  {
  }

  // ---------- Case ----------

  function LowerTarget(x: Target): Target {
    if x.FirstArg? then FirstArg(x.id, Lower(x.arg)) else x
  }

  lemma {:induction false} LowerBars(name: string)
    ensures LastIndexOf(Lower(name), '|') == LastIndexOf(name, '|')
  {
    if name != "" {
      var init := name[..|name| - 1];
      assert Lower(name)[..|name| - 1] == Lower(init);
      LowerBars(init);
    }
  }

  /** A rule kept in lower case stands for what the operation stood for. */
  lemma ResolveLower(t: Table, allow: bool, name: string)
    ensures Resolve(t, allow, Lower(name)) == LowerTarget(Resolve(t, allow, name))
  {
    hide Lookup, CategoryCommands, Ids, Resets, Lower, LastIndexOf;
    LookupLower(t, name);
    LowerBars(name);
    LowerFirst(name);
    assert |Lower(name)| == |name|;
    LowerParts(name, 1);
    if LastIndexOf(name, '|') >= 0 {
      var i := LastIndexOf(name, '|');
      LowerParts(name, i);
      LowerParts(name, i + 1);
      LookupLower(t, name[..i]);
    }
  }

  lemma LowerFirst(name: string)
    ensures name != "" ==> (Lower(name)[0] == '@' <==> name[0] == '@')
  {
  }

  lemma LowerParts(name: string, i: nat)
    ensures i <= |name| ==> Lower(name)[..i] == Lower(name[..i]) && Lower(name)[i..] == Lower(name[i..])
    ensures i <= |name| ==> Lower(Lower(name[i..])) == Lower(name[i..])
  {
    if i <= |name| { LowerIdempotent(name[i..]); }
  }

  lemma LookupLower(t: Table, name: string)
    ensures Lookup(t, Lower(name)) == Lookup(t, name)
  {
    LowerIdempotent(name);
  }

  // ---------- Rules that replace each other ----------

  predicate Canonical(rule: string) {
    rule != "" && (rule[0] == '+' || rule[0] == '-') && Lower(rule[1..]) == rule[1..] && RuleText(rule)
  }

  /** A name with one bar leads to the command before it. */
  lemma OneBar(t: Table, name: string, k: nat)
    requires WfTable(t) && Lower(name) == name && k < |name| && name[k] == '|'
    ensures Lookup(t, name).SubOf? ==>
              && Lookup(t, name[..k]).Top? && name[..k] in t.cmds
              && Lookup(t, name[..k]).cmd == t.cmds[name[..k]]
              && Ids(Lookup(t, name)) <= SubIds(t.cmds[name[..k]]) && t.cmds[name[..k]].subs.Some?
              && LastIndexOf(name, '|') == k
    ensures !Lookup(t, name).Top?
  {
    var i := IndexOf(name, '|');
    assert forall j :: 0 <= j < i ==> name[j] == name[..i][j];
    assert i <= k;
    if Lookup(t, name).SubOf? {
      assert forall j :: i < j < |name| ==> name[j] == name[i + 1..][j - i - 1];
      assert i == k;
      var parent := name[..k];
      LowerPrefix(name, k);
      assert IndexOf(parent, '|') == k;
      LastIndexIsLast(name, '|');
    }
  }

  lemma LowerPrefix(name: string, k: nat)
    requires Lower(name) == name && k <= |name|
    ensures Lower(name[..k]) == name[..k] && Lower(name[k..]) == name[k..]
  {
    assert forall i :: 0 <= i < |name| ==> LowerChar(name[i]) == name[i];
  }

  lemma NoBarTop(t: Table, name: string)
    requires '|' !in name && Lower(name) == name
    ensures Lookup(t, name) == if name in t.cmds then Top(name, t.cmds[name]) else NotFound
  {
  }

  /** What resolves as a whole command, a subcommand or a first argument. */
  lemma ResolveShape(t: Table, allow: bool, name: string)
    requires WfTable(t) && Lower(name) == name && name != "" && name[0] != '@'
    requires !Resolve(t, allow, name).Refused?
    ensures '|' !in name ==> name in t.cmds && Resolve(t, allow, name).Perm?
                             && Resolve(t, allow, name).ids == Ids(Top(name, t.cmds[name]))
    ensures '|' in name ==>
              var k := LastIndexOf(name, '|');
              && k >= 0 && name[..k] in t.cmds && '|' !in name[..k]
              && match Resolve(t, allow, name)
                 case Perm(ids, _) => t.cmds[name[..k]].subs.Some? && ids == Ids(Lookup(t, name)) && ids <= SubIds(t.cmds[name[..k]])
                 case FirstArg(id, arg) =>
                   t.cmds[name[..k]].subs.None? && id == t.cmds[name[..k]].id && allow && arg == name[k + 1..]
                 case Refused(_) => true
  {
    LastIndexIsLast(name, '|');
    if '|' !in name {
      NoBarTop(t, name);
    } else {
      var k := LastIndexOf(name, '|');
      OneBar(t, name, k);
      LowerPrefix(name, k);
      hide Lookup, Ids, SubIds, Subs;
      if allow {
        TopHasNoBar(t, name[..k]);
      } else {
        TopHasNoBar(t, name[..k]);
      }
    }
  }

  lemma TopHasNoBar(t: Table, name: string)
    requires WfTable(t) && Lower(name) == name
    ensures Lookup(t, name).Top? ==> '|' !in name && name in t.cmds && Lookup(t, name) == Top(name, t.cmds[name])
  {
    var i := IndexOf(name, '|');
    assert i == |name| ==> name[..i] == name;
  }

  /** A rule that the new one replaces has no effect that the new one does not write over. */
  lemma ReplacedIsCovered(t: Table, rule: string, older: string)
    requires WfTable(t) && Canonical(rule) && Canonical(older)
    requires EffectOf(t, rule).Some? && EffectOf(t, older).Some? && Matches(older, rule[1..])
    ensures Covers(EffectOf(t, rule).value, EffectOf(t, older).value)
  {
    var (n, m) := (rule[1..], older[1..]);
    if n == "" {
      EmptyRefused(t, rule[0] == '+');
    } else if n[0] == '@' {
      CategoryRules(t, rule, older);
    } else if m == n {
      SameName(t, n, rule[0] == '+', older[0] == '+');
    } else {
      ChildName(t, rule, older);
    }
  }

  lemma EmptyRefused(t: Table, allow: bool)
    requires WfTable(t)
    ensures Resolve(t, allow, "").Refused?
  {
    assert Lower("") == "";
  }

  lemma CategoryRules(t: Table, rule: string, older: string)
    requires WfTable(t) && Canonical(rule) && Canonical(older)
    requires EffectOf(t, rule).Some? && EffectOf(t, older).Some? && Matches(older, rule[1..])
    requires |rule| > 1 && rule[1] == '@'
    ensures Covers(EffectOf(t, rule).value, EffectOf(t, older).value)
  {
    hide CategoryCommands, Ids, Resets;
    var (n, m) := (rule[1..], older[1..]);
    assert m[0] == m[..|n|][0] == '@';
    LowerPrefix(m, 1);
    assert Lower(m[1..]) == m[1..];
    assert m[1..] in t.categories && '|' !in m[1..];
    assert forall k :: 1 <= k < |m| ==> m[k] == m[1..][k - 1];
  }

  lemma SameName(t: Table, n: string, allow: bool, allowed: bool)
    requires WfTable(t) && Lower(n) == n && n != "" && n[0] != '@'
    requires !Resolve(t, allow, n).Refused? && !Resolve(t, allowed, n).Refused?
    ensures Resolve(t, allow, n).Perm? <==> Resolve(t, allowed, n).Perm?
    ensures Resolve(t, allow, n).Perm? ==> Resolve(t, allow, n).ids == Resolve(t, allowed, n).ids
    ensures Resolve(t, allow, n).FirstArg? ==> Resolve(t, allow, n) == Resolve(t, allowed, n)
  {
    ResolveShape(t, allow, n);
    ResolveShape(t, allowed, n);
    hide Resolve, Lookup, Ids;
  }

  lemma ChildName(t: Table, rule: string, older: string)
    requires WfTable(t) && Canonical(rule) && Canonical(older)
    requires EffectOf(t, rule).Some? && EffectOf(t, older).Some?
    requires Matches(older, rule[1..]) && older[1..] != rule[1..] && |rule| > 1 && rule[1] != '@'
    ensures Covers(EffectOf(t, rule).value, EffectOf(t, older).value)
  {
    var (n, m) := (rule[1..], older[1..]);
    assert m[..|n|] == n && m[|n|] == '|' && m[0] == n[0];
    ResolveShape(t, rule[0] == '+', n);
    ResolveShape(t, older[0] == '+', m);
    var k := LastIndexOf(m, '|');
    LastIndexIsLast(m, '|');
    assert forall j :: 0 <= j < k ==> m[j] == m[..k][j];
    assert k == |n|;
    assert n == m[..k];
    hide Resolve, Lookup;
  }

  // ---------- The selector's invariant ----------

  /** No later rule replaces an earlier one. */
  ghost predicate NoneReplaced(rules: seq<string>) {
    forall i, j :: 0 <= i < j < |rules| && rules[j] != "" ==> !Matches(rules[i], rules[j][1..])
  }

  /** First arguments belong to commands without subcommands. */
  ghost predicate ArgsOfTop(t: Table, sel: Selector) {
    forall id :: id in sel.firstArgs ==> TopId(t, id)
  }

  ghost predicate TopId(t: Table, id: nat) {
    exists n :: n in t.cmds && t.cmds[n].id == id
  }

  ghost predicate RulesOk(t: Table, rules: seq<string>) {
    && (forall i :: 0 <= i < |rules| ==> Canonical(rules[i]))
    && Effective(t, rules) && NoneReplaced(rules)
  }

  /** The rules, replayed from the `@all` that the reserved bit remembers, give exactly the
      selector's permissions. */
  ghost predicate SelInv(t: Table, sel: Selector) {
    && |sel.bits| == BITS && ArgsOfTop(t, sel) && RulesOk(t, sel.rules)
    && PermissionsOf(sel) == Replay(t, sel.rules, PermissionsOf(Everything(sel.bits[BITS - 1])))
  }

  /** For a command that can have first arguments, being set and being reset go together. */
  lemma TopReset(t: Table, allow: bool, name: string, id: nat)
    requires WfTable(t) && TopId(t, id) && Resolve(t, allow, name).Perm?
    ensures id in Resolve(t, allow, name).ids <==> id in Resolve(t, allow, name).resets
  {
    var top :| top in t.cmds && t.cmds[top].id == id;
    if name != "" && name[0] == '@' {
      var cat := Lower(name[1..]);
      forall f | f in CategoryCommands(t, cat) ensures id in Ids(f) <==> id in Resets(f) {
        FoundReset(t, top, f);
      }
    } else {
      LookupKnown(t, name);
      FoundReset(t, top, Lookup(t, name));
    }
  }

  ghost predicate Known(t: Table, f: Found) {
    match f
    case NotFound => true
    case Top(n, c) => n in t.cmds && t.cmds[n] == c
    case SubOf(n, s, sub) => n in t.cmds && s in Subs(t.cmds[n]) && Subs(t.cmds[n])[s] == sub
  }

  lemma LookupKnown(t: Table, name: string)
    ensures Known(t, Lookup(t, name))
  {
  }

  lemma FoundReset(t: Table, top: string, f: Found)
    requires WfTable(t) && top in t.cmds && Known(t, f)
    ensures t.cmds[top].id in Ids(f) <==> t.cmds[top].id in Resets(f)
  {
  }

  lemma IdsBelow(t: Table, f: Found)
    requires WfTable(t) && Known(t, f)
    ensures BITS - 1 !in Ids(f)
  {
  }

  /** The reserved bit is out of every rule's reach. */
  lemma ReservedBitKept(t: Table, rule: string)
    requires WfTable(t) && EffectOf(t, rule).Some? && EffectOf(t, rule).value.Write?
    ensures BITS - 1 !in EffectOf(t, rule).value.ids
  {
    var name := rule[1..];
    if name != "" && name[0] == '@' {
      var cat := Lower(name[1..]);
      forall f | f in CategoryCommands(t, cat) ensures BITS - 1 !in Ids(f) { IdsBelow(t, f); }
    } else {
      LookupKnown(t, name);
      IdsBelow(t, Lookup(t, name));
    }
  }

  /** One accepted operation acts on the permissions as the rule it leaves in the text. */
  lemma OperationActs(t: Table, sel: Selector, op: string)
    requires WfTable(t) && ArgsOfTop(t, sel) && RuleTexts(sel.rules) && Spaceless(op)
    requires !IsAll(op) && !IsNone(op) && SetSelector(t, sel, op).Ok?
    ensures op != "" && (op[0] == '+' || op[0] == '-')
    ensures var rule := [op[0]] + Lower(op[1..]);
            var sel' := SetSelector(t, sel, op).sel;
            && EffectOf(t, rule).Some?
            && PermissionsOf(sel') == Act(PermissionsOf(sel), EffectOf(t, rule).value)
            && sel'.rules == Filter(sel.rules, rule[1..]) + [rule]
            && ArgsOfTop(t, sel')
  {
    var (allow, name) := (op[0] == '+', op[1..]);
    var rule := [op[0]] + Lower(name);
    assert rule[1..] == Lower(name) && Sign(allow) == [op[0]];
    ResolveLower(t, allow, name);
    UpdateSpaceless(sel.rules, name, allow);
    hide UpdateRules;
    var sel' := SetSelector(t, sel, op).sel;
    match Resolve(t, allow, name) {
      case Refused(_) =>
      case Perm(ids, resets) => PermActs(t, sel, allow, name);
      case FirstArg(id, arg) =>
        FirstArgOfTop(t, allow, name);
        hide Resolve, Filter;
        AddArgActs(sel, id, arg);
    }
  }

  lemma PermActs(t: Table, sel: Selector, allow: bool, name: string)
    requires WfTable(t) && ArgsOfTop(t, sel) && Resolve(t, allow, name).Perm?
    ensures var x := Resolve(t, allow, name);
            PermissionsOf(sel.(bits := SetBits(sel.bits, x.ids, allow), firstArgs := sel.firstArgs - x.resets))
            == Act(PermissionsOf(sel), Write(x.ids, allow))
  {
    var x := Resolve(t, allow, name);
    forall id | id in sel.firstArgs ensures id in x.ids <==> id in x.resets { TopReset(t, allow, name, id); }
    hide Resolve;
    var sel' := sel.(bits := SetBits(sel.bits, x.ids, allow), firstArgs := sel.firstArgs - x.resets);
    var (p, q) := (PermissionsOf(sel).args, PermissionsOf(sel').args);
    forall a | a in p && a.0 !in x.ids ensures a in q {
      var k, i :| k in sel.firstArgs && 0 <= i < |sel.firstArgs[k]| && a == (k, Lower(sel.firstArgs[k][i]));
      assert k in sel'.firstArgs && sel'.firstArgs[k][i] == sel.firstArgs[k][i];
    }
    forall a | a in q ensures a in p && a.0 !in x.ids {
      var k, i :| k in sel'.firstArgs && 0 <= i < |sel'.firstArgs[k]| && a == (k, Lower(sel'.firstArgs[k][i]));
      assert k in sel.firstArgs && sel.firstArgs[k][i] == sel'.firstArgs[k][i];
    }
    assert q == set a | a in p && a.0 !in x.ids;
  }

  lemma FirstArgOfTop(t: Table, allow: bool, name: string)
    requires Resolve(t, allow, name).FirstArg?
    ensures TopId(t, Resolve(t, allow, name).id)
  {
    var f := Lookup(t, name[..LastIndexOf(name, '|')]);
    assert f.name in t.cmds && t.cmds[f.name].id == f.cmd.id;
  }

  lemma AddArgActs(sel: Selector, id: nat, arg: string)
    ensures var args := AddFirstArg(sel.firstArgs, id, arg);
            && PermissionsOf(sel.(firstArgs := args)) == Act(PermissionsOf(sel), AddArg(id, Lower(arg)))
            && forall k :: k in args ==> k in sel.firstArgs || k == id
  {
    var there := if id in sel.firstArgs then sel.firstArgs[id] else [];
    var sel' := sel.(firstArgs := AddFirstArg(sel.firstArgs, id, arg));
    var (p, q) := (PermissionsOf(sel).args, PermissionsOf(sel').args);
    if HasArg(there, arg) {
      var i :| 0 <= i < |there| && Lower(there[i]) == Lower(arg);
      assert (id, Lower(there[i])) in p;
      assert p + {(id, Lower(arg))} == p;
      assert sel' == sel;
    } else {
      var now := sel'.firstArgs[id];
      assert now == there + [arg];
      assert (id, Lower(now[|there|])) in q;
      forall a | a in p ensures a in q {
        var k, i :| k in sel.firstArgs && 0 <= i < |sel.firstArgs[k]| && a == (k, Lower(sel.firstArgs[k][i]));
        assert sel'.firstArgs[k][i] == sel.firstArgs[k][i];
      }
      forall a | a in q ensures a in p + {(id, Lower(arg))} {
        var k, i :| k in sel'.firstArgs && 0 <= i < |sel'.firstArgs[k]| && a == (k, Lower(sel'.firstArgs[k][i]));
        if k == id && i == |there| {
        } else {
          assert sel.firstArgs[k][i] == sel'.firstArgs[k][i];
        }
      }
      assert q == p + {(id, Lower(arg))};
    }
  }
}
