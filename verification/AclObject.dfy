/** The selector as acl.c keeps it, changed in place: bit by bit, subcommand by subcommand,
    and with the rule text edited in its buffer. Each method is proved against `AclSelector`. */
module AclObject {
  import opened Text
  import opened Sds
  import opened AclRules
  import opened AclSelector
  import opened AclReplay
  import opened AclBitmap

  ghost function IdsOf(fs: set<Found>): set<nat> {
    set f, id | f in fs && id in Ids(f) :: id
  }

  ghost function ResetsOf(fs: set<Found>): set<nat> {
    set f, id | f in fs && id in Resets(f) :: id
  }

  lemma IdsOfMore(fs: set<Found>, f: Found)
    ensures IdsOf(fs + {f}) == IdsOf(fs) + Ids(f) && ResetsOf(fs + {f}) == ResetsOf(fs) + Resets(f)
  {
  }

  lemma SetBitsTwice(bits: seq<bool>, a: set<nat>, b: set<nat>, v: bool)
    ensures SetBits(SetBits(bits, a, v), b, v) == SetBits(bits, a + b, v)
  {
  }

  lemma SetNoBits(bits: seq<bool>, v: bool)
    ensures SetBits(bits, {}, v) == bits
  {
  }

  /** The ids of the subcommands other than those still to do. */
  function IdsBut(c: Cmd, todo: set<string>): set<nat> {
    set s | s in Subs(c) && s !in todo :: Subs(c)[s].id
  }

  lemma KnownIds(t: Table, f: Found)
    requires WfTable(t) && Known(t, f) && !f.NotFound?
    ensures (if f.Top? then f.cmd.id else f.sub.id) < BITS
    ensures f.Top? ==> forall s :: s in Subs(f.cmd) ==> Subs(f.cmd)[s].id < BITS
  {
  }

  /** The commands of a category that belong to one command, without the subcommands still to do. */
  ghost function Owned(t: Table, cat: string, n: string, todo: set<string>): set<Found>
    requires n in t.cmds
  {
    (if cat in t.cmds[n].cats then {Top(n, t.cmds[n])} else {})
    + (set s | s in Subs(t.cmds[n]) && s !in todo && cat in Subs(t.cmds[n])[s].cats :: SubOf(n, s, Subs(t.cmds[n])[s]))
  }

  lemma OwnedFirst(t: Table, cat: string, n: string)
    requires n in t.cmds
    ensures Owned(t, cat, n, Subs(t.cmds[n]).Keys) == if cat in t.cmds[n].cats then {Top(n, t.cmds[n])} else {}
  {
  }

  lemma OwnedNext(t: Table, cat: string, n: string, todo: set<string>, s: string)
    requires n in t.cmds && s in todo && s in Subs(t.cmds[n])
    ensures var sub := Subs(t.cmds[n])[s];
            Owned(t, cat, n, todo - {s}) == Owned(t, cat, n, todo) + if cat in sub.cats then {SubOf(n, s, sub)} else {}
  {
  }

  /** The commands of a category whose owner is done. */
  ghost function Outside(t: Table, cat: string, todo: set<string>): set<Found> {
    set f | f in CategoryCommands(t, cat) && Owner(f) !in todo
  }

  lemma NotOwnedBy(t: Table, cat: string)
    ensures Outside(t, cat, t.cmds.Keys) == {} && Outside(t, cat, {}) == CategoryCommands(t, cat)
  {
  }

  lemma OutsideNext(t: Table, cat: string, todo: set<string>, n: string)
    requires n in todo && n in t.cmds
    ensures Outside(t, cat, todo - {n}) == Outside(t, cat, todo) + Owned(t, cat, n, {})
  {
  }

  class SelectorObject {
    var words: seq<bv64>
    ghost var bits: seq<bool>
    var allCommands: bool
    var firstArgs: map<nat, seq<string>>
    var commandRules: string

    ghost function View(): Selector
      reads this
    {
      Selector(bits, allCommands, firstArgs, Cut(commandRules))
    }

    /** The words hold the bits. */
    ghost predicate LaidOut()
      reads this
    {
      |bits| == BITS && |words| == WORDS && bits == WordBits(words)
    }

    ghost predicate Valid()
      reads this
    {
      LaidOut() && '\0' !in commandRules
    }

    /** `ACLCreateSelector`. */
    constructor ()
      ensures Valid() && View() == EMPTY
    {
      WordBitsFilled(false);
      words, bits, allCommands, firstArgs := Filled(false), seq(BITS, _ => false), false, map[];
      commandRules := "";
    }

    /** `ACLSetSelectorCommandBit`: an id past the bitmap is ignored. */
    method SetCommandBit(id: nat, value: bool)
      requires LaidOut()
      modifies this`words, this`bits, this`allCommands
      ensures LaidOut() && bits == SetBits(old(bits), {id}, value)
      ensures allCommands == (old(allCommands) && (value || id >= BITS))
    {
      hide WordBits, Mask, SetWord;
      var at := Coordinates(id);
      if at.None? {
        assert SetBits(bits, {id}, value) == bits;
        return;
      }
      var (word, bit) := at.value;
      WordBitsSet(words, id, value);
      words := words[word := SetWord(words[word], bit, value)];
      if !value { allCommands := false; }
      bits := bits[id := value];
      assert bits == SetBits(old(bits), {id}, value);
    }

    /** The loop over the subcommands of `ACLChangeSelectorPerm`. */
    method ChangeSubs(c: Cmd, allow: bool)
      requires LaidOut() && forall s :: s in Subs(c) ==> Subs(c)[s].id < BITS
      modifies this`words, this`bits, this`allCommands
      ensures LaidOut() && bits == SetBits(old(bits), SubIds(c), allow)
      ensures allCommands == (old(allCommands) && (allow || Subs(c) == map[]))
    {
      var todo := Subs(c).Keys;
      SetNoBits(bits, allow);
      assert IdsBut(c, todo) == {};
      hide SetBits;
      while todo != {}
        invariant todo <= Subs(c).Keys
        invariant LaidOut() && bits == SetBits(old(bits), IdsBut(c, todo), allow)
        invariant allCommands == (old(allCommands) && (allow || todo == Subs(c).Keys))
        decreases |todo|
      {
        var s :| s in todo;
        var sub := Subs(c)[s];
        SetBitsTwice(old(bits), IdsBut(c, todo), {sub.id}, allow);
        assert IdsBut(c, todo - {s}) == IdsBut(c, todo) + {sub.id};
        SetCommandBit(sub.id, allow);
        todo := todo - {s};
      }
      assert IdsBut(c, {}) == SubIds(c);
    }

    /** `ACLChangeSelectorPerm`: the command, its first arguments, and its subcommands. */
    method ChangePerm(t: Table, f: Found, allow: bool)
      requires LaidOut() && WfTable(t) && Known(t, f) && !f.NotFound?
      modifies this`words, this`bits, this`allCommands, this`firstArgs
      ensures LaidOut() && bits == SetBits(old(bits), Ids(f), allow)
      ensures allCommands == (old(allCommands) && allow)
      ensures firstArgs == old(firstArgs) - Resets(f)
    {
      var id := if f.Top? then f.cmd.id else f.sub.id;
      KnownIds(t, f);
      hide WfTable, Known, SetBits, SubIds;
      SetCommandBit(id, allow);
      firstArgs := firstArgs - {id};
      if f.Top? {
        SetBitsTwice(old(bits), {id}, SubIds(f.cmd), allow);
        ChangeSubs(f.cmd, allow);
      }
    }

    /** One more command of the category is changed. */
    method ChangeMore(t: Table, f: Found, allow: bool,
                      ghost bits0: seq<bool>, ghost all0: bool, ghost args0: map<nat, seq<string>>, ghost done: set<Found>)
      requires WfTable(t) && Known(t, f) && !f.NotFound? && Reached(bits0, all0, args0, allow, done)
      modifies this`words, this`bits, this`allCommands, this`firstArgs
      ensures Reached(bits0, all0, args0, allow, done + {f})
    {
      hide WfTable, SetBits, Ids, Resets, Known;
      ChangePerm(t, f, allow);
      ReachMore(bits0, args0, allow, done, f);
    }

    /** One command of `ACLSetSelectorCommandBitsForCategory`, with its subcommands. */
    method SetOwner(t: Table, cat: string, n: string, allow: bool,
                    ghost bits0: seq<bool>, ghost all0: bool, ghost args0: map<nat, seq<string>>, ghost done: set<Found>)
      requires WfTable(t) && n in t.cmds && Reached(bits0, all0, args0, allow, done)
      modifies this`words, this`bits, this`allCommands, this`firstArgs
      ensures Reached(bits0, all0, args0, allow, done + Owned(t, cat, n, {}))
    {
      hide WfTable, Owned, Reached;
      var cmd := t.cmds[n];
      OwnedFirst(t, cat, n);
      if cat in cmd.cats {
        ChangeMore(t, Top(n, cmd), allow, bits0, all0, args0, done);
      } else {
        assert done + {} == done;
      }
      var subs := Subs(cmd).Keys;
      while subs != {}
        invariant subs <= Subs(cmd).Keys
        invariant Reached(bits0, all0, args0, allow, done + Owned(t, cat, n, subs))
        decreases |subs|
      {
        var s :| s in subs;
        OwnedNext(t, cat, n, subs, s);
        ghost var before := done + Owned(t, cat, n, subs);
        if cat in Subs(cmd)[s].cats {
          ChangeMore(t, SubOf(n, s, Subs(cmd)[s]), allow, bits0, all0, args0, before);
          assert done + Owned(t, cat, n, subs - {s}) == before + {SubOf(n, s, Subs(cmd)[s])};
        } else {
          assert done + Owned(t, cat, n, subs - {s}) == before;
        }
        subs := subs - {s};
      }
    }

    /** `ACLSetSelectorCommandBitsForCategory`, over the commands and their subcommands. */
    method SetCategory(t: Table, cat: string, allow: bool)
      requires LaidOut() && WfTable(t)
      modifies this`words, this`bits, this`allCommands, this`firstArgs
      ensures LaidOut() && bits == SetBits(old(bits), IdsOf(CategoryCommands(t, cat)), allow)
      ensures allCommands == (old(allCommands) && (allow || CategoryCommands(t, cat) == {}))
      ensures firstArgs == old(firstArgs) - ResetsOf(CategoryCommands(t, cat))
    {
      hide WfTable, SetBits;
      var todo := t.cmds.Keys;
      SetNoBits(bits, allow);
      assert IdsOf({}) == {} && ResetsOf({}) == {};
      NotOwnedBy(t, cat);
      assert Reached(bits, allCommands, firstArgs, allow, Outside(t, cat, todo));
      hide Outside, Owned, CategoryCommands;
      while todo != {}
        invariant todo <= t.cmds.Keys
        invariant Reached(old(bits), old(allCommands), old(firstArgs), allow, Outside(t, cat, todo))
        decreases |todo|
      {
        var n :| n in todo;
        OutsideNext(t, cat, todo, n);
        SetOwner(t, cat, n, allow, old(bits), old(allCommands), old(firstArgs), Outside(t, cat, todo));
        todo := todo - {n};
      }
    }

    /** The commands of `done` have been changed, nothing else. */
    ghost predicate Reached(bits0: seq<bool>, all0: bool, args0: map<nat, seq<string>>, allow: bool, done: set<Found>)
      reads this
    {
      && LaidOut() && bits == SetBits(bits0, IdsOf(done), allow)
      && allCommands == (all0 && (allow || done == {}))
      && firstArgs == args0 - ResetsOf(done)
    }

    lemma ReachMore(bits0: seq<bool>, args0: map<nat, seq<string>>, allow: bool, done: set<Found>, f: Found)
      ensures SetBits(SetBits(bits0, IdsOf(done), allow), Ids(f), allow) == SetBits(bits0, IdsOf(done + {f}), allow)
      ensures args0 - ResetsOf(done) - Resets(f) == args0 - ResetsOf(done + {f})
    {
      IdsOfMore(done, f);
      SetBitsTwice(bits0, IdsOf(done), Ids(f), allow);
    }

    /** `ACLAddAllowedFirstArg`. */
    method AddAllowedFirstArg(id: nat, arg: string)
      modifies this`firstArgs
      ensures firstArgs == AddFirstArg(old(firstArgs), id, arg)
    {
      var there := if id in firstArgs then firstArgs[id] else [];
      var items := 0;
      while items < |there|
        invariant 0 <= items <= |there|
        invariant forall i :: 0 <= i < items ==> Lower(there[i]) != Lower(arg)
      {
        if Lower(there[items]) == Lower(arg) { return; }
        items := items + 1;
      }
      firstArgs := firstArgs[id := there + [arg]];
    }

    /** `ACLUpdateCommandRules`: the replaced rules are moved over in the buffer, then the new
        rule is appended. */
    method UpdateCommandRules(rule: string, allow: bool)
      requires Valid() && '\0' !in rule
      modifies this`commandRules
      ensures Valid() && commandRules == UpdateText(Cut(old(commandRules)), rule, allow)
    {
      hide Filter, Matches, Join, Cut;
      var newRule := Lower(rule);
      ghost var rules := Cut(commandRules);
      var buf := new char[|commandRules| + 1](i requires 0 <= i <= |commandRules| reads this =>
        if i < |commandRules| then commandRules[i] else '\0');
      CutPieces(commandRules);
      CutJoins(commandRules);
      assert buf[..|commandRules|] == commandRules;
      RemoveCommandRule(buf, newRule, rules);
      ghost var kept := Filter(rules, newRule);
      var n := StringLength(buf, 0, Join(kept));
      commandRules := buf[..n];
      assert '\0' !in newRule;
      if n > 0 { commandRules := commandRules + " "; }
      commandRules := commandRules + (Sign(allow) + newRule);
    }

    /** `ACLSetSelectorCategory`; `name` starts with `@`. */
    method ApplyCategory(t: Table, name: string, allow: bool) returns (err: Option<Errno>)
      requires Valid() && WfTable(t) && '\0' !in name && name != "" && name[0] == '@'
      modifies this
      ensures Valid()
      ensures Outcome(old(View()), ApplyTarget(old(View()), allow, name, Resolve(t, allow, name)), err)
    {
      hide SetBits, Ids, Resets, CategoryCommands, UpdateText, Join, Cut;
      var cat := Lower(name[1..]);
      if cat !in t.categories { return Some(ENOENT); }
      UpdateCommandRules(name, allow);
      SetCategory(t, cat, allow);
      NoIds(t, cat);
      return None;
    }

    method ApplyFound(t: Table, cmd: Found, name: string, allow: bool)
      requires Valid() && WfTable(t) && '\0' !in name && Known(t, cmd) && !cmd.NotFound?
      modifies this
      ensures Valid() && Ok(View()) == ApplyTarget(old(View()), allow, name, Perm(Ids(cmd), Resets(cmd)))
    {
      hide SetBits, Ids, Resets, UpdateText, Join, WfTable, Known, Lower, Cut;
      SomeIds(cmd);
      ChangePerm(t, cmd, allow);
      UpdateCommandRules(name, allow);
    }

    method ApplyFirstArg(id: nat, arg: string, name: string, allow: bool)
      requires Valid() && '\0' !in name
      modifies this
      ensures Valid() && Ok(View()) == ApplyTarget(old(View()), allow, name, FirstArg(id, arg))
    {
      hide UpdateText, Join, Lower, Cut, AddFirstArg;
      AddAllowedFirstArg(id, arg);
      UpdateCommandRules(name, allow);
    }

    /** The branches for a command, a subcommand or a first argument. */
    method ApplyCommand(t: Table, name: string, allow: bool) returns (err: Option<Errno>)
      requires Valid() && WfTable(t) && '\0' !in name && (name != "" ==> name[0] != '@')
      modifies this
      ensures Valid()
      ensures Outcome(old(View()), ApplyTarget(old(View()), allow, name, Resolve(t, allow, name)), err)
    {
      hide Ids, Resets, Lookup, Join, WfTable, Known, Lower, Cut, LastIndexOf, ApplyTarget;
      var arg := ResolveName(t, name, allow);
      if arg.Refused? {
        RefusedStays(View(), allow, name, arg.errno);
        return Some(arg.errno);
      }
      if arg.FirstArg? {
        ApplyFirstArg(arg.id, arg.arg, name, allow);
        return None;
      }
      var cmd := Lookup(t, name);
      LookupKnown(t, name);
      ApplyFound(t, cmd, name, allow);
      return None;
    }

    lemma RefusedStays(sel: Selector, allow: bool, name: string, e: Errno)
      ensures ApplyTarget(sel, allow, name, Refused(e)) == Err(e)
    {
    }

    /** The selector is what the operation makes of it, or untouched with the error. */
    ghost predicate Outcome(was: Selector, r: Result, err: Option<Errno>)
      reads this
    {
      match r
      case Ok(sel) => err.None? && View() == sel
      case Err(e) => err == Some(e) && View() == was
    }

    /** The command branches of `ACLSetSelector`. */
    method SetSelectorOp(t: Table, op: string) returns (err: Option<Errno>)
      requires Valid() && WfTable(t) && '\0' !in op
      modifies this
      ensures Valid() && Outcome(old(View()), SetSelector(t, old(View()), op), err)
      ensures Lower(op) in {"allcommands", "+@all"} ==>
                err.None? && (forall k :: 0 <= k < BITS ==> bits[k]) && allCommands && firstArgs == map[] && commandRules == ""
      ensures Lower(op) in {"nocommands", "-@all"} ==>
                err.None? && (forall k :: 0 <= k < BITS ==> !bits[k]) && !allCommands && firstArgs == map[] && commandRules == ""
    {
      hide ApplyTarget, Resolve, Join;
      if IsAll(op) || IsNone(op) {
        var value := IsAll(op);
        WordBitsFilled(value);
        words, bits := Filled(value), seq(BITS, _ => value);
        allCommands, firstArgs, commandRules := value, map[], "";
        return None;
      }
      if op == "" || (op[0] != '+' && op[0] != '-') { return Some(EINVAL); }
      if |op| > 1 && op[1] == '@' {
        err := ApplyCategory(t, op[1..], op[0] == '+');
      } else {
        err := ApplyCommand(t, op[1..], op[0] == '+');
      }
    }

    /** `ACLDescribeSelectorCommandRules`: the text, and whether the bitmaps disagree. */
    method DescribeCommandRules(t: Table) returns (text: string, panics: bool)
      requires Valid() && WfTable(t) && SelInv(t, View())
      ensures panics <==> Reload(t, View()).None? || Reload(t, View()).value.bits != bits
      ensures AllPlain(Cut(commandRules)) ==> !panics
      ensures text == Sign(bits[BITS - 1]) + "@all" + if commandRules == "" then "" else " " + commandRules
    {
      ReloadsIff(t, View());
      CutJoins(commandRules);
      var future := CommandBit(words, BITS - 1);
      text := Sign(future) + "@all" + if commandRules == "" then "" else " " + commandRules;
      var fake := Everything(future);
      var argv := SplitArgs(commandRules);
      if argv.None? {
        panics := true;
      } else {
        var again := ApplyAll(t, fake, argv.value);
        panics := again.None? || again.value.bits != WordBits(words);
      }
    }
  }

  /** `commandId` and `nextid`: the ids given to command names. */
  class CommandIds {
    var ids: map<string, nat>
    var nextId: nat

    /** Names are lower case, ids are not shared, and the reserved bit is never given out. */
    ghost predicate Valid()
      reads this
    {
      && nextId != BITS - 1
      && (forall n :: n in ids ==> Lower(n) == n && ids[n] < nextId && ids[n] != BITS - 1)
      && (forall a, b :: a in ids && b in ids && ids[a] == ids[b] ==> a == b)
    }

    constructor ()
      ensures Valid() && ids == map[]
    {
      ids, nextId := map[], 0;
    }

    /** `ACLGetCommandID`: the id the name has, in any case, or a new one. */
    method GetCommandID(name: string) returns (id: nat)
      requires Valid()
      modifies this
      ensures Valid() && Lower(name) in ids && ids[Lower(name)] == id && id != BITS - 1
      ensures ids == if Lower(name) in old(ids) then old(ids) else old(ids)[Lower(name) := id]
    {
      var lower := Lower(name);
      LowerIdempotent(name);
      if lower in ids { return ids[lower]; }
      id := nextId;
      ids := ids[lower := id];
      nextId := nextId + 1;
      if nextId == BITS - 1 { nextId := nextId + 1; }
    }
  }

  /** The checks of the `command|name` branch and the lookup behind them. */
  method ResolveName(t: Table, name: string, allow: bool) returns (x: Target)
    requires name != "" ==> name[0] != '@'
    ensures x == Resolve(t, allow, name)
    ensures x.Perm? ==> !Lookup(t, name).NotFound? && x == Perm(Ids(Lookup(t, name)), Resets(Lookup(t, name)))
  {
    hide Ids, Resets, Lookup, LastIndexOf;
    var bar := LastIndexOf(name, '|');
    if allow && bar >= 0 {
      var parent := Lookup(t, name[..bar]);
      if parent.NotFound? { return Refused(ENOENT); }
      if parent.SubOf? { return Refused(ECHILD); }
      if name[bar + 1..] == "" { return Refused(EINVAL); }
      if parent.cmd.subs.None? { return FirstArg(parent.cmd.id, name[bar + 1..]); }
    }
    var cmd := Lookup(t, name);
    if cmd.NotFound? { return Refused(ENOENT); }
    return Perm(Ids(cmd), Resets(cmd));
  }

  function Owner(f: Found): string {
    match f case NotFound => "" case Top(n, _) => n case SubOf(n, _, _) => n
  }

  lemma SomeIds(f: Found)
    ensures !f.NotFound? ==> Ids(f) != {}
  {
    if f.Top? { assert f.cmd.id in Ids(f); }
    if f.SubOf? { assert f.sub.id in Ids(f); }
  }

  lemma NoIds(t: Table, cat: string)
    ensures IdsOf(CategoryCommands(t, cat)) == {} <==> CategoryCommands(t, cat) == {}
  {
    if CategoryCommands(t, cat) != {} {
      var f :| f in CategoryCommands(t, cat);
      SomeIds(f);
      var id :| id in Ids(f);
      assert id in IdsOf(CategoryCommands(t, cat));
    }
  }
}
