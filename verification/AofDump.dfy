/** The rewrite of a whole dataset (aof.c): for every database that is not empty a SELECT, for
    every key its value, and its expiry time if it has one. Loading the bytes rebuilds the
    dataset. */
module AofDump {
  import opened Text
  import opened Sds
  import opened AofLog
  import opened AofEmit

  // ---------- The dataset ----------

  /** `cur` is the database selected; a database without keys is not in `dbs`. */
  datatype Keyspace = Keyspace(cur: nat, dbs: map<nat, Db>, expires: map<(nat, string), nat>)

  const NEW := Keyspace(0, map[], map[])

  function DbOf(k: Keyspace, n: nat): Db { if n in k.dbs then k.dbs[n] else map[] }

  function PutDb(k: Keyspace, db: Db): Keyspace {
    k.(dbs := if db == map[] then k.dbs - {k.cur} else k.dbs[k.cur := db])
  }

  predicate Number(s: string) { s != "" && AllDigits(s) }

  predicate Named(argv: Argv, name: string) { argv != [] && Lower(argv[0]) == name }

  /** One command on the dataset; a wrong number of arguments is an error reply. */
  function Exec(k: Keyspace, argv: Argv): Keyspace {
    if Named(argv, "select") then
      if |argv| == 2 && Number(argv[1]) then k.(cur := DigitsValue(argv[1])) else k
    else if Named(argv, "set") then
      if |argv| == 3 then
        PutDb(k, DbOf(k, k.cur)[argv[1] := StringValue(argv[2])]).(expires := k.expires - {(k.cur, argv[1])})
      else k
    else if Named(argv, "pexpireat") then
      if |argv| == 3 && Number(argv[2]) && argv[1] in DbOf(k, k.cur) then
        k.(expires := k.expires[(k.cur, argv[1]) := DigitsValue(argv[2])])
      else k
    else PutDb(k, Execute(DbOf(k, k.cur), argv))
  }

  function ExecAll(k: Keyspace, cmds: seq<Argv>): Keyspace
    decreases |cmds|
  {
    if cmds == [] then k else ExecAll(Exec(k, cmds[0]), cmds[1..])
  }

  // ---------- What a rewrite writes ----------

  /** One key as the rewrite walks over it. */
  datatype Item =
    | Text(key: string, text: string, expire: Option<nat>)
    | Container(key: string, kind: AofEmit.Kind, items: seq<Argv>, value: Value, expire: Option<nat>)

  function ValueOf(it: Item): Value { if it.Text? then StringValue(it.text) else it.value }

  function ValueCmds(it: Item): seq<Argv> {
    if it.Text? then [["SET", it.key, it.text]] else Batches(it.kind, it.key, it.items)
  }

  function ExpireCmds(it: Item): seq<Argv> {
    if it.expire.Some? then [["PEXPIREAT", it.key, Dec(it.expire.value)]] else []
  }

  function ItemsCmds(items: seq<Item>): seq<Argv> {
    if items == [] then []
    else
      var last := items[|items| - 1];
      ItemsCmds(items[..|items| - 1]) + (ValueCmds(last) + ExpireCmds(last))
  }

  function DbCmds(n: nat, items: seq<Item>): seq<Argv> {
    if items == [] then [] else [["SELECT", Dec(n)]] + ItemsCmds(items)
  }

  /** The commands for `server.db`, each database given by the walk over its keys. */
  function AllCmds(walk: seq<seq<Item>>): seq<Argv> {
    if walk == [] then []
    else AllCmds(walk[..|walk| - 1]) + DbCmds(|walk| - 1, walk[|walk| - 1])
  }

  lemma EncodeOne(argv: Argv)
    ensures Encode([argv]) == EncodeCommand(argv)
  {
    hide EncodeCommand;
    assert [argv][1..] == [];
  }

  /** The body of the loop over the keys. */
  method RewriteKey(out: string, it: Item) returns (out': string)
    requires it.Container? ==> Items(it.kind, it.items)
    ensures out' == out + Encode(ValueCmds(it) + ExpireCmds(it))
  {
    hide EncodeCommand, Encode, Batches;
    EncodeAppend(ValueCmds(it), ExpireCmds(it));
    if it.Text? {
      EncodeOne(["SET", it.key, it.text]);
      out' := CatAppendOnlyGenericCommand(out, ["SET", it.key, it.text]);
    } else {
      var value := RewriteObject(it.kind, it.key, it.items);
      out' := out + value;
    }
    assert out' == out + Encode(ValueCmds(it));
    if it.expire.Some? {
      EncodeOne(["PEXPIREAT", it.key, Dec(it.expire.value)]);
      out' := CatAppendOnlyGenericCommand(out', ["PEXPIREAT", it.key, Dec(it.expire.value)]);
    } else {
      NothingEncoded(out');
    }
  }

  lemma NothingEncoded(out: string)
    ensures Encode([]) == "" && out + Encode([]) == out
  {
  }

  ghost predicate Emittable(items: seq<Item>) {
    forall i :: 0 <= i < |items| ==> items[i].Container? ==> Items(items[i].kind, items[i].items)
  }

  lemma ItemsCmdsMore(items: seq<Item>, i: nat)
    requires i < |items|
    ensures ItemsCmds(items[..i + 1]) == ItemsCmds(items[..i]) + (ValueCmds(items[i]) + ExpireCmds(items[i]))
  {
    hide ValueCmds, ExpireCmds;
    assert items[..i + 1][..i] == items[..i];
  }

  /** The loop over the keys of one database. */
  method RewriteDb(out: string, n: nat, items: seq<Item>) returns (out': string)
    requires Emittable(items)
    ensures out' == out + Encode(DbCmds(n, items))
  {
    hide EncodeCommand, Encode, ItemsCmds, ValueCmds, ExpireCmds;
    NothingEncoded(out);
    if items == [] { return out; }
    out' := CatAppendOnlyGenericCommand(out, ["SELECT", Dec(n)]);
    EncodeOne(["SELECT", Dec(n)]);
    ghost var head := out';
    assert items[..0] == [] && ItemsCmds([]) == [] by { NoItems(); }
    NothingEncoded(head);
    for i := 0 to |items|
      invariant out' == head + Encode(ItemsCmds(items[..i]))
    {
      out' := RewriteKey(out', items[i]);
      ItemsCmdsMore(items, i);
      EncodeAppend(ItemsCmds(items[..i]), ValueCmds(items[i]) + ExpireCmds(items[i]));
    }
    assert items[..|items|] == items;
    EncodeAppend([["SELECT", Dec(n)]], ItemsCmds(items));
  }

  lemma NoItems()
    ensures ItemsCmds([]) == []
  {
  }

  lemma AllCmdsMore(walk: seq<seq<Item>>, j: nat)
    requires j < |walk|
    ensures AllCmds(walk[..j + 1]) == AllCmds(walk[..j]) + DbCmds(j, walk[j])
  {
    hide DbCmds;
    assert walk[..j + 1][..j] == walk[..j];
  }

  /** `rewriteAppendOnlyFileRio`. */
  method RewriteAppendOnlyFileRio(walk: seq<seq<Item>>) returns (out: string)
    requires forall j :: 0 <= j < |walk| ==> Emittable(walk[j])
    ensures out == Encode(AllCmds(walk))
  {
    out := "";
    assert walk[..0] == [];
    assert out == Encode(AllCmds(walk[..0]));
    hide Encode, DbCmds, AllCmds;
    for j := 0 to |walk|
      invariant out == Encode(AllCmds(walk[..j]))
    {
      out := RewriteDb(out, j, walk[j]);
      AllCmdsMore(walk, j);
      EncodeAppend(AllCmds(walk[..j]), DbCmds(j, walk[j]));
    }
    assert walk[..|walk|] == walk;
  }

  // ---------- Executing what was written ----------

  lemma {:induction false} ExecAppend(k: Keyspace, a: seq<Argv>, b: seq<Argv>)
    ensures ExecAll(k, a + b) == ExecAll(ExecAll(k, a), b)
    decreases |a|
  {
    hide Exec;
    if a == [] {
      assert a + b == b;
    } else {
      assert (a + b)[1..] == a[1..] + b;
      ExecAppend(Exec(k, a[0]), a[1..], b);
    }
  }

  lemma ExecOne(k: Keyspace, argv: Argv)
    ensures ExecAll(k, [argv]) == Exec(k, argv)
  {
    hide Exec;
    assert [argv][1..] == [];
  }

  lemma FourElsewhere(argv: Argv)
    requires argv != [] && KindOf(argv[0]).Some?
    ensures !Named(argv, "select") && !Named(argv, "set") && !Named(argv, "pexpireat")
  {
  }

  lemma PutTwice(k: Keyspace, a: Db, b: Db)
    ensures PutDb(PutDb(k, a), b) == PutDb(k, b) && DbOf(PutDb(k, a), k.cur) == a
  {
  }

  /** The commands of the four kinds act on the selected database only. */
  lemma {:induction false} ExecFour(k: Keyspace, cmds: seq<Argv>)
    requires cmds != [] && forall i :: 0 <= i < |cmds| ==> cmds[i] != [] && KindOf(cmds[i][0]).Some?
    ensures ExecAll(k, cmds) == PutDb(k, ExecuteAll(DbOf(k, k.cur), cmds))
    decreases |cmds|
  {
    var db := DbOf(k, k.cur);
    var first := Execute(db, cmds[0]);
    FourElsewhere(cmds[0]);
    assert Exec(k, cmds[0]) == PutDb(k, first);
    hide Execute, Exec, Named, KindOf, PutDb;
    if |cmds| == 1 {
      assert cmds[1..] == [];
      NothingDone(PutDb(k, first), first);
    } else {
      PutTwice(k, first, ExecuteAll(first, cmds[1..]));
      assert PutDb(k, first).cur == k.cur by { SameCur(k, first); }
      ExecFour(PutDb(k, first), cmds[1..]);
    }
  }

  lemma NothingDone(k: Keyspace, db: Db)
    ensures ExecAll(k, []) == k && ExecuteAll(db, []) == db
  {
  }

  lemma SameCur(k: Keyspace, db: Db)
    ensures PutDb(k, db).cur == k.cur
  {
  }

  ghost predicate WellWalked(it: Item) {
    && |Dec(|it.key|)| <= 29
    && (it.expire.Some? ==> |Dec(|Dec(it.expire.value)|)| <= 29)
    && (it.Text? ==> |Dec(|it.text|)| <= 29)
    && (it.Container? ==> Lists(it.kind, it.items, it.value) && it.items != [] && Sized(it.items))
  }

  /** The key with its value and its expiry time. */
  function WithItem(k: Keyspace, it: Item): Keyspace {
    PutDb(k, DbOf(k, k.cur)[it.key := ValueOf(it)])
      .(expires := if it.expire.Some? then k.expires[(k.cur, it.key) := it.expire.value] else k.expires)
  }

  lemma ContainerReplays(k: Keyspace, it: Item)
    requires WellWalked(it) && it.Container? && it.key !in DbOf(k, k.cur)
    ensures ExecAll(k, ValueCmds(it)) == PutDb(k, DbOf(k, k.cur)[it.key := it.value])
  {
    var db := DbOf(k, k.cur);
    assert Items(it.kind, it.items);
    hide ExecAll, ExecuteAll, Batches, Flatten, Add, Sized, KindOf, PutDb, Encodable;
    BatchesBounded(it.kind, it.key, it.items);
    NameFound(it.kind);
    BatchesSome(it.kind, it.key, it.items);
    ExecFour(k, Batches(it.kind, it.key, it.items));
    ReplayBatches(it.kind, it.key, it.items, db, Empty(it.kind));
    AddRebuilds(it.kind, it.items, it.value);
  }

  lemma BatchesSome(kind: AofEmit.Kind, key: string, items: seq<Argv>)
    requires items != []
    ensures Batches(kind, key, items) != []
  {
  }

  lemma SetExecutes(k: Keyspace, key: string, text: string)
    requires (k.cur, key) !in k.expires
    ensures ExecAll(k, [["SET", key, text]]) == PutDb(k, DbOf(k, k.cur)[key := StringValue(text)])
  {
    ExecOne(k, ["SET", key, text]);
    hide ExecAll;
    assert Lower("SET") == "set" && "set" != "select";
    assert k.expires - {(k.cur, key)} == k.expires;
  }

  lemma ExpireExecutes(k: Keyspace, key: string, time: nat)
    requires key in DbOf(k, k.cur)
    ensures ExecAll(k, [["PEXPIREAT", key, Dec(time)]]) == k.(expires := k.expires[(k.cur, key) := time])
  {
    ExecOne(k, ["PEXPIREAT", key, Dec(time)]);
    hide ExecAll;
    DecValue(time);
    assert Lower("PEXPIREAT") == "pexpireat" && "pexpireat" != "select" && "pexpireat" != "set";
    hide Dec, DigitsValue;
  }

  lemma SelectExecutes(k: Keyspace, n: nat)
    ensures ExecAll(k, [["SELECT", Dec(n)]]) == k.(cur := n)
  {
    ExecOne(k, ["SELECT", Dec(n)]);
    hide ExecAll;
    DecValue(n);
    assert Lower("SELECT") == "select";
    hide Dec, DigitsValue;
  }

  lemma ItemReplays(k: Keyspace, it: Item)
    requires WellWalked(it) && it.key !in DbOf(k, k.cur) && (k.cur, it.key) !in k.expires
    ensures ExecAll(k, ValueCmds(it) + ExpireCmds(it)) == WithItem(k, it)
  {
    var k1 := PutDb(k, DbOf(k, k.cur)[it.key := ValueOf(it)]);
    if it.Text? { SetExecutes(k, it.key, it.text); } else { ContainerReplays(k, it); }
    assert k1.cur == k.cur && it.key in DbOf(k1, k1.cur) && k1.expires == k.expires;
    ExecAppend(k, ValueCmds(it), ExpireCmds(it));
    NothingDone(k1, map[]);
    if it.expire.Some? { ExpireExecutes(k1, it.key, it.expire.value); }
    hide ExecAll, PutDb, DbOf, ValueCmds, WellWalked;
  }

  // ---------- The walk and the dataset ----------

  /** The dataset has the key, its value and its expiry time or none. */
  predicate HasItem(k: Keyspace, n: nat, it: Item) {
    && n in k.dbs && it.key in k.dbs[n] && k.dbs[n][it.key] == ValueOf(it)
    && (if it.expire.Some? then (n, it.key) in k.expires && k.expires[(n, it.key)] == it.expire.value
        else (n, it.key) !in k.expires)
  }

  ghost predicate KeyIn(items: seq<Item>, key: string) { exists i :: 0 <= i < |items| && items[i].key == key }

  ghost predicate Visited(walk: seq<seq<Item>>, n: nat, key: string) {
    n < |walk| && KeyIn(walk[n], key)
  }

  /** Every key visited is in the dataset as it was visited, and no other. */
  ghost predicate Holds(k: Keyspace, walk: seq<seq<Item>>) {
    && (forall n, i :: 0 <= n < |walk| && 0 <= i < |walk[n]| ==> HasItem(k, n, walk[n][i]))
    && (forall n :: n in k.dbs ==> k.dbs[n] != map[])
    && (forall n, key :: n in k.dbs && key in k.dbs[n] ==> Visited(walk, n, key))
    && (forall p :: p in k.expires ==> Visited(walk, p.0, p.1))
  }

  ghost predicate Distinct(items: seq<Item>) {
    forall i, j :: 0 <= i < j < |items| ==> items[i].key != items[j].key
  }

  ghost predicate WellWalkedAll(walk: seq<seq<Item>>) {
    && (forall n :: 0 <= n < |walk| ==> Distinct(walk[n]))
    && (forall n, i :: 0 <= n < |walk| && 0 <= i < |walk[n]| ==> WellWalked(walk[n][i]))
  }

  lemma VisitedMore(walk: seq<seq<Item>>, items: seq<Item>, it: Item, n: nat, key: string)
    ensures Visited(walk + [items + [it]], n, key) <==> Visited(walk + [items], n, key) || (n == |walk| && key == it.key)
  {
    var more := items + [it];
    assert more[|items|] == it;
    assert forall i :: 0 <= i < |items| ==> more[i] == items[i];
  }

  lemma WithItemIs(k: Keyspace, it: Item)
    ensures var db := DbOf(k, k.cur)[it.key := ValueOf(it)];
            db != map[] && WithItem(k, it).dbs == k.dbs[k.cur := db] && WithItem(k, it).cur == k.cur
  {
    var db := DbOf(k, k.cur)[it.key := ValueOf(it)];
    assert it.key in db;
  }

  lemma HasItemMore(k: Keyspace, n: nat, it: Item, m: nat, other: Item)
    requires k.cur == n && HasItem(k, m, other) && (m != n || other.key != it.key)
    ensures HasItem(WithItem(k, it), m, other)
  {
    WithItemIs(k, it);
  }

  lemma NotYet(k: Keyspace, walk: seq<seq<Item>>, items: seq<Item>, key: string)
    requires Holds(k, walk + [items]) && !KeyIn(items, key)
    ensures key !in DbOf(k, |walk|) && (|walk|, key) !in k.expires
  {
    assert !Visited(walk + [items], |walk|, key);
  }

  lemma ItemsHeldMore(k: Keyspace, walk: seq<seq<Item>>, items: seq<Item>, it: Item, n: nat, i: nat)
    requires Holds(k, walk + [items]) && k.cur == |walk| && !KeyIn(items, it.key)
    requires n < |walk| + 1 && i < |(walk + [items + [it]])[n]|
    ensures HasItem(WithItem(k, it), n, (walk + [items + [it]])[n][i])
  {
    NotYet(k, walk, items, it.key);
    WithItemIs(k, it);
    assert HasItem(WithItem(k, it), |walk|, it);
    var was: seq<seq<Item>> := walk + [items];
    if n < |walk| || i < |items| {
      assert (walk + [items + [it]])[n][i] == was[n][i] && HasItem(k, n, was[n][i]);
      HasItemMore(k, |walk|, it, n, was[n][i]);
    }
  }

  lemma HoldsMore(k: Keyspace, walk: seq<seq<Item>>, items: seq<Item>, it: Item)
    requires Holds(k, walk + [items]) && k.cur == |walk| && !KeyIn(items, it.key)
    ensures Holds(WithItem(k, it), walk + [items + [it]])
  {
    var k' := WithItem(k, it);
    var now: seq<seq<Item>> := walk + [items + [it]];
    forall n: nat, i: nat | n < |now| && i < |now[n]| ensures HasItem(k', n, now[n][i]) {
      ItemsHeldMore(k, walk, items, it, n, i);
    }
    forall n, key ensures Visited(now, n, key) <==> Visited(walk + [items], n, key) || (n == |walk| && key == it.key) {
      VisitedMore(walk, items, it, n, key);
    }
    hide HasItem, Visited, KeyIn;
    WithItemIs(k, it);
  }

  lemma HoldsSelect(k: Keyspace, walk: seq<seq<Item>>, n: nat)
    requires Holds(k, walk)
    ensures Holds(k.(cur := n), walk)
  {
    hide Visited;
    assert forall m, it :: HasItem(k, m, it) ==> HasItem(k.(cur := n), m, it);
    hide HasItem;
  }

  lemma HoldsNone(k: Keyspace, walk: seq<seq<Item>>)
    requires Holds(k, walk)
    ensures Holds(k, walk + [[]])
  {
    forall n, key | Visited(walk, n, key) ensures Visited(walk + [[]], n, key) {}
    hide Visited, HasItem;
  }

  lemma {:induction false} ItemsReplay(k: Keyspace, walk: seq<seq<Item>>, items: seq<Item>)
    requires Holds(k, walk) && k.cur == |walk| && Distinct(items)
    requires forall i :: 0 <= i < |items| ==> WellWalked(items[i])
    ensures var k' := ExecAll(k, ItemsCmds(items)); Holds(k', walk + [items]) && k'.cur == |walk|
  {
    if items == [] {
      HoldsNone(k, walk);
    } else {
      hide ExecAll, WellWalked, Holds;
      var (init, it) := (items[..|items| - 1], items[|items| - 1]);
      ItemsReplay(k, walk, init);
      var k1 := ExecAll(k, ItemsCmds(init));
      assert !KeyIn(init, it.key);
      NotYet(k1, walk, init, it.key);
      ItemReplays(k1, it);
      ExecAppend(k, ItemsCmds(init), ValueCmds(it) + ExpireCmds(it));
      HoldsMore(k1, walk, init, it);
      assert init + [it] == items;
      assert WithItem(k1, it).cur == k1.cur by { SameCur(k1, DbOf(k1, k1.cur)[it.key := ValueOf(it)]); }
    }
  }

  lemma DbReplays(k: Keyspace, walk: seq<seq<Item>>, items: seq<Item>)
    requires Holds(k, walk) && Distinct(items) && forall i :: 0 <= i < |items| ==> WellWalked(items[i])
    ensures Holds(ExecAll(k, DbCmds(|walk|, items)), walk + [items])
  {
    hide ExecAll, Holds, WellWalked, ItemsCmds, Distinct;
    if items == [] {
      NothingDone(k, map[]);
      HoldsNone(k, walk);
    } else {
      SelectExecutes(k, |walk|);
      HoldsSelect(k, walk, |walk|);
      ExecAppend(k, [["SELECT", Dec(|walk|)]], ItemsCmds(items));
      ItemsReplay(k.(cur := |walk|), walk, items);
    }
  }

  lemma NothingHeld()
    ensures Holds(ExecAll(NEW, AllCmds([])), [])
  {
  }

  lemma {:induction false} WalkReplays(walk: seq<seq<Item>>)
    requires WellWalkedAll(walk)
    ensures Holds(ExecAll(NEW, AllCmds(walk)), walk)
  {
    hide ExecAll, Holds, WellWalked, DbCmds, Distinct;
    if walk == [] {
      NothingHeld();
    } else {
      var (init, items) := (walk[..|walk| - 1], walk[|walk| - 1]);
      assert WellWalkedAll(init);
      WalkReplays(init);
      ExecAppend(NEW, AllCmds(init), DbCmds(|init|, items));
      DbReplays(ExecAll(NEW, AllCmds(init)), init, items);
      assert init + [items] == walk;
    }
  }

  lemma HoldsOne(a: Keyspace, b: Keyspace, walk: seq<seq<Item>>, n: nat)
    requires Holds(a, walk) && Holds(b, walk)
    ensures n in a.dbs ==> n in b.dbs && forall key :: key in a.dbs[n] ==> key in b.dbs[n] && a.dbs[n][key] == b.dbs[n][key]
  {
    if n in a.dbs {
      forall key | key in a.dbs[n] ensures n in b.dbs && key in b.dbs[n] && a.dbs[n][key] == b.dbs[n][key] {
        assert Visited(walk, n, key);
        var i :| 0 <= i < |walk[n]| && walk[n][i].key == key;
        assert HasItem(a, n, walk[n][i]) && HasItem(b, n, walk[n][i]);
      }
      var some :| some in a.dbs[n];
      assert some in b.dbs[n];
    }
  }

  lemma HoldsExpires(a: Keyspace, b: Keyspace, walk: seq<seq<Item>>, p: (nat, string))
    requires Holds(a, walk) && Holds(b, walk) && p in a.expires
    ensures p in b.expires && a.expires[p] == b.expires[p]
  {
    assert Visited(walk, p.0, p.1);
    var i :| 0 <= i < |walk[p.0]| && walk[p.0][i].key == p.1;
    assert HasItem(a, p.0, walk[p.0][i]) && HasItem(b, p.0, walk[p.0][i]);
  }

  /** A walk describes one dataset. */
  lemma HoldsSame(a: Keyspace, b: Keyspace, walk: seq<seq<Item>>)
    requires Holds(a, walk) && Holds(b, walk)
    ensures a.dbs == b.dbs && a.expires == b.expires
  {
    hide Holds;
    forall n | n in a.dbs || n in b.dbs ensures n in a.dbs && n in b.dbs && a.dbs[n] == b.dbs[n] {
      HoldsOne(a, b, walk, n);
      HoldsOne(b, a, walk, n);
    }
    forall p | p in a.expires || p in b.expires
      ensures p in a.expires && p in b.expires && a.expires[p] == b.expires[p]
    {
      if p in a.expires { HoldsExpires(a, b, walk, p); } else { HoldsExpires(b, a, walk, p); }
    }
  }

  // ---------- The bytes load ----------

  /** A command the loader can read and knows as an ordinary one. */
  ghost predicate Ordinary(table: Table, argv: Argv) { Encodable(argv) && table(argv).Other? }

  /** The command table has the commands a rewrite writes as ordinary ones. */
  ghost predicate HasCommands(table: Table) {
    forall argv: Argv ::
      argv != [] && (KindOf(argv[0]).Some? || Lower(argv[0]) in {"select", "set", "pexpireat"}) ==> table(argv).Other?
  }

  lemma ThreeArgs(a: string, b: string, c: string)
    requires |Dec(|a|)| <= 29 && |Dec(|b|)| <= 29 && |Dec(|c|)| <= 29
    ensures Encodable([a, b, c])
  {
    DecShort(3);
  }

  lemma ValueOrdinary(table: Table, it: Item)
    requires WellWalked(it) && HasCommands(table)
    ensures forall i :: 0 <= i < |ValueCmds(it)| ==> Ordinary(table, ValueCmds(it)[i])
  {
    if it.Text? {
      DecShort(3);
      ThreeArgs("SET", it.key, it.text);
      assert Lower("SET") == "set";
    } else {
      assert Items(it.kind, it.items);
      hide Encodable, KindOf, Lists, Sized, Lower;
      BatchesBounded(it.kind, it.key, it.items);
      NameFound(it.kind);
    }
  }

  lemma ExpireOrdinary(table: Table, it: Item)
    requires WellWalked(it) && HasCommands(table)
    ensures forall i :: 0 <= i < |ExpireCmds(it)| ==> Ordinary(table, ExpireCmds(it)[i])
  {
    if it.expire.Some? {
      DecShort(9);
      ThreeArgs("PEXPIREAT", it.key, Dec(it.expire.value));
      assert Lower("PEXPIREAT") == "pexpireat";
    }
  }

  lemma SelectOrdinary(table: Table, n: nat)
    requires HasCommands(table) && |Dec(|Dec(n)|)| <= 29
    ensures Ordinary(table, ["SELECT", Dec(n)])
  {
    DecShort(6);
    DecShort(2);
    assert Lower("SELECT") == "select";
  }

  lemma {:induction false} ItemsOrdinary(table: Table, items: seq<Item>)
    requires HasCommands(table) && forall i :: 0 <= i < |items| ==> WellWalked(items[i])
    ensures forall i :: 0 <= i < |ItemsCmds(items)| ==> Ordinary(table, ItemsCmds(items)[i])
  {
    hide Ordinary, WellWalked, HasCommands, ValueCmds, ExpireCmds;
    if items != [] {
      ItemsOrdinary(table, items[..|items| - 1]);
      ValueOrdinary(table, items[|items| - 1]);
      ExpireOrdinary(table, items[|items| - 1]);
    }
  }

  lemma DbOrdinary(table: Table, n: nat, items: seq<Item>)
    requires HasCommands(table) && |Dec(|Dec(n)|)| <= 29 && forall i :: 0 <= i < |items| ==> WellWalked(items[i])
    ensures forall i :: 0 <= i < |DbCmds(n, items)| ==> Ordinary(table, DbCmds(n, items)[i])
  {
    hide Ordinary, WellWalked, HasCommands, ItemsCmds, Dec;
    ItemsOrdinary(table, items);
    SelectOrdinary(table, n);
  }

  lemma {:induction false} AllOrdinary(table: Table, walk: seq<seq<Item>>)
    requires HasCommands(table) && WellWalkedAll(walk)
    requires forall n :: 0 <= n < |walk| ==> |Dec(|Dec(n)|)| <= 29
    ensures forall i :: 0 <= i < |AllCmds(walk)| ==> Ordinary(table, AllCmds(walk)[i])
  {
    hide Ordinary, WellWalked, HasCommands, DbCmds, Dec, Distinct;
    if walk != [] {
      var (init, items) := (walk[..|walk| - 1], walk[|walk| - 1]);
      assert WellWalkedAll(init);
      AllOrdinary(table, init);
      DbOrdinary(table, |init|, items);
    }
  }

  lemma OrdinaryLoads(table: Table, cmds: seq<Argv>)
    requires cmds != [] && forall i :: 0 <= i < |cmds| ==> Ordinary(table, cmds[i])
    ensures LoadFile(table, true, Encode(cmds)) == Loaded(AofOk, cmds, Encode(cmds))
  {
    assert Loadable(table, cmds) && forall i :: 0 <= i < |cmds| ==> table(cmds[i]).Other?;
    hide LoadFile, Effective, Encode, AllClosed, NoNestedMulti, Loadable, Ordinary, LeftOpen;
    AllEffective(table, cmds);
    LoadWhole(table, cmds);
  }

  /** The bytes a rewrite writes for a dataset, whatever the order of the walk, load without error
      and rebuild the dataset: every database, every key with its value, every expiry time. */
  lemma EmittedDatasetLoads(table: Table, walk: seq<seq<Item>>, k: Keyspace)
    requires HasCommands(table) && WellWalkedAll(walk) && Holds(k, walk) && k.dbs != map[]
    requires forall n :: 0 <= n < |walk| ==> |Dec(|Dec(n)|)| <= 29
    ensures var r := LoadFile(table, true, Encode(AllCmds(walk)));
            && r.ret == AofOk
            && ExecAll(NEW, r.done).dbs == k.dbs && ExecAll(NEW, r.done).expires == k.expires
  {
    hide HasCommands, WellWalkedAll, LoadFile, Encode, Holds, Ordinary;
    AllOrdinary(table, walk);
    WalkReplays(walk);
    HoldsSame(ExecAll(NEW, AllCmds(walk)), k, walk);
    if AllCmds(walk) == [] {
      NothingDone(NEW, map[]);
      assert false;
    }
    OrdinaryLoads(table, AllCmds(walk));
  }
}
