/** Turning a value back into commands (aof.c): `rewriteListObject`, `rewriteSetObject`,
    `rewriteSortedSetObject` and `rewriteHashObject`, whose output the loader reads and
    whose commands rebuild the value. */
module AofEmit {
  import opened Text
  import opened Sds
  import opened AofLog

  /** AOF_REWRITE_ITEMS_PER_CMD. */
  const ITEMS_PER_CMD := 64

  /** A value, by what its commands can rebuild. Scores are kept as the text that is written. */
  datatype Value =
    | ListValue(items: seq<string>)
    | SetValue(members: set<string>)
    | ZsetValue(scores: map<string, string>)
    | HashValue(fields: map<string, string>)
    | StringValue(text: string)

  datatype Kind = RPush | SAdd | ZAdd | HMSet

  function Name(kind: Kind): string {
    match kind case RPush => "RPUSH" case SAdd => "SADD" case ZAdd => "ZADD" case HMSet => "HMSET"
  }

  /** Arguments per item: an element, or a score and member, or a field and value. */
  function Width(kind: Kind): nat {
    if kind.RPush? || kind.SAdd? then 1 else 2
  }

  function Flatten(items: seq<Argv>): Argv {
    if items == [] then [] else items[0] + Flatten(items[1..])
  }

  function Min(a: nat, b: nat): nat { if a < b then a else b }

  /** The commands of a value: all items in order, at most `ITEMS_PER_CMD` each. */
  function Batches(kind: Kind, key: string, items: seq<Argv>): seq<Argv>
    decreases |items|
  {
    if items == [] then []
    else
      var n := Min(ITEMS_PER_CMD, |items|);
      [[Name(kind), key] + Flatten(items[..n])] + Batches(kind, key, items[n..])
  }

  predicate Items(kind: Kind, items: seq<Argv>) {
    forall i :: 0 <= i < |items| ==> |items[i]| == Width(kind)
  }

  lemma {:induction false} FlattenLength(kind: Kind, items: seq<Argv>)
    requires Items(kind, items)
    ensures |Flatten(items)| == |items| * Width(kind)
  {
    if items != [] { FlattenLength(kind, items[1..]); }
  }

  lemma {:induction false} BulksAppend(a: Argv, b: Argv)
    ensures Bulks(a + b) == Bulks(a) + Bulks(b)
  {
    hide Bulk;
    if a == [] {
      assert a + b == b;
    } else {
      assert (a + b)[1..] == a[1..] + b;
      BulksAppend(a[1..], b);
    }
  }

  /** The loop the four emitters share: a header whenever the count is zero, then the item.
      The bytes are those of `Batches`, so every header declares what is written behind it. */
  method RewriteObject(kind: Kind, key: string, elements: seq<Argv>) returns (out: string)
    requires Items(kind, elements)
    ensures out == Encode(Batches(kind, key, elements))
  {
    hide Bulk, Bulks, Encode, Batches, Flatten, Rest, Dec;
    out := "";
    var count, items := 0, |elements|;
    ghost var end := 0;
    ghost var whole := Encode(Batches(kind, key, elements));
    NothingPending(kind, key, elements);
    for j := 0 to |elements|
      invariant 0 <= count < ITEMS_PER_CMD && items == |elements| - j
      invariant j <= end <= |elements|
      invariant count == 0 ==> end == j
      invariant count > 0 ==> end == Min(j - count + ITEMS_PER_CMD, |elements|)
      invariant out + Rest(kind, key, elements, j, end) == whole
    {
      if count == 0 {
        var cmdItems := if items > ITEMS_PER_CMD then ITEMS_PER_CMD else items;
        HeaderOpens(kind, key, elements, j);
        end := j + cmdItems;
        var header := "*" + Dec(2 + cmdItems * Width(kind)) + "\r\n" + Bulk(Name(kind)) + Bulk(key);
        Assoc(out, header, Rest(kind, key, elements, j, end));
        out := out + header;
      }
      ItemWritten(kind, key, elements, j, end);
      Assoc(out, Bulks(elements[j]), Rest(kind, key, elements, j + 1, end));
      out := out + Bulks(elements[j]);
      count := count + 1;
      if count == ITEMS_PER_CMD { count := 0; }
      items := items - 1;
    }
    NothingLeftOver(kind, key, elements);
  }

  lemma Assoc(a: string, b: string, c: string)
    ensures a + (b + c) == (a + b) + c
  {
  }

  /** What is still to be written when item `j` of a batch that ends at `end` is next. */
  ghost function Rest(kind: Kind, key: string, elements: seq<Argv>, j: nat, end: nat): string
    requires j <= end <= |elements|
  {
    Bulks(Flatten(elements[j..end])) + Encode(Batches(kind, key, elements[end..]))
  }

  lemma NothingPending(kind: Kind, key: string, elements: seq<Argv>)
    ensures Rest(kind, key, elements, 0, 0) == Encode(Batches(kind, key, elements))
  {
    assert elements[0..0] == [] && elements[0..] == elements;
  }

  lemma NothingLeftOver(kind: Kind, key: string, elements: seq<Argv>)
    ensures Rest(kind, key, elements, |elements|, |elements|) == ""
  {
  }

  lemma TwoBulks(a: string, b: string, args: Argv)
    ensures Bulks([a, b] + args) == Bulk(a) + Bulk(b) + Bulks(args)
  {
    hide Bulk;
    BulksAppend([a, b], args);
    assert [a, b][1..] == [b] && [b][1..] == [];
    assert Bulks([b]) == Bulk(b) + Bulks([]);
  }

  lemma FirstBatch(kind: Kind, key: string, items: seq<Argv>)
    requires items != []
    ensures var n := Min(ITEMS_PER_CMD, |items|);
            Encode(Batches(kind, key, items))
            == EncodeCommand([Name(kind), key] + Flatten(items[..n])) + Encode(Batches(kind, key, items[n..]))
  {
    hide Flatten, EncodeCommand;
    var n := Min(ITEMS_PER_CMD, |items|);
    var (argv, rest) := ([Name(kind), key] + Flatten(items[..n]), Batches(kind, key, items[n..]));
    assert ([argv] + rest)[1..] == rest;
  }

  lemma HeaderOpens(kind: Kind, key: string, elements: seq<Argv>, j: nat)
    requires Items(kind, elements) && j < |elements|
    ensures var n := Min(ITEMS_PER_CMD, |elements| - j);
            Rest(kind, key, elements, j, j)
            == "*" + Dec(2 + n * Width(kind)) + "\r\n" + Bulk(Name(kind)) + Bulk(key) + Rest(kind, key, elements, j, j + n)
  {
    hide Bulk, Flatten, Encode, Batches, Dec, Bulks;
    var n := Min(ITEMS_PER_CMD, |elements| - j);
    var tail := elements[j..];
    assert tail[..n] == elements[j..j + n] && tail[n..] == elements[j + n..];
    FlattenLength(kind, elements[j..j + n]);
    var args := Flatten(elements[j..j + n]);
    NoBulks(elements, j);
    TwoBulks(Name(kind), key, args);
    FirstBatch(kind, key, tail);
  }

  lemma NoBulks(elements: seq<Argv>, j: nat)
    requires j <= |elements|
    ensures Bulks(Flatten(elements[j..j])) == ""
  {
    assert elements[j..j] == [];
  }

  lemma ItemWritten(kind: Kind, key: string, elements: seq<Argv>, j: nat, end: nat)
    requires j < end <= |elements|
    ensures Rest(kind, key, elements, j, end) == Bulks(elements[j]) + Rest(kind, key, elements, j + 1, end)
  {
    hide Encode, Batches, Bulks;
    assert elements[j..end][1..] == elements[j + 1..end];
    BulksAppend(elements[j], Flatten(elements[j + 1..end]));
  }

  // ---------- The commands' sizes ----------

  lemma DecShort(n: nat)
    requires n < 1000
    ensures |Dec(n)| <= 3
  {
    assert |Dec(n / 100)| == 1 && n / 10 / 10 == n / 100;
  }

  predicate Sized(items: seq<Argv>) {
    forall i, j :: 0 <= i < |items| && 0 <= j < |items[i]| ==> |Dec(|items[i][j]|)| <= 29
  }

  lemma {:induction false} FlattenSized(items: seq<Argv>)
    requires Sized(items)
    ensures forall j :: 0 <= j < |Flatten(items)| ==> |Dec(|Flatten(items)[j]|)| <= 29
  {
    if items != [] { FlattenSized(items[1..]); }
  }

  /** No command carries more than its share of items, and all of them can be loaded. */
  lemma {:induction false} BatchesBounded(kind: Kind, key: string, items: seq<Argv>)
    requires Items(kind, items) && Sized(items) && |Dec(|key|)| <= 29
    ensures forall i :: 0 <= i < |Batches(kind, key, items)| ==>
              var argv := Batches(kind, key, items)[i];
              && 2 < |argv| <= 2 + ITEMS_PER_CMD * Width(kind)
              && argv[0] == Name(kind) && argv[1] == key && Encodable(argv)
    decreases |items|
  {
    if items != [] {
      hide Flatten;
      var n := Min(ITEMS_PER_CMD, |items|);
      FlattenLength(kind, items[..n]);
      FlattenSized(items[..n]);
      var argv := [Name(kind), key] + Flatten(items[..n]);
      DecShort(|argv|);
      DecShort(|Name(kind)|);
      BatchesBounded(kind, key, items[n..]);
    }
  }

  // ---------- Replaying the commands ----------

  type Db = map<string, Value>

  /** Pairs read as an update of a map: `(name, value)` for HMSET, `(score, name)` for ZADD. */
  function PutPairs(kind: Kind, m: map<string, string>, args: Argv): map<string, string>
    decreases |args|
  {
    if |args| < 2 then m
    else PutPairs(kind, if kind.ZAdd? then m[args[1] := args[0]] else m[args[0] := args[1]], args[2..])
  }

  function Empty(kind: Kind): Value {
    match kind
    case RPush => ListValue([]) case SAdd => SetValue({})
    case ZAdd => ZsetValue(map[]) case HMSet => HashValue(map[])
  }

  predicate HasType(kind: Kind, v: Value) {
    match kind
    case RPush => v.ListValue? case SAdd => v.SetValue? case ZAdd => v.ZsetValue? case HMSet => v.HashValue?
  }

  function Add(kind: Kind, v: Value, args: Argv): Value
    requires HasType(kind, v)
  {
    match kind
    case RPush => ListValue(v.items + args)
    case SAdd => SetValue(v.members + set a | a in args)
    case ZAdd => ZsetValue(PutPairs(kind, v.scores, args))
    case HMSet => HashValue(PutPairs(kind, v.fields, args))
  }

  /** The command a name stands for, in any case, among the four. */
  function KindOf(name: string): Option<Kind> {
    var n := Lower(name);
    if n == "rpush" then Some(RPush) else if n == "sadd" then Some(SAdd)
    else if n == "zadd" then Some(ZAdd) else if n == "hmset" then Some(HMSet) else None
  }

  /** One command on the keyspace. Too few arguments, half a pair or a key of another type is an
      error reply. */
  function Execute(db: Db, argv: Argv): Db {
    if |argv| < 3 then db
    else
      match KindOf(argv[0])
      case None => db
      case Some(kind) =>
        var v := if argv[1] in db then db[argv[1]] else Empty(kind);
        if HasType(kind, v) && (|argv| - 2) % Width(kind) == 0 then db[argv[1] := Add(kind, v, argv[2..])] else db
  }

  function ExecuteAll(db: Db, cmds: seq<Argv>): Db
    decreases |cmds|
  {
    if cmds == [] then db else ExecuteAll(Execute(db, cmds[0]), cmds[1..])
  }

  lemma NameFound(kind: Kind)
    ensures KindOf(Name(kind)) == Some(kind)
  {
    match kind
    case RPush => assert Lower("RPUSH") == "rpush";
    case SAdd => assert Lower("SADD") == "sadd";
    case ZAdd => assert Lower("ZADD") == "zadd";
    case HMSet => assert Lower("HMSET") == "hmset";
  }

  lemma {:induction false} PutPairsAppend(kind: Kind, m: map<string, string>, a: Argv, b: Argv)
    requires |a| % 2 == 0
    ensures PutPairs(kind, m, a + b) == PutPairs(kind, PutPairs(kind, m, a), b)
    decreases |a|
  {
    if a == [] {
      assert a + b == b;
    } else {
      assert (a + b)[2..] == a[2..] + b;
      PutPairsAppend(kind, if kind.ZAdd? then m[a[1] := a[0]] else m[a[0] := a[1]], a[2..], b);
    }
  }

  lemma AddAppend(kind: Kind, v: Value, a: Argv, b: Argv)
    requires HasType(kind, v) && |a| % Width(kind) == 0
    ensures Add(kind, Add(kind, v, a), b) == Add(kind, v, a + b)
  {
    match kind
    case RPush => assert v.items + a + b == v.items + (a + b);
    case SAdd => assert (set x | x in a) + (set x | x in b) == set x | x in a + b;
    case ZAdd => PutPairsAppend(kind, v.scores, a, b);
    case HMSet => PutPairsAppend(kind, v.fields, a, b);
  }

  lemma {:induction false} FlattenAppend(a: seq<Argv>, b: seq<Argv>)
    ensures Flatten(a + b) == Flatten(a) + Flatten(b)
  {
    if a == [] {
      assert a + b == b;
    } else {
      assert (a + b)[1..] == a[1..] + b;
      FlattenAppend(a[1..], b);
    }
  }

  /** Replaying the batches adds all the items to the key's value, in order. */
  lemma {:induction false} ReplayBatches(kind: Kind, key: string, items: seq<Argv>, db: Db, v: Value)
    requires Items(kind, items) && HasType(kind, v)
    requires if key in db then db[key] == v else v == Empty(kind)
    ensures ExecuteAll(db, Batches(kind, key, items))
         == if items == [] then db else db[key := Add(kind, v, Flatten(items))]
    decreases |items|
  {
    BatchesParts(kind, key, items);
    hide Flatten, Add, Execute, ExecuteAll, HasType, Empty, Width, Batches, Items;
    if items == [] {
      NothingExecuted(db);
    } else {
      var n := Min(ITEMS_PER_CMD, |items|);
      var args := Flatten(items[..n]);
      ExecuteOne(kind, key, args, db, v);
      ReplayBatches(kind, key, items[n..], db[key := Add(kind, v, args)], Add(kind, v, args));
      FirstExecuted(db, [Name(kind), key] + args, Batches(kind, key, items[n..]));
      SplitItems(kind, v, items, n);
      if items[n..] == [] { assert items[..n] == items; }
    }
  }

  lemma NothingExecuted(db: Db)
    ensures ExecuteAll(db, []) == db
  {
  }

  lemma BatchesParts(kind: Kind, key: string, items: seq<Argv>)
    requires Items(kind, items)
    ensures items == [] ==> Batches(kind, key, items) == []
    ensures items != [] ==>
              var n := Min(ITEMS_PER_CMD, |items|);
              var args := Flatten(items[..n]);
              && Batches(kind, key, items) == [[Name(kind), key] + args] + Batches(kind, key, items[n..])
              && Items(kind, items[..n]) && Items(kind, items[n..]) && args != [] && |args| % Width(kind) == 0
  {
    if items != [] { WholeItems(kind, items[..Min(ITEMS_PER_CMD, |items|)]); }
  }

  lemma WholeItems(kind: Kind, items: seq<Argv>)
    requires Items(kind, items)
    ensures |Flatten(items)| % Width(kind) == 0 && (items != [] ==> Flatten(items) != [])
  {
    hide Flatten;
    FlattenLength(kind, items);
  }

  lemma SplitItems(kind: Kind, v: Value, items: seq<Argv>, n: nat)
    requires HasType(kind, v) && Items(kind, items) && n <= |items|
    ensures HasType(kind, Add(kind, v, Flatten(items[..n])))
    ensures Add(kind, Add(kind, v, Flatten(items[..n])), Flatten(items[n..])) == Add(kind, v, Flatten(items))
  {
    hide Flatten;
    WholeItems(kind, items[..n]);
    assert items == items[..n] + items[n..];
    FlattenAppend(items[..n], items[n..]);
    AddAppend(kind, v, Flatten(items[..n]), Flatten(items[n..]));
  }

  lemma ExecuteOne(kind: Kind, key: string, args: Argv, db: Db, v: Value)
    requires HasType(kind, v) && args != [] && |args| % Width(kind) == 0
    requires if key in db then db[key] == v else v == Empty(kind)
    ensures Execute(db, [Name(kind), key] + args) == db[key := Add(kind, v, args)]
    ensures HasType(kind, Add(kind, v, args))
  {
    hide KindOf;
    NameFound(kind);
    assert ([Name(kind), key] + args)[2..] == args;
  }

  lemma FirstExecuted(db: Db, argv: Argv, rest: seq<Argv>)
    ensures ExecuteAll(db, [argv] + rest) == ExecuteAll(Execute(db, argv), rest)
  {
    hide Execute;
    assert ([argv] + rest)[1..] == rest;
  }

  // ---------- Every value comes back ----------

  /** `items` lists the value as the emitter's iterator does: a list in order, a set, sorted
      set or hash in any order. */
  ghost predicate Lists(kind: Kind, items: seq<Argv>, v: Value) {
    && HasType(kind, v) && Items(kind, items)
    && match kind
       case RPush => |items| == |v.items| && forall i :: 0 <= i < |items| ==> items[i] == [v.items[i]]
       case SAdd => forall x :: x in v.members <==> [x] in items
       case ZAdd =>
         && (forall x :: x in v.scores ==> [v.scores[x], x] in items)
         && (forall i :: 0 <= i < |items| ==> items[i][1] in v.scores && v.scores[items[i][1]] == items[i][0])
       case HMSet =>
         && (forall x :: x in v.fields ==> [x, v.fields[x]] in items)
         && (forall i :: 0 <= i < |items| ==> items[i][0] in v.fields && v.fields[items[i][0]] == items[i][1])
  }

  lemma {:induction false} FlattenSingles(items: seq<Argv>)
    requires forall i :: 0 <= i < |items| ==> |items[i]| == 1
    ensures |Flatten(items)| == |items| && forall i :: 0 <= i < |items| ==> items[i] == [Flatten(items)[i]]
  {
    if items != [] { FlattenSingles(items[1..]); }
  }

  /** Pairs that agree with `m` build the part of `m` they name. */
  lemma {:induction false} PairsBuild(kind: Kind, items: seq<Argv>, done: map<string, string>, m: map<string, string>)
    requires !kind.RPush? && !kind.SAdd? && Items(kind, items)
    requires forall i :: 0 <= i < |items| ==>
               var (x, y) := if kind.ZAdd? then (items[i][1], items[i][0]) else (items[i][0], items[i][1]);
               x in m && m[x] == y
    requires forall x :: x in done ==> x in m && m[x] == done[x]
    ensures var r := PutPairs(kind, done, Flatten(items));
            && (forall x :: x in r ==> x in m && m[x] == r[x])
            && (forall x :: x in done ==> x in r)
            && (forall i :: 0 <= i < |items| ==> (if kind.ZAdd? then items[i][1] else items[i][0]) in r)
    decreases |items|
  {
    if items != [] {
      var first := items[0];
      var done1 := if kind.ZAdd? then done[first[1] := first[0]] else done[first[0] := first[1]];
      PairsBuild(kind, items[1..], done1, m);
      assert Flatten(items)[2..] == Flatten(items[1..]);
      var key := if kind.ZAdd? then first[1] else first[0];
      assert key in done1;
      forall i | 0 <= i < |items|
        ensures (if kind.ZAdd? then items[i][1] else items[i][0]) in PutPairs(kind, done1, Flatten(items[1..]))
      {
        if i > 0 { assert items[i] == items[1..][i - 1]; }
      }
    }
  }

  lemma PairsComplete(kind: Kind, items: seq<Argv>, m: map<string, string>)
    requires (kind.ZAdd? && Lists(kind, items, ZsetValue(m))) || (kind.HMSet? && Lists(kind, items, HashValue(m)))
    ensures PutPairs(kind, map[], Flatten(items)) == m
  {
    PairsBuild(kind, items, map[], m);
    var r := PutPairs(kind, map[], Flatten(items));
    forall x | x in m ensures x in r {
      var pair := if kind.ZAdd? then [m[x], x] else [x, m[x]];
      assert pair in items;
      var i :| 0 <= i < |items| && items[i] == pair;
    }
  }

  /** Adding the listed items to an empty value gives the value. */
  lemma AddRebuilds(kind: Kind, items: seq<Argv>, v: Value)
    requires Lists(kind, items, v)
    ensures Add(kind, Empty(kind), Flatten(items)) == v
  {
    match kind
    case RPush =>
      FlattenSingles(items);
      assert forall i :: 0 <= i < |items| ==> [v.items[i]][0] == [Flatten(items)[i]][0];
      assert [] + Flatten(items) == v.items;
    case SAdd =>
      FlattenSingles(items);
      forall x ensures x in v.members <==> x in Flatten(items) {
        if x in v.members {
          var i :| 0 <= i < |items| && items[i] == [x];
          assert items[i] == [Flatten(items)[i]];
          assert [x][0] == [Flatten(items)[i]][0];
        }
        if x in Flatten(items) {
          var i :| 0 <= i < |items| && Flatten(items)[i] == x;
          assert items[i] == [x];
        }
      }
      assert {} + (set a | a in Flatten(items)) == v.members;
    case ZAdd => PairsComplete(kind, items, v.scores);
    case HMSet => PairsComplete(kind, items, v.fields);
  }

  /** The bytes an emitter writes for a value of any size load without error, as commands that
      each carry at most the allowed number of items and together rebuild the value. */
  lemma EmittedValueLoads(table: Table, kind: Kind, key: string, items: seq<Argv>, v: Value)
    requires Lists(kind, items, v) && items != []
    requires Sized(items) && |Dec(|key|)| <= 29
    requires forall argv: Argv :: argv != [] && argv[0] == Name(kind) ==> table(argv).Other?
    ensures var r := LoadFile(table, true, Encode(Batches(kind, key, items)));
            && r.ret == AofOk
            && (forall i :: 0 <= i < |r.done| ==> |r.done[i]| <= 2 + ITEMS_PER_CMD * Width(kind))
            && ExecuteAll(map[], r.done) == map[key := v]
  {
    hide LoadFile, Effective, ExecuteAll, Encode, Flatten, Add;
    var cmds := Batches(kind, key, items);
    BatchesBounded(kind, key, items);
    AllEffective(table, cmds);
    LoadWhole(table, cmds);
    ReplayBatches(kind, key, items, map[], Empty(kind));
    AddRebuilds(kind, items, v);
  }
}
