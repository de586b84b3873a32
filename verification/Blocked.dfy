/** Clients blocked on keys (blocked.c): the index from keys to waiting clients and back, the
    count of waiters that also want deletions, the counters per type, and the pass that serves
    the waiters of a ready key. */
module Blocked {

  type ClientId = nat
  /** A key with its database. */
  type Key = (nat, string)

  datatype BlockType = NoBlock | ListType | ZsetType | StreamType | Postponed

  predicate KeyType(t: BlockType) { t.ListType? || t.ZsetType? || t.StreamType? }

  /** The blocking state of a client. `keys` maps each key it waits for to its list node. */
  datatype Client = Client(blocked: bool, btype: BlockType, keys: map<Key, nat>, unblockOnNokey: bool,
                           pendingCommand: bool, unblockedFlag: bool)

  /** A node of a waiting list. */
  datatype Waiter = Waiter(node: nat, client: ClientId)

  /** `blocking_keys`, `blocking_keys_unblock_on_nokey` and the clients' own tables. */
  datatype Index = Index(clients: map<ClientId, Client>, lists: map<Key, seq<Waiter>>, nokey: map<Key, nat>)

  function ListOf(lists: map<Key, seq<Waiter>>, k: Key): seq<Waiter> {
    if k in lists then lists[k] else []
  }

  /** How many waiters want to hear of a deletion. */
  function CountNokey(l: seq<Waiter>, clients: map<ClientId, Client>): nat {
    if l == [] then 0
    else CountNokey(l[..|l| - 1], clients)
         + if l[|l| - 1].client in clients && clients[l[|l| - 1].client].unblockOnNokey then 1 else 0
  }

  ghost predicate DistinctNodes(l: seq<Waiter>) {
    forall i, j :: 0 <= i < j < |l| ==> l[i].node != l[j].node
  }

  /** No waiting list is empty, and its nodes differ. */
  ghost predicate GoodLists(lists: map<Key, seq<Waiter>>) {
    forall k :: k in lists ==> lists[k] != [] && DistinctNodes(lists[k])
  }

  /** The client of a waiter has the key in its table, with that node. */
  predicate Holds(clients: map<ClientId, Client>, k: Key, w: Waiter) {
    w.client in clients && k in clients[w.client].keys && clients[w.client].keys[k] == w.node
  }

  ghost predicate Listed(clients: map<ClientId, Client>, lists: map<Key, seq<Waiter>>) {
    forall k, i :: k in lists && 0 <= i < |lists[k]| ==> Holds(clients, k, lists[k][i])
  }

  /** Every key of a client's table has the client in its list, at that node. */
  ghost predicate Registered(clients: map<ClientId, Client>, lists: map<Key, seq<Waiter>>) {
    forall c, k :: c in clients && k in clients[c].keys ==>
      k in lists && Waiter(clients[c].keys[k], c) in lists[k]
  }

  /** A client stands in a key's list exactly when the key is in its table, with that node. */
  ghost predicate Agrees(ix: Index) {
    GoodLists(ix.lists) && Listed(ix.clients, ix.lists) && Registered(ix.clients, ix.lists)
  }

  /** What the side table must hold for one key. */
  ghost predicate CountedAt(ix: Index, k: Key) {
    && (k in ix.nokey <==> CountNokey(ListOf(ix.lists, k), ix.clients) > 0)
    && (k in ix.nokey ==> ix.nokey[k] == CountNokey(ListOf(ix.lists, k), ix.clients))
  }

  /** The side table counts the waiters that want deletions, and has no zero entries. */
  ghost predicate Counted(ix: Index) {
    forall k :: CountedAt(ix, k)
  }

  ghost predicate IndexInv(ix: Index) { Agrees(ix) && Counted(ix) }

  // ---------- Adding and releasing one entry ----------

  function PutCount(nokey: map<Key, nat>, k: Key, n: nat): map<Key, nat> {
    if n == 0 then nokey - {k} else nokey[k := n]
  }

  /** One round of the loop of `blockForKeys`. */
  function AddEntry(ix: Index, c: ClientId, k: Key, node: nat, flag: bool): Index
    requires c in ix.clients
  {
    var cl := ix.clients[c];
    Index(ix.clients[c := cl.(keys := cl.keys[k := node])],
          ix.lists[k := ListOf(ix.lists, k) + [Waiter(node, c)]],
          if !flag then ix.nokey
          else ix.nokey[k := if k in ix.nokey then ix.nokey[k] + 1 else 1])
  }

  function NodeIndex(l: seq<Waiter>, node: nat): (i: nat)
    ensures i <= |l| && (i < |l| ==> l[i].node == node) && (forall j :: 0 <= j < i ==> l[j].node != node)
  {
    if l == [] || l[0].node == node then 0
    else
      assert l == [l[0]] + l[1..];
      1 + NodeIndex(l[1..], node)
  }

  function Unlink(l: seq<Waiter>, node: nat): seq<Waiter> {
    var i := NodeIndex(l, node);
    if i < |l| then l[..i] + l[i + 1..] else l
  }

  /** An emptied list is dropped together with its key. */
  function PutList(lists: map<Key, seq<Waiter>>, k: Key, l: seq<Waiter>): map<Key, seq<Waiter>> {
    if l == [] then lists - {k} else lists[k := l]
  }

  function DropKey(clients: map<ClientId, Client>, c: ClientId, k: Key): map<ClientId, Client>
    requires c in clients
  {
    clients[c := clients[c].(keys := clients[c].keys - {k})]
  }

  /** The side table after a waiter left, and `l` is what remains of the list. */
  function ReleaseCount(nokey: map<Key, nat>, k: Key, l: seq<Waiter>, flag: bool): map<Key, nat> {
    if l == [] then nokey - {k}
    else if flag && k in nokey && nokey[k] > 0 then PutCount(nokey, k, nokey[k] - 1)
    else nokey
  }

  /** `releaseBlockedEntry` with the key removed from the client's table. */
  function ReleaseEntry(ix: Index, c: ClientId, k: Key): Index
    requires c in ix.clients && k in ix.clients[c].keys
  {
    var cl := ix.clients[c];
    var l := Unlink(ListOf(ix.lists, k), cl.keys[k]);
    Index(DropKey(ix.clients, c, k), PutList(ix.lists, k, l), ReleaseCount(ix.nokey, k, l, cl.unblockOnNokey))
  }

  // ---------- Counting ----------

  lemma {:induction false} CountSame(l: seq<Waiter>, a: map<ClientId, Client>, b: map<ClientId, Client>)
    requires forall i :: 0 <= i < |l| ==>
               (l[i].client in a && a[l[i].client].unblockOnNokey <==> l[i].client in b && b[l[i].client].unblockOnNokey)
    ensures CountNokey(l, a) == CountNokey(l, b)
  {
    if l != [] { CountSame(l[..|l| - 1], a, b); }
  }

  lemma CountMore(l: seq<Waiter>, w: Waiter, clients: map<ClientId, Client>)
    ensures CountNokey(l + [w], clients)
         == CountNokey(l, clients) + if w.client in clients && clients[w.client].unblockOnNokey then 1 else 0
  {
    assert (l + [w])[..|l|] == l;
  }

  lemma {:induction false} CountWithout(l: seq<Waiter>, i: nat, clients: map<ClientId, Client>)
    requires i < |l|
    ensures CountNokey(l[..i] + l[i + 1..], clients)
         == CountNokey(l, clients) - if l[i].client in clients && clients[l[i].client].unblockOnNokey then 1 else 0
  {
    var last := |l| - 1;
    if i == last {
      assert l[..i] + l[i + 1..] == l[..last];
    } else {
      var init := l[..last];
      CountWithout(init, i, clients);
      assert l[..i] + l[i + 1..] == init[..i] + init[i + 1..] + [l[last]];
      CountMore(init[..i] + init[i + 1..], l[last], clients);
    }
  }

  lemma CountDropKey(l: seq<Waiter>, clients: map<ClientId, Client>, c: ClientId, k: Key)
    requires c in clients
    ensures CountNokey(l, DropKey(clients, c, k)) == CountNokey(l, clients)
  {
    CountSame(l, clients, DropKey(clients, c, k));
  }

  lemma ListOfPut(lists: map<Key, seq<Waiter>>, k: Key, l: seq<Waiter>, x: Key)
    ensures ListOf(PutList(lists, k, l), x) == if x == k then l else ListOf(lists, x)
  {
  }

  lemma ReleaseCountAt(nokey: map<Key, nat>, k: Key, l: seq<Waiter>, flag: bool, x: Key)
    ensures var r := ReleaseCount(nokey, k, l, flag);
            && (x != k ==> (x in r <==> x in nokey) && (x in r ==> r[x] == nokey[x]))
            && (l == [] ==> k !in r)
            && (l != [] && !flag ==> r == nokey)
            && (l != [] && flag && k in nokey && nokey[k] > 0 ==>
                  (k in r <==> nokey[k] > 1) && (k in r ==> r[k] == nokey[k] - 1))
  {
  }

  // ---------- The two steps keep the index ----------

  lemma AddAgrees(ix: Index, c: ClientId, k: Key, node: nat, flag: bool)
    requires Agrees(ix) && c in ix.clients && k !in ix.clients[c].keys
    requires forall i :: 0 <= i < |ListOf(ix.lists, k)| ==> ListOf(ix.lists, k)[i].node != node
    ensures Agrees(AddEntry(ix, c, k, node, flag))
  {
    var ix' := AddEntry(ix, c, k, node, flag);
    var l := ListOf(ix.lists, k);
    assert ix'.lists[k] == l + [Waiter(node, c)];
    forall x, j | x in ix'.lists && 0 <= j < |ix'.lists[x]|
      ensures Holds(ix'.clients, x, ix'.lists[x][j])
    {
      if x == k {
        if j < |l| { assert ix'.lists[x][j] == ix.lists[x][j]; }
      } else {
        assert ix'.lists[x] == ix.lists[x];
      }
    }
    forall d, x | d in ix'.clients && x in ix'.clients[d].keys
      ensures x in ix'.lists && Waiter(ix'.clients[d].keys[x], d) in ix'.lists[x]
    {
      if d == c && x == k {
        assert ix'.lists[k][|l|] == Waiter(node, c);
      } else {
        assert x in ix.clients[d].keys && Waiter(ix.clients[d].keys[x], d) in ix.lists[x];
      }
    }
  }

  lemma AddCounted(ix: Index, c: ClientId, k: Key, node: nat, flag: bool)
    requires Counted(ix) && c in ix.clients && ix.clients[c].unblockOnNokey == flag
    ensures Counted(AddEntry(ix, c, k, node, flag))
  {
    var ix' := AddEntry(ix, c, k, node, flag);
    forall x ensures CountedAt(ix', x) {
      assert CountedAt(ix, x);
      CountSame(ListOf(ix'.lists, x), ix.clients, ix'.clients);
      if x == k {
        CountMore(ListOf(ix.lists, k), Waiter(node, c), ix.clients);
      }
    }
  }

  lemma UnlinkAt(ix: Index, c: ClientId, k: Key)
    requires Agrees(ix) && c in ix.clients && k in ix.clients[c].keys
    ensures k in ix.lists
    ensures var (l, i) := (ix.lists[k], NodeIndex(ix.lists[k], ix.clients[c].keys[k]));
            i < |l| && l[i] == Waiter(ix.clients[c].keys[k], c) && Unlink(l, ix.clients[c].keys[k]) == l[..i] + l[i + 1..]
  {
    var l := ix.lists[k];
    var j :| 0 <= j < |l| && l[j] == Waiter(ix.clients[c].keys[k], c);
    assert !(j < NodeIndex(l, ix.clients[c].keys[k]));
  }

  lemma CutListed(clients: map<ClientId, Client>, lists: map<Key, seq<Waiter>>, c: ClientId, k: Key, i: nat)
    requires Listed(clients, lists) && GoodLists(lists)
    requires c in clients && k in lists && i < |lists[k]| && lists[k][i].client == c
    ensures Listed(DropKey(clients, c, k), PutList(lists, k, lists[k][..i] + lists[k][i + 1..]))
  {
    var l := lists[k];
    var l' := l[..i] + l[i + 1..];
    var clients' := DropKey(clients, c, k);
    var lists' := PutList(lists, k, l');
    forall x, j | x in lists' && 0 <= j < |lists'[x]|
      ensures Holds(clients', x, lists'[x][j])
    {
      if x == k {
        assert l'[j] == l[if j < i then j else j + 1];
        assert Holds(clients, k, l[i]) && Holds(clients, k, l'[j]);
      } else {
        assert Holds(clients, x, lists[x][j]);
      }
    }
  }

  lemma CutRegistered(clients: map<ClientId, Client>, lists: map<Key, seq<Waiter>>, c: ClientId, k: Key, i: nat)
    requires Registered(clients, lists)
    requires c in clients && k in lists && i < |lists[k]| && lists[k][i].client == c
    ensures Registered(DropKey(clients, c, k), PutList(lists, k, lists[k][..i] + lists[k][i + 1..]))
  {
    var l := lists[k];
    var l' := l[..i] + l[i + 1..];
    var clients' := DropKey(clients, c, k);
    var lists' := PutList(lists, k, l');
    forall d, x | d in clients' && x in clients'[d].keys
      ensures x in lists' && Waiter(clients'[d].keys[x], d) in lists'[x]
    {
      var w := Waiter(clients[d].keys[x], d);
      assert w in lists[x];
      if x == k {
        var j :| 0 <= j < |l| && l[j] == w;
        assert l'[if j < i then j else j - 1] == w;
      }
    }
  }

  lemma CutGood(lists: map<Key, seq<Waiter>>, k: Key, i: nat)
    requires GoodLists(lists) && k in lists && i < |lists[k]|
    ensures GoodLists(PutList(lists, k, lists[k][..i] + lists[k][i + 1..]))
  {
    var l := lists[k];
    var l' := l[..i] + l[i + 1..];
    forall a, b | 0 <= a < b < |l'| ensures l'[a].node != l'[b].node {
      assert l'[a] == l[if a < i then a else a + 1] && l'[b] == l[if b < i then b else b + 1];
    }
  }

  lemma ReleaseAgrees(ix: Index, c: ClientId, k: Key)
    requires Agrees(ix) && c in ix.clients && k in ix.clients[c].keys
    ensures Agrees(ReleaseEntry(ix, c, k))
  {
    UnlinkAt(ix, c, k);
    var i := NodeIndex(ix.lists[k], ix.clients[c].keys[k]);
    hide Unlink, NodeIndex, GoodLists, Listed, Registered, PutList, DropKey;
    CutGood(ix.lists, k, i);
    CutListed(ix.clients, ix.lists, c, k, i);
    CutRegistered(ix.clients, ix.lists, c, k, i);
  }

  lemma ReleaseCountedAt(ix: Index, c: ClientId, k: Key)
    requires IndexInv(ix) && c in ix.clients && k in ix.clients[c].keys
    ensures CountedAt(ReleaseEntry(ix, c, k), k)
    ensures ix.clients[c].unblockOnNokey ==> k in ix.nokey && ix.nokey[k] > 0
  {
    UnlinkAt(ix, c, k);
    var l := ix.lists[k];
    var i := NodeIndex(l, ix.clients[c].keys[k]);
    assert CountedAt(ix, k);
    var l' := l[..i] + l[i + 1..];
    CountWithout(l, i, ix.clients);
    assert l' == [] ==> CountNokey(l', ix.clients) == 0;
    hide Unlink, NodeIndex, GoodLists, Listed, Registered, Counted, CountNokey, PutList, DropKey, ReleaseCount;
    CountDropKey(l', ix.clients, c, k);
    ListOfPut(ix.lists, k, l', k);
    ReleaseCountAt(ix.nokey, k, l', ix.clients[c].unblockOnNokey, k);
  }

  lemma ReleaseCounted(ix: Index, c: ClientId, k: Key)
    requires IndexInv(ix) && c in ix.clients && k in ix.clients[c].keys
    ensures Counted(ReleaseEntry(ix, c, k))
  {
    ReleaseCountedAt(ix, c, k);
    var l := Unlink(ListOf(ix.lists, k), ix.clients[c].keys[k]);
    hide Unlink, PutList, DropKey, ReleaseCount, Agrees, CountNokey, ListOf;
    forall x ensures CountedAt(ReleaseEntry(ix, c, k), x) {
      assert CountedAt(ix, x);
      CountDropKey(ListOf(ix.lists, x), ix.clients, c, k);
      ListOfPut(ix.lists, k, l, x);
      ReleaseCountAt(ix.nokey, k, l, ix.clients[c].unblockOnNokey, x);
    }
  }

  /** Two entries of a list never belong to the same client. */
  lemma WaitsOnce(ix: Index, k: Key, i: nat, j: nat)
    requires Agrees(ix) && k in ix.lists && i < j < |ix.lists[k]|
    ensures ix.lists[k][i].client != ix.lists[k][j].client
  {
  }

  // ---------- Counters ----------

  function BlockedOf(clients: map<ClientId, Client>, t: BlockType): set<ClientId> {
    set c | c in clients && clients[c].blocked && clients[c].btype == t
  }

  function BlockedAll(clients: map<ClientId, Client>): set<ClientId> {
    set c | c in clients && clients[c].blocked
  }

  /** The counter of each type is the number of clients blocked with it; the total counts all. */
  ghost predicate Tallied(clients: map<ClientId, Client>, byType: map<BlockType, int>, total: int) {
    && (forall t :: t in byType && byType[t] == |BlockedOf(clients, t)|)
    && total == |BlockedAll(clients)|
  }

  /** A client waits for keys only while blocked with a key type, and then has a command to redo. */
  ghost predicate GoodFlags(clients: map<ClientId, Client>) {
    forall c :: c in clients ==>
      var cl := clients[c];
      && (cl.blocked <==> !cl.btype.NoBlock?)
      && (!KeyType(cl.btype) ==> cl.keys == map[] && !cl.unblockOnNokey)
      && (KeyType(cl.btype) ==> cl.pendingCommand)
  }

  lemma TallySame(a: map<ClientId, Client>, b: map<ClientId, Client>, byType: map<BlockType, int>, total: int)
    requires Tallied(a, byType, total) && a.Keys == b.Keys
    requires forall c :: c in a ==> a[c].blocked == b[c].blocked && a[c].btype == b[c].btype
    ensures Tallied(b, byType, total)
  {
    assert BlockedAll(a) == BlockedAll(b);
    forall t ensures BlockedOf(a, t) == BlockedOf(b, t) {}
  }

  /** Blocking one more client adds one to the total ... */
  lemma OneMore(clients: map<ClientId, Client>, c: ClientId, cl: Client)
    requires c in clients && !clients[c].blocked && cl.blocked
    ensures |BlockedAll(clients[c := cl])| == |BlockedAll(clients)| + 1
  {
    assert BlockedAll(clients[c := cl]) == BlockedAll(clients) + {c};
  }

  /** ... and one to its type. */
  lemma OneMoreOf(clients: map<ClientId, Client>, c: ClientId, cl: Client, t: BlockType)
    requires c in clients && !clients[c].blocked && cl.blocked
    ensures |BlockedOf(clients[c := cl], t)| == |BlockedOf(clients, t)| + if t == cl.btype then 1 else 0
  {
    var (was, now) := (BlockedOf(clients, t), BlockedOf(clients[c := cl], t));
    assert c !in was;
    if t == cl.btype {
      assert now == was + {c};
    } else {
      assert now == was;
    }
  }

  lemma TallyBlock(clients: map<ClientId, Client>, c: ClientId, cl: Client, byType: map<BlockType, int>, total: int)
    requires Tallied(clients, byType, total) && c in clients && !clients[c].blocked && cl.blocked
    ensures Tallied(clients[c := cl], byType[cl.btype := byType[cl.btype] + 1], total + 1)
  {
    hide BlockedOf, BlockedAll;
    OneMore(clients, c, cl);
    forall t { OneMoreOf(clients, c, cl, t); }
  }

  lemma TallyUnblock(clients: map<ClientId, Client>, c: ClientId, cl: Client, byType: map<BlockType, int>, total: int)
    requires Tallied(clients, byType, total) && c in clients && clients[c].blocked && !cl.blocked
    ensures var t := clients[c].btype; Tallied(clients[c := cl], byType[t := byType[t] - 1], total - 1)
  {
    hide BlockedOf, BlockedAll;
    var clients' := clients[c := cl];
    assert clients'[c := clients[c]] == clients;
    OneMore(clients', c, clients[c]);
    forall t { OneMoreOf(clients', c, clients[c], t); }
  }

  // ---------- Queues ----------

  ghost predicate NoRepeats<T>(s: seq<T>) {
    forall i, j :: 0 <= i < j < |s| ==> s[i] != s[j]
  }

  /** The queue of unblocked clients holds each flagged client once. */
  ghost predicate QueueMatches(clients: map<ClientId, Client>, queue: seq<ClientId>) {
    NoRepeats(queue) && forall c :: c in queue <==> c in clients && clients[c].unblockedFlag
  }

  /** The list of postponed clients holds each of them once. */
  ghost predicate PostponedMatches(clients: map<ClientId, Client>, list: seq<ClientId>) {
    NoRepeats(list) && forall c :: c in list <==> c in clients && clients[c].btype == Postponed
  }

  ghost predicate NodesBelow(lists: map<Key, seq<Waiter>>, next: nat) {
    forall k, i :: k in lists && 0 <= i < |lists[k]| ==> lists[k][i].node < next
  }

  function Without(s: seq<ClientId>, c: ClientId): (r: seq<ClientId>) {
    if s == [] then [] else if s[0] == c then s[1..] else [s[0]] + Without(s[1..], c)
  }

  lemma {:induction false} WithoutOnce(s: seq<ClientId>, c: ClientId)
    requires NoRepeats(s)
    ensures NoRepeats(Without(s, c))
    ensures forall d :: d in Without(s, c) <==> d in s && d != c
  {
    if s != [] {
      WithoutOnce(s[1..], c);
      assert s == [s[0]] + s[1..];
      assert s[0] !in s[1..];
    }
  }

  /** What one reprocessed command does to the blocking state. */
  datatype Outcome = Done(signals: seq<Signal>)
                   | BlockAgain(signals: seq<Signal>, btype: BlockType, keys: seq<Key>, nokey: bool)
  datatype Signal = Signal(key: Key, objType: BlockType, deleted: bool)

  ghost predicate GoodOutcomes(outcomes: nat -> Outcome) {
    forall i :: outcomes(i).BlockAgain? ==> KeyType(outcomes(i).btype)
  }

  /** What is left of a client whose command was redone. */
  ghost predicate Redone(cl: Client, outcome: Outcome) {
    && (cl.blocked <==> outcome.BlockAgain?)
    && (forall k :: k in cl.keys <==> outcome.BlockAgain? && k in outcome.keys)
    && (outcome.BlockAgain? ==> cl.btype == outcome.btype && cl.unblockOnNokey == outcome.nokey)
    && (outcome.Done? ==> cl.unblockedFlag)
  }

  /** A client waits for what a signal tells. */
  predicate Needs(clients: map<ClientId, Client>, c: ClientId, signal: Signal) {
    && c in clients && signal.key in clients[c].keys && clients[c].btype == signal.objType
    && (signal.deleted ==> clients[c].unblockOnNokey)
  }

  /** Every key signalled that one of the clients waits for is queued. */
  ghost predicate Heard(clients: map<ClientId, Client>, signals: seq<Signal>, readyKeys: set<Key>) {
    forall i, c :: 0 <= i < |signals| && Needs(clients, c, signals[i]) ==> signals[i].key in readyKeys
  }
}
