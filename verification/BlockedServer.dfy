/** The blocking state of the server and the functions of blocked.c that change it. */
module BlockedServer {
  import opened Text
  import opened Blocked
  import opened FairPass

  /** The index as if the client already carried the flag it is being blocked with. */
  function Flagged(ix: Index, c: ClientId, flag: bool): Index
    requires c in ix.clients
  {
    ix.(clients := ix.clients[c := ix.clients[c].(unblockOnNokey := flag)])
  }

  /** The index as if the client waited only for the keys still to be released. */
  function Restricted(ix: Index, c: ClientId, todo: set<Key>): Index
    requires c in ix.clients && todo <= ix.clients[c].keys.Keys
  {
    ix.(clients := ix.clients[c := ix.clients[c].(keys := map k | k in todo :: ix.clients[c].keys[k])])
  }

  /** The client stands at the tail of the lists of exactly these keys, behind all who waited. */
  ghost predicate Joined(was: map<Key, seq<Waiter>>, now: map<Key, seq<Waiter>>, c: ClientId, keys: map<Key, nat>) {
    forall k :: ListOf(now, k) == ListOf(was, k) + if k in keys then [Waiter(keys[k], c)] else []
  }

  /** The lists of exactly these keys lost one node each. */
  ghost predicate Left(was: map<Key, seq<Waiter>>, now: map<Key, seq<Waiter>>, keys: map<Key, nat>) {
    forall k :: ListOf(now, k) == if k in keys then Unlink(ListOf(was, k), keys[k]) else ListOf(was, k)
  }

  lemma FlagUnlisted(ix: Index, c: ClientId, flag: bool)
    requires IndexInv(ix) && c in ix.clients && ix.clients[c].keys == map[]
    ensures IndexInv(Flagged(ix, c, flag))
  {
    var ix' := Flagged(ix, c, flag);
    forall k, i | k in ix.lists && 0 <= i < |ix.lists[k]|
      ensures Holds(ix'.clients, k, ix.lists[k][i]) && ix.lists[k][i].client != c
    {
      assert Holds(ix.clients, k, ix.lists[k][i]);
    }
    forall k ensures CountedAt(ix', k) {
      assert CountedAt(ix, k);
      CountSame(ListOf(ix.lists, k), ix.clients, ix'.clients);
    }
  }

  /** One more key: the index still agrees, and the lists are the old ones with the client appended. */
  lemma AddKeeps(ix: Index, c: ClientId, k: Key, node: nat, flag: bool)
    requires IndexInv(ix) && NodesBelow(ix.lists, node) && c in ix.clients && k !in ix.clients[c].keys
    requires ix.clients[c].unblockOnNokey == flag
    ensures IndexInv(AddEntry(ix, c, k, node, flag)) && NodesBelow(AddEntry(ix, c, k, node, flag).lists, node + 1)
  {
    AddCounted(ix, c, k, node, flag);
    AddAgrees(ix, c, k, node, flag);
    hide Agrees, Counted;
    var ix' := AddEntry(ix, c, k, node, flag);
    forall x, i | x in ix'.lists && 0 <= i < |ix'.lists[x]| ensures ix'.lists[x][i].node < node + 1 {
      if x == k {
        assert ix'.lists[k] == ListOf(ix.lists, k) + [Waiter(node, c)];
      }
    }
  }

  lemma FlaggedAdd(ix: Index, c: ClientId, k: Key, node: nat, flag: bool)
    requires c in ix.clients
    ensures Flagged(AddEntry(ix, c, k, node, flag), c, flag) == AddEntry(Flagged(ix, c, flag), c, k, node, flag)
  {
    assert Flagged(AddEntry(ix, c, k, node, flag), c, flag).clients
        == AddEntry(Flagged(ix, c, flag), c, k, node, flag).clients;
  }

  lemma JoinOne(was: map<Key, seq<Waiter>>, ix: Index, c: ClientId, k: Key, node: nat, flag: bool)
    requires c in ix.clients && k !in ix.clients[c].keys && Joined(was, ix.lists, c, ix.clients[c].keys)
    ensures Joined(was, AddEntry(ix, c, k, node, flag).lists, c, ix.clients[c].keys[k := node])
  {
    var keys := ix.clients[c].keys[k := node];
    var now := AddEntry(ix, c, k, node, flag).lists;
    forall x ensures ListOf(now, x) == ListOf(was, x) + if x in keys then [Waiter(keys[x], c)] else [] {
      assert ListOf(ix.lists, x)
          == ListOf(was, x) + if x in ix.clients[c].keys then [Waiter(ix.clients[c].keys[x], c)] else [];
      if x == k {
        assert ListOf(now, x) == ListOf(ix.lists, x) + [Waiter(node, c)];
      }
    }
  }

  /** The state after the keys so far were entered for a client. */
  ghost predicate Joins(was: Index, now: Index, c: ClientId, flag: bool, next: nat, keys: seq<Key>) {
    && c in was.clients && c in now.clients
    && now.clients == was.clients[c := was.clients[c].(keys := now.clients[c].keys)]
    && IndexInv(Flagged(now, c, flag)) && NodesBelow(now.lists, next)
    && (forall k :: k in now.clients[c].keys <==> k in keys)
    && Joined(was.lists, now.lists, c, now.clients[c].keys)
  }

  lemma JoinsAdd(was: Index, now: Index, c: ClientId, flag: bool, next: nat, keys: seq<Key>, k: Key)
    requires Joins(was, now, c, flag, next, keys) && k !in now.clients[c].keys
    ensures Joins(was, AddEntry(now, c, k, next, flag), c, flag, next + 1, keys + [k])
  {
    hide IndexInv, NodesBelow, Joined;
    AddKeeps(Flagged(now, c, flag), c, k, next, flag);
    FlaggedAdd(now, c, k, next, flag);
    JoinOne(was.lists, now, c, k, next, flag);
  }

  lemma JoinsSkip(was: Index, now: Index, c: ClientId, flag: bool, next: nat, keys: seq<Key>, k: Key)
    requires Joins(was, now, c, flag, next, keys) && k in now.clients[c].keys
    ensures Joins(was, now, c, flag, next, keys + [k])
  {
    hide IndexInv, NodesBelow, Joined;
  }

  lemma JoinsNone(ix: Index, c: ClientId, flag: bool, next: nat)
    requires c in ix.clients && IndexInv(ix) && NodesBelow(ix.lists, next) && ix.clients[c].keys == map[]
    ensures Joins(ix, ix, c, flag, next, [])
  {
    FlagUnlisted(ix, c, flag);
  }

  /** The index sees only the keys and the flag of a client. */
  lemma IndexSees(ix: Index, c: ClientId, a: Client, b: Client)
    requires c in ix.clients && IndexInv(ix.(clients := ix.clients[c := a]))
    requires a.keys == b.keys && a.unblockOnNokey == b.unblockOnNokey
    ensures IndexInv(ix.(clients := ix.clients[c := b]))
  {
    var (x, y) := (ix.(clients := ix.clients[c := a]), ix.(clients := ix.clients[c := b]));
    forall k, i | k in ix.lists && 0 <= i < |ix.lists[k]| ensures Holds(y.clients, k, ix.lists[k][i]) {
      assert Holds(x.clients, k, ix.lists[k][i]);
    }
    forall d, k | d in y.clients && k in y.clients[d].keys
      ensures k in ix.lists && Waiter(y.clients[d].keys[k], d) in ix.lists[k]
    {
      assert k in x.clients[d].keys;
    }
    forall k ensures CountedAt(y, k) {
      assert CountedAt(x, k);
      CountSame(ListOf(ix.lists, k), x.clients, y.clients);
    }
  }

  lemma UpdatedTwice(clients: map<ClientId, Client>, c: ClientId, a: Client, b: Client)
    ensures clients[c := a][c := b] == clients[c := b]
  {
  }

  lemma NotWaiting(clients: map<ClientId, Client>, c: ClientId)
    requires GoodFlags(clients) && c in clients && !clients[c].blocked
    ensures clients[c].keys == map[] && !clients[c].unblockOnNokey && clients[c].btype.NoBlock?
  {
  }

  /** What the flags and the queues ask of one client. */
  lemma OtherSees(clients: map<ClientId, Client>, c: ClientId, cl: Client, queue: seq<ClientId>, postponed: seq<ClientId>)
    requires c in clients && GoodFlags(clients) && QueueMatches(clients, queue) && PostponedMatches(clients, postponed)
    requires (cl.blocked <==> !cl.btype.NoBlock?) && (!KeyType(cl.btype) ==> cl.keys == map[] && !cl.unblockOnNokey)
    requires KeyType(cl.btype) ==> cl.pendingCommand
    requires cl.unblockedFlag == clients[c].unblockedFlag && (cl.btype == Postponed <==> clients[c].btype == Postponed)
    ensures var clients' := clients[c := cl];
            GoodFlags(clients') && QueueMatches(clients', queue) && PostponedMatches(clients', postponed)
  {
    hide NoRepeats;
  }

  /** Everything that holds between two calls. */
  ghost predicate Good(ix: Index, next: nat, byType: map<BlockType, int>, total: int,
                       queue: seq<ClientId>, postponed: seq<ClientId>)
  {
    && IndexInv(ix) && NodesBelow(ix.lists, next) && GoodFlags(ix.clients) && Tallied(ix.clients, byType, total)
    && QueueMatches(ix.clients, queue) && PostponedMatches(ix.clients, postponed)
  }

  /** Blocking a client after its keys were entered. */
  lemma BlockingKeeps(was: Index, now: Index, c: ClientId, btype: BlockType, keys: seq<Key>, flag: bool, next0: nat, next: nat,
                      byType: map<BlockType, int>, total: int, queue: seq<ClientId>, postponed: seq<ClientId>)
    requires Good(was, next0, byType, total, queue, postponed) && Joins(was, now, c, flag, next, keys)
    requires c in was.clients && !was.clients[c].blocked && KeyType(btype)
    ensures btype in byType
    ensures var cl := Client(true, btype, now.clients[c].keys, flag, true, was.clients[c].unblockedFlag);
            && now.clients[c := cl] == was.clients[c := cl]
            && Good(now.(clients := now.clients[c := cl]), next, byType[btype := byType[btype] + 1], total + 1, queue, postponed)
  {
    var cl := Client(true, btype, now.clients[c].keys, flag, true, was.clients[c].unblockedFlag);
    assert now.clients[c := cl] == was.clients[c := cl];
    assert !was.clients[c].btype.Postponed?;
    assert btype in byType;
    hide IndexInv, NodesBelow, Tallied, GoodFlags, QueueMatches, PostponedMatches, Joined;
    IndexSees(now, c, now.clients[c].(unblockOnNokey := flag), cl);
    OtherSees(was.clients, c, cl, queue, postponed);
    TallyBlock(was.clients, c, cl, byType, total);
  }

  // ---------- Leaving ----------

  /** The state while the entries of a client are released; its table still names all of them. */
  ghost predicate Leaves(was: Index, now: Index, c: ClientId, todo: set<Key>) {
    && c in was.clients && now.clients == was.clients && todo <= was.clients[c].keys.Keys
    && IndexInv(Restricted(now, c, todo))
    && Left(was.lists, now.lists, was.clients[c].keys - todo)
  }

  /** `releaseBlockedEntry` without the last step, which takes the key from the client's table. */
  function Released(ix: Index, c: ClientId, k: Key): Index
    requires c in ix.clients && k in ix.clients[c].keys
  {
    ReleaseEntry(ix, c, k).(clients := ix.clients)
  }

  lemma RestrictedRelease(ix: Index, c: ClientId, todo: set<Key>, k: Key)
    requires c in ix.clients && todo <= ix.clients[c].keys.Keys && k in todo
    ensures Restricted(Released(ix, c, k), c, todo - {k}) == ReleaseEntry(Restricted(ix, c, todo), c, k)
  {
    hide Unlink, PutList;
    assert (map x | x in todo - {k} :: ix.clients[c].keys[x]) == (map x | x in todo :: ix.clients[c].keys[x]) - {k};
    assert Restricted(Released(ix, c, k), c, todo - {k}).clients
        == ReleaseEntry(Restricted(ix, c, todo), c, k).clients;
  }

  lemma LeftOne(was: map<Key, seq<Waiter>>, ix: Index, c: ClientId, todo: set<Key>, k: Key)
    requires c in ix.clients && todo <= ix.clients[c].keys.Keys && k in todo
    requires Left(was, ix.lists, ix.clients[c].keys - todo)
    ensures Left(was, Released(ix, c, k).lists, ix.clients[c].keys - (todo - {k}))
  {
    var keys := ix.clients[c].keys;
    var now := Released(ix, c, k).lists;
    hide Unlink;
    forall x ensures ListOf(now, x) == if x in keys - (todo - {k}) then Unlink(ListOf(was, x), keys[x]) else ListOf(was, x) {
      assert ListOf(ix.lists, x) == if x in keys - todo then Unlink(ListOf(was, x), keys[x]) else ListOf(was, x);
      if x == k {
        assert ListOf(now, k) == Unlink(ListOf(was, k), keys[k]);
      } else {
        assert ListOf(now, x) == ListOf(ix.lists, x);
      }
    }
  }

  lemma LeavesOne(was: Index, now: Index, c: ClientId, todo: set<Key>, k: Key)
    requires Leaves(was, now, c, todo) && k in todo
    ensures Leaves(was, Released(now, c, k), c, todo - {k})
  {
    hide IndexInv, Left;
    RestrictedRelease(now, c, todo, k);
    LeftOne(was.lists, now, c, todo, k);
    var ix := Restricted(now, c, todo);
    assert IndexInv(ReleaseEntry(ix, c, k)) by {
      ReleaseInv(ix, c, k);
    }
  }

  lemma ReleaseInv(ix: Index, c: ClientId, k: Key)
    requires IndexInv(ix) && c in ix.clients && k in ix.clients[c].keys
    ensures IndexInv(ReleaseEntry(ix, c, k))
    ensures k in ix.lists && (ix.clients[c].unblockOnNokey ==> k in ix.nokey && ix.nokey[k] > 0)
  {
    ReleaseCountedAt(ix, c, k);
    ReleaseCounted(ix, c, k);
    ReleaseAgrees(ix, c, k);
    assert k in ix.lists;
  }

  /** The assertions of `releaseBlockedEntry` hold for every entry not yet released. */
  lemma CanRelease(ix: Index, c: ClientId, todo: set<Key>, k: Key)
    requires c in ix.clients && todo <= ix.clients[c].keys.Keys && k in todo && IndexInv(Restricted(ix, c, todo))
    ensures k in ix.lists && (ix.clients[c].unblockOnNokey ==> k in ix.nokey && ix.nokey[k] > 0)
  {
    ReleaseInv(Restricted(ix, c, todo), c, k);
  }

  lemma RestrictedAll(ix: Index, c: ClientId)
    requires c in ix.clients
    ensures Restricted(ix, c, ix.clients[c].keys.Keys) == ix
  {
    var all := ix.clients[c].keys.Keys;
    assert (map k | k in all :: ix.clients[c].keys[k]) == ix.clients[c].keys;
    assert Restricted(ix, c, all).clients == ix.clients;
  }

  lemma LeavesNone(ix: Index, c: ClientId)
    requires c in ix.clients && IndexInv(ix)
    ensures Leaves(ix, ix, c, ix.clients[c].keys.Keys)
  {
    RestrictedAll(ix, c);
    assert ix.clients[c].keys - ix.clients[c].keys.Keys == map[];
  }

  lemma LeavesAll(was: Index, now: Index, c: ClientId)
    requires Leaves(was, now, c, {})
    ensures IndexInv(now.(clients := was.clients[c := was.clients[c].(keys := map[])]))
    ensures Left(was.lists, now.lists, was.clients[c].keys)
  {
    hide IndexInv, Left;
    assert was.clients[c].keys - {} == was.clients[c].keys;
    assert Restricted(now, c, {}).clients[c].keys == map[];
  }

  lemma UnlinkWithin(l: seq<Waiter>, node: nat)
    ensures forall w :: w in Unlink(l, node) ==> w in l
  {
  }

  lemma LeftBelow(was: map<Key, seq<Waiter>>, now: map<Key, seq<Waiter>>, keys: map<Key, nat>, next: nat)
    requires Left(was, now, keys) && NodesBelow(was, next)
    ensures NodesBelow(now, next)
  {
    hide Unlink;
    forall k, i | k in now && 0 <= i < |now[k]| ensures now[k][i].node < next {
      if k in keys { UnlinkWithin(ListOf(was, k), keys[k]); }
      assert now[k][i] in ListOf(now, k) && now[k][i] in ListOf(was, k);
    }
  }

  lemma UnblockedSees(clients: map<ClientId, Client>, c: ClientId, cl: Client, queue: seq<ClientId>, postponed: seq<ClientId>)
    requires c in clients && GoodFlags(clients) && QueueMatches(clients, queue) && PostponedMatches(clients, postponed)
    requires !cl.blocked && cl.btype == NoBlock && cl.keys == map[] && !cl.unblockOnNokey
    requires cl.unblockedFlag == clients[c].unblockedFlag
    ensures var clients' := clients[c := cl];
            && GoodFlags(clients') && QueueMatches(clients', queue)
            && PostponedMatches(clients', if clients[c].btype == Postponed then Without(postponed, c) else postponed)
  {
    WithoutOnce(postponed, c);
    hide NoRepeats, Without;
  }

  /** The client left all lists: what remains of unblocking it keeps everything. */
  lemma UnblockingKeeps(was: Index, now: Index, c: ClientId, next: nat,
                        byType: map<BlockType, int>, total: int, queue: seq<ClientId>, postponed: seq<ClientId>)
    requires Good(was, next, byType, total, queue, postponed) && c in was.clients && was.clients[c].blocked
    requires IndexInv(now) && now.clients == was.clients[c := was.clients[c].(keys := map[])]
    requires Left(was.lists, now.lists, was.clients[c].keys)
    ensures var (t, cl) := (was.clients[c].btype, was.clients[c].(blocked := false, btype := NoBlock, keys := map[], unblockOnNokey := false));
            && t in byType && now.clients[c := cl] == was.clients[c := cl]
            && Good(now.(clients := now.clients[c := cl]), next, byType[t := byType[t] - 1], total - 1, queue,
                    if t == Postponed then Without(postponed, c) else postponed)
  {
    var cl := was.clients[c].(blocked := false, btype := NoBlock, keys := map[], unblockOnNokey := false);
    assert was.clients[c].btype in byType;
    hide IndexInv, NodesBelow, Tallied, Left, QueueMatches, PostponedMatches, GoodFlags, Without;
    assert now.clients[c := cl] == was.clients[c := cl];
    FlagUnlisted(now, c, false);
    IndexSees(now, c, now.clients[c].(unblockOnNokey := false), cl);
    LeftBelow(was.lists, now.lists, was.clients[c].keys, next);
    TallyUnblock(was.clients, c, cl, byType, total);
    UnblockedSees(was.clients, c, cl, queue, postponed);
  }

  /** Queueing a client that is not queued yet. */
  lemma QueueingKeeps(ix: Index, c: ClientId, next: nat,
                      byType: map<BlockType, int>, total: int, queue: seq<ClientId>, postponed: seq<ClientId>)
    requires Good(ix, next, byType, total, queue, postponed) && c in ix.clients && !ix.clients[c].unblockedFlag
    ensures Good(ix.(clients := ix.clients[c := ix.clients[c].(unblockedFlag := true)]), next, byType, total, queue + [c], postponed)
  {
    var cl := ix.clients[c].(unblockedFlag := true);
    assert ix.(clients := ix.clients[c := ix.clients[c]]) == ix;
    assert QueueMatches(ix.clients[c := cl], queue + [c]);
    assert GoodFlags(ix.clients[c := cl]) && PostponedMatches(ix.clients[c := cl], postponed);
    hide IndexInv, NodesBelow, Tallied, GoodFlags, QueueMatches, PostponedMatches;
    IndexSees(ix, c, ix.clients[c], cl);
    TallySame(ix.clients, ix.clients[c := cl], byType, total);
  }

  /** An unblocked client may lose its pending command. */
  lemma PendingKeeps(ix: Index, c: ClientId, next: nat,
                     byType: map<BlockType, int>, total: int, queue: seq<ClientId>, postponed: seq<ClientId>)
    requires Good(ix, next, byType, total, queue, postponed) && c in ix.clients && !ix.clients[c].blocked
    ensures Good(ix.(clients := ix.clients[c := ix.clients[c].(pendingCommand := false)]), next, byType, total, queue, postponed)
  {
    var cl := ix.clients[c].(pendingCommand := false);
    NotWaiting(ix.clients, c);
    assert ix.(clients := ix.clients[c := ix.clients[c]]) == ix;
    hide IndexInv, NodesBelow, Tallied, GoodFlags, QueueMatches, PostponedMatches;
    IndexSees(ix, c, ix.clients[c], cl);
    OtherSees(ix.clients, c, cl, queue, postponed);
    TallySame(ix.clients, ix.clients[c := cl], byType, total);
  }

  // ---------- Ready keys ----------

  /** The table of ready keys holds exactly the queued ones, each queued once. */
  ghost predicate ReadyMatches(table: set<Key>, queue: seq<Key>) {
    NoRepeats(queue) && forall k :: k in table <==> k in queue
  }

  lemma {:induction false} CountPositive(l: seq<Waiter>, i: nat, clients: map<ClientId, Client>)
    requires i < |l| && l[i].client in clients && clients[l[i].client].unblockOnNokey
    ensures CountNokey(l, clients) > 0
  {
    if i < |l| - 1 {
      CountPositive(l[..|l| - 1], i, clients);
    }
  }

  lemma ReadyOne(table: set<Key>, a: seq<Key>, b: seq<Key>, key: Key)
    requires ReadyMatches(table, a + b) && key !in table
    ensures ReadyMatches(table + {key}, a + [key] + b)
  {
    assert forall k :: k in a + [key] + b <==> k in a + b || k == key;
    var (s, t) := (a + b, a + [key] + b);
    forall i, j | 0 <= i < j < |t| ensures t[i] != t[j] {
      var (x, y) := (if i <= |a| then i else i - 1, if j <= |a| then j else j - 1);
      assert i != |a| ==> t[i] == s[x];
      assert j != |a| ==> t[j] == s[y];
    }
  }

  /** Waiter `i` of the key would be woken by this signal. */
  ghost predicate Wakes(ix: Index, key: Key, i: nat, objType: BlockType, deleted: bool) {
    && key in ix.lists && i < |ix.lists[key]| && ix.lists[key][i].client in ix.clients
    && ix.clients[ix.lists[key][i].client].btype == objType
    && (deleted ==> ix.clients[ix.lists[key][i].client].unblockOnNokey)
  }

  /** No client is blocked by this type. */
  ghost predicate Nobody(clients: map<ClientId, Client>, t: BlockType) { forall c :: c in clients ==> clients[c].btype != t }

  lemma NobodyBlocked(clients: map<ClientId, Client>, t: BlockType)
    requires Nobody(clients, t)
    ensures BlockedOf(clients, t) == {}
  {
  }

  /** A client that waits for what is signalled stands in the list. */
  lemma NeedsIsWoken(ix: Index, c: ClientId, signal: Signal)
    requires IndexInv(ix) && Needs(ix.clients, c, signal)
    ensures exists i :: Wakes(ix, signal.key, i, signal.objType, signal.deleted)
  {
    var k := signal.key;
    assert Waiter(ix.clients[c].keys[k], c) in ix.lists[k];
    var i :| 0 <= i < |ix.lists[k]| && ix.lists[k][i] == Waiter(ix.clients[c].keys[k], c);
    assert Wakes(ix, k, i, signal.objType, signal.deleted);
  }

  /** The early returns of `signalKeyAsReadyLogic` never drop a signal that a waiter needs. */
  lemma NoLostSignal(ix: Index, byType: map<BlockType, int>, total: int, key: Key, i: nat, objType: BlockType, deleted: bool)
    requires IndexInv(ix) && GoodFlags(ix.clients) && Tallied(ix.clients, byType, total)
    requires Wakes(ix, key, i, objType, deleted)
    ensures KeyType(objType) && objType in byType && byType[objType] != 0 && key in ix.lists && (deleted ==> key in ix.nokey)
  {
    var c := ix.lists[key][i].client;
    assert Holds(ix.clients, key, ix.lists[key][i]);
    assert c in BlockedOf(ix.clients, objType);
    if deleted {
      CountPositive(ix.lists[key], i, ix.clients);
      assert CountedAt(ix, key);
    }
  }

  // ---------- One client served ----------

  /** Releasing one entry of a blocked client keeps everything. */
  lemma ReleasingKeeps(ix: Index, c: ClientId, k: Key, next: nat,
                       byType: map<BlockType, int>, total: int, queue: seq<ClientId>, postponed: seq<ClientId>)
    requires Good(ix, next, byType, total, queue, postponed) && c in ix.clients && k in ix.clients[c].keys
    ensures Good(ReleaseEntry(ix, c, k), next, byType, total, queue, postponed)
    ensures ReleaseEntry(ix, c, k).clients == ix.clients[c := ix.clients[c].(keys := ix.clients[c].keys - {k})]
    ensures ix.clients[c].blocked && ix.clients[c].pendingCommand && IndexInv(Restricted(ix, c, ix.clients[c].keys.Keys))
  {
    RestrictedAll(ix, c);
    var ix' := ReleaseEntry(ix, c, k);
    assert ix.clients[c].blocked && KeyType(ix.clients[c].btype) && ix.clients[c].pendingCommand;
    hide IndexInv, NodesBelow, Tallied, GoodFlags, QueueMatches, PostponedMatches, Unlink;
    ReleaseInv(ix, c, k);
    OtherSees(ix.clients, c, ix'.clients[c], queue, postponed);
    TallySame(ix.clients, ix'.clients, byType, total);
    assert Left(ix.lists, ix'.lists, map[k := ix.clients[c].keys[k]]);
    LeftBelow(ix.lists, ix'.lists, map[k := ix.clients[c].keys[k]], next);
  }

  /** The client left the lists of its old keys and then joined the tails of its new ones. */
  ghost predicate Served(was: map<Key, seq<Waiter>>, now: map<Key, seq<Waiter>>, c: ClientId,
                         before: map<Key, nat>, after: map<Key, nat>)
  {
    forall k :: ListOf(now, k) == (if k in before then Unlink(ListOf(was, k), before[k]) else ListOf(was, k))
                                  + if k in after then [Waiter(after[k], c)] else []
  }

  lemma ServedByAt(l0: map<Key, seq<Waiter>>, l1: map<Key, seq<Waiter>>, l2: map<Key, seq<Waiter>>, l3: map<Key, seq<Waiter>>,
                   c: ClientId, k: Key, keys: map<Key, nat>, after: map<Key, nat>, x: Key)
    requires k in keys && l1 == PutList(l0, k, Unlink(ListOf(l0, k), keys[k]))
    requires Left(l1, l2, keys - {k}) && Joined(l2, l3, c, after)
    ensures ListOf(l3, x) == (if x in keys then Unlink(ListOf(l0, x), keys[x]) else ListOf(l0, x))
                             + if x in after then [Waiter(after[x], c)] else []
  {
    hide Unlink, PutList, ListOf;
    ListOfPut(l0, k, Unlink(ListOf(l0, k), keys[k]), x);
    assert ListOf(l2, x) == if x in keys - {k} then Unlink(ListOf(l1, x), keys[x]) else ListOf(l1, x);
  }

  lemma ServedBy(l0: map<Key, seq<Waiter>>, ix: Index, l2: map<Key, seq<Waiter>>, l3: map<Key, seq<Waiter>>,
                 c: ClientId, k: Key, keys: map<Key, nat>, after: map<Key, nat>)
    requires c in ix.clients && k in keys && ix.clients[c].keys == keys && ix.lists == l0
    requires Left(ReleaseEntry(ix, c, k).lists, l2, keys - {k}) && Joined(l2, l3, c, after)
    ensures Served(l0, l3, c, keys, after)
  {
    var l1 := ReleaseEntry(ix, c, k).lists;
    assert l1 == PutList(l0, k, Unlink(ListOf(l0, k), keys[k]));
    hide Unlink, ReleaseEntry, PutList, ListOf, Left, Joined;
    forall x { ServedByAt(l0, l1, l2, l3, c, k, keys, after, x); }
  }

  lemma ServedAt(was: map<Key, seq<Waiter>>, now: map<Key, seq<Waiter>>, c: ClientId,
                 before: map<Key, nat>, after: map<Key, nat>, k: Key)
    requires Served(was, now, c, before, after) && k in before
    ensures ListOf(now, k) == Unlink(ListOf(was, k), before[k]) + if k in after then [Waiter(after[k], c)] else []
  {
  }

  lemma ReadyTaken(table: set<Key>, a: seq<Key>, b: seq<Key>)
    requires ReadyMatches(table, a + b) && b != []
    ensures ReadyMatches(table - {b[0]}, a + b[1..])
  {
    var (s, t) := (a + b, a + b[1..]);
    assert s[|a|] == b[0];
    forall i | 0 <= i < |t| ensures t[i] == s[if i < |a| then i else i + 1] {}
    forall k ensures k in t <==> k in s && k != b[0] {
      if k in s && k != b[0] {
        var j :| 0 <= j < |s| && s[j] == k;
        assert t[if j < |a| then j else j - 1] == k;
      }
    }
  }

  /** Postponing an unblocked client. */
  lemma PostponingKeeps(ix: Index, c: ClientId, next: nat,
                        byType: map<BlockType, int>, total: int, queue: seq<ClientId>, postponed: seq<ClientId>)
    requires Good(ix, next, byType, total, queue, postponed) && c in ix.clients && !ix.clients[c].blocked
    ensures Postponed in byType
    ensures var cl := ix.clients[c].(blocked := true, btype := Postponed, pendingCommand := true);
            Good(ix.(clients := ix.clients[c := cl]), next, byType[Postponed := byType[Postponed] + 1], total + 1, queue, postponed + [c])
  {
    var cl := ix.clients[c].(blocked := true, btype := Postponed, pendingCommand := true);
    assert Postponed in byType;
    assert ix.(clients := ix.clients[c := ix.clients[c]]) == ix;
    assert PostponedMatches(ix.clients[c := cl], postponed + [c]);
    assert GoodFlags(ix.clients[c := cl]) && QueueMatches(ix.clients[c := cl], queue);
    hide IndexInv, NodesBelow, Tallied, GoodFlags, QueueMatches, PostponedMatches;
    IndexSees(ix, c, ix.clients[c], cl);
    TallyBlock(ix.clients, c, cl, byType, total);
  }

  /** Taking the head of the queue of unblocked clients. */
  lemma DequeuingKeeps(ix: Index, next: nat,
                       byType: map<BlockType, int>, total: int, queue: seq<ClientId>, postponed: seq<ClientId>)
    requires Good(ix, next, byType, total, queue, postponed) && queue != []
    ensures queue[0] in ix.clients
    ensures var cl := ix.clients[queue[0]].(unblockedFlag := false);
            Good(ix.(clients := ix.clients[queue[0] := cl]), next, byType, total, queue[1..], postponed)
  {
    var c := queue[0];
    assert c in queue;
    var cl := ix.clients[c].(unblockedFlag := false);
    assert ix.(clients := ix.clients[c := ix.clients[c]]) == ix;
    assert forall d :: d in queue[1..] <==> d in queue && d != c by {
      assert queue == [c] + queue[1..];
    }
    assert QueueMatches(ix.clients[c := cl], queue[1..]);
    assert GoodFlags(ix.clients[c := cl]) && PostponedMatches(ix.clients[c := cl], postponed);
    hide IndexInv, NodesBelow, Tallied, GoodFlags, QueueMatches, PostponedMatches;
    IndexSees(ix, c, ix.clients[c], cl);
    TallySame(ix.clients, ix.clients[c := cl], byType, total);
  }

  /** All that waited for the key were considered, each once and in order; afterwards the list
      holds those passed over, then those that blocked on the key again. */
  ghost predicate KeyHandled(was: Index, key: Key, types: nat -> BlockType, outcomes: nat -> Outcome,
                             considered: seq<ClientId>, now: Index) {
    var init := ListOf(was.lists, key);
    && considered == ClientsOf(init) && NoRepeats(considered) && Known(init, was.clients)
    && ClientsOf(ListOf(now.lists, key)) == Stayers(init, was.clients, types, |init|)
                                            + Rejoiners(init, was.clients, types, outcomes, key, |init|)
    && (forall j :: 0 <= j < |init| ==> Settled(init, was.clients, now.clients, types, outcomes, j))
    && (forall j :: 0 <= j < |init| ==> InListAfter(init, was.clients, ClientsOf(ListOf(now.lists, key)), types, outcomes, key, j))
    && (forall c :: c in was.clients && c !in ClientsOf(init) ==> c in now.clients && now.clients[c] == was.clients[c])
  }

  /** A waiter that a signal wakes is served by the pass over the key: it leaves the list unless its
      command waits for the key again, and once its command is done it is queued. */
  lemma WokenIsServed(was: Index, key: Key, types: nat -> BlockType, outcomes: nat -> Outcome, considered: seq<ClientId>, now: Index,
                      i: nat, objType: BlockType, deleted: bool)
    requires KeyHandled(was, key, types, outcomes, considered, now)
    requires Wakes(was, key, i, objType, deleted) && KeyType(objType) && (deleted || types(i) == objType)
    ensures var c := ListOf(was.lists, key)[i].client;
            && (c in ClientsOf(ListOf(now.lists, key)) <==> outcomes(i).BlockAgain? && key in outcomes(i).keys)
            && (outcomes(i).Done? ==> c in now.clients && !now.clients[c].blocked && now.clients[c].unblockedFlag)
  {
    hide Stayers, Rejoiners;
    var init := ListOf(was.lists, key);
    assert Settled(init, was.clients, now.clients, types, outcomes, i);
    assert InListAfter(init, was.clients, ClientsOf(ListOf(now.lists, key)), types, outcomes, key, i);
  }

  /** The keys were handled one after the other, each on the index the one before left. */
  ghost predicate RoundServed(was: Index, types: Key -> nat -> BlockType, outcomes: Key -> nat -> Outcome,
                              handled: seq<Key>, considered: seq<seq<ClientId>>, trace: seq<Index>, now: Index) {
    && |considered| == |handled| && |trace| == |handled| + 1 && trace[0] == was && trace[|handled|] == now
    && forall i :: 0 <= i < |handled| ==>
         KeyHandled(trace[i], handled[i], types(handled[i]), outcomes(handled[i]), considered[i], trace[i + 1])
  }

  lemma ServedMore(was: Index, types: Key -> nat -> BlockType, outcomes: Key -> nat -> Outcome,
                   handled: seq<Key>, considered: seq<seq<ClientId>>, trace: seq<Index>, now: Index,
                   key: Key, passed: seq<ClientId>, next: Index)
    requires RoundServed(was, types, outcomes, handled, considered, trace, now)
    requires KeyHandled(now, key, types(key), outcomes(key), passed, next)
    ensures RoundServed(was, types, outcomes, handled + [key], considered + [passed], trace + [next], next)
  {
    hide KeyHandled;
    var (h, c, t) := (handled + [key], considered + [passed], trace + [next]);
    forall i | 0 <= i < |h| ensures KeyHandled(t[i], h[i], types(h[i]), outcomes(h[i]), c[i], t[i + 1]) {
      if i < |handled| {
        assert t[i] == trace[i] && h[i] == handled[i] && c[i] == considered[i] && t[i + 1] == trace[i + 1];
      }
    }
  }

  lemma HeardByFewer(all: map<ClientId, Client>, some: map<ClientId, Client>, signals: seq<Signal>, readyKeys: set<Key>)
    requires Heard(all, signals, readyKeys)
    requires forall c :: c in some ==> c in all && all[c] == some[c]
    ensures Heard(some, signals, readyKeys)
  {
    assert forall c, signal :: Needs(some, c, signal) ==> Needs(all, c, signal);
  }

  lemma HeardInMore(clients: map<ClientId, Client>, signals: seq<Signal>, a: set<Key>, b: set<Key>)
    requires Heard(clients, signals, a) && a <= b
    ensures Heard(clients, signals, b)
  {
  }

  /** One more waiter passed or served: the signals of before are still queued, and its own are. */
  lemma SignalsHeardMore(init: seq<Waiter>, was: map<ClientId, Client>, now: map<ClientId, Client>, types: nat -> BlockType,
                         outcomes: nat -> Outcome, i: nat, before: set<Key>, after: set<Key>)
    requires i < |init| && Known(init, was) && SignalsHeard(init, was, types, outcomes, i, before) && before <= after
    requires forall c :: c in was && c !in ClientsOf(init) ==> c in now && now[c] == was[c]
    requires Serves(was[init[i].client], types(i)) ==> Heard(now - {init[i].client}, outcomes(i).signals, after)
    ensures SignalsHeard(init, was, types, outcomes, i + 1, after)
  {
    var others := map c | c in was && c !in ClientsOf(init) :: was[c];
    forall j | 0 <= j < i + 1
      ensures var cl := was[init[j].client];
              (types(j) != NoBlock && cl.btype == types(j)) || cl.unblockOnNokey ==> Heard(others, outcomes(j).signals, after)
    {
      var cl := was[init[j].client];
      if (types(j) != NoBlock && cl.btype == types(j)) || cl.unblockOnNokey {
        if j < i {
          HeardInMore(others, outcomes(j).signals, before, after);
        } else {
          assert ClientsOf(init)[i] == init[i].client;
          HeardByFewer(now - {init[i].client}, others, outcomes(i).signals, after);
        }
      }
    }
  }

  /** The node under which a client that blocked again stands at the tail of the key's list, if it does. */
  ghost function Rejoined(cl: Client, c: ClientId, key: Key): seq<Waiter> {
    if key in cl.keys then [Waiter(cl.keys[key], c)] else []
  }

  /** One waiter served: the pass goes on with the next. */
  lemma ServedStep(init: seq<Waiter>, was: map<ClientId, Client>, now: map<ClientId, Client>, lists: map<Key, seq<Waiter>>,
                   types: nat -> BlockType, outcomes: nat -> Outcome, key: Key, i: nat, kept: seq<Waiter>, tail: seq<Waiter>,
                   now': map<ClientId, Client>, lists': map<Key, seq<Waiter>>, ready: set<Key>, ready': set<Key>)
    requires Passed(init, was, now, ListOf(lists, key), types, outcomes, key, i, kept, tail) && i < |init|
    requires Known(init, was) && SignalsHeard(init, was, types, outcomes, i, ready) && ready <= ready'
    requires Serves(was[init[i].client], types(i)) && NoRepeats(ClientsOf(init)) && Holds(was, key, init[i])
    requires var c := init[i].client;
             && c in now && c in now' && now[c] == was[c] && now' == now[c := now'[c]]
             && Served(lists, lists', c, now[c].keys, now'[c].keys) && DistinctNodes(ListOf(lists', key))
             && Redone(now'[c], outcomes(i)) && Heard(now - {c}, outcomes(i).signals, ready')
    ensures Passed(init, was, now', ListOf(lists', key), types, outcomes, key, i + 1, kept,
                   tail + Rejoined(now'[init[i].client], init[i].client, key))
    ensures SignalsHeard(init, was, types, outcomes, i + 1, ready')
  {
    var c := init[i].client;
    assert Again(outcomes(i), key) <==> key in now'[c].keys;
    hide Passed, Served, Redone, Heard, SignalsHeard, DistinctNodes, NoRepeats, Stayers, Rejoiners, Unlink, NodeIndex, Serves;
    PassedKnown(init, was, now, ListOf(lists, key), types, outcomes, key, i, kept, tail);
    SignalsHeardMore(init, was, now, types, outcomes, i, ready, ready');
    Current(init, was, now, ListOf(lists, key), types, outcomes, key, i, kept, tail);
    ServedAt(lists, lists', c, now[c].keys, now'[c].keys, key);
    PassedServed(init, was, now, ListOf(lists, key), types, outcomes, key, i, kept, tail, now', ListOf(lists', key), Rejoined(now'[c], c, key));
  }

  class Server {
    var clients: map<ClientId, Client>
    var lists: map<Key, seq<Waiter>>
    var nokey: map<Key, nat>
    var nextNode: nat
    var blockedClients: int
    var blockedByType: map<BlockType, int>
    var unblockedClients: seq<ClientId>
    var postponedClients: seq<ClientId>
    var readyKeys: set<Key>
    var readyList: seq<Key>
    /** The list taken over by the round of `handleClientsBlockedOnKeys` under way. */
    var draining: seq<Key>

    ghost function View(): Index reads this { Index(clients, lists, nokey) }

    ghost predicate Valid() reads this {
      Good(View(), nextNode, blockedByType, blockedClients, unblockedClients, postponedClients)
    }

    ghost predicate Ready() reads this { ReadyMatches(readyKeys, readyList + draining) }

    lemma ValidDistinct(key: Key)
      requires Valid()
      ensures DistinctNodes(ListOf(lists, key))
    {
    }

    constructor (ids: set<ClientId>)
      ensures Valid() && Ready() && clients.Keys == ids && forall c :: c in ids ==> !clients[c].blocked
    {
      clients := map c | c in ids :: Client(false, NoBlock, map[], false, false, false);
      lists, nokey, nextNode := map[], map[], 0;
      blockedClients, blockedByType := 0, map[NoBlock := 0, ListType := 0, ZsetType := 0, StreamType := 0, Postponed := 0];
      unblockedClients, postponedClients := [], [];
      readyKeys, readyList, draining := {}, [], [];
      new;
      assert BlockedAll(clients) == {};
      forall t ensures BlockedOf(clients, t) == {} && t in blockedByType && blockedByType[t] == 0 {
        match t { case NoBlock => case ListType => case ZsetType => case StreamType => case Postponed => }
      }
    }

    /** `blockClient`. */
    method BlockClient(c: ClientId, btype: BlockType)
      requires c in clients && btype in blockedByType
      modifies this`clients, this`blockedClients, this`blockedByType
      ensures clients == old(clients)[c := old(clients)[c].(blocked := true, btype := btype)]
      ensures blockedClients == old(blockedClients) + 1
      ensures blockedByType == old(blockedByType)[btype := old(blockedByType)[btype] + 1]
    {
      clients := clients[c := clients[c].(blocked := true, btype := btype)];
      blockedClients := blockedClients + 1;
      blockedByType := blockedByType[btype := blockedByType[btype] + 1];
    }

    /** One round of the loop of `blockForKeys`. */
    method AddWaiter(c: ClientId, k: Key, flag: bool)
      requires c in clients && k !in clients[c].keys
      modifies this`clients, this`lists, this`nokey, this`nextNode
      ensures View() == AddEntry(old(View()), c, k, old(nextNode), flag) && nextNode == old(nextNode) + 1
    {
      var l: seq<Waiter> := if k in lists then lists[k] else [];
      lists := lists[k := l + [Waiter(nextNode, c)]];
      clients := clients[c := clients[c].(keys := clients[c].keys[k := nextNode])];
      if flag {
        nokey := nokey[k := if k in nokey then nokey[k] + 1 else 1];
      }
      nextNode := nextNode + 1;
    }

    /** One key of `blockForKeys`: one that is already in the client's table is skipped. */
    method JoinKey(c: ClientId, k: Key, flag: bool, ghost was: Index, ghost done: seq<Key>)
      requires c in clients && Joins(was, View(), c, flag, nextNode, done)
      modifies this`clients, this`lists, this`nokey, this`nextNode
      ensures c in clients && Joins(was, View(), c, flag, nextNode, done + [k])
    {
      hide Joins;
      if k in clients[c].keys {
        JoinsSkip(was, View(), c, flag, nextNode, done, k);
      } else {
        JoinsAdd(was, View(), c, flag, nextNode, done, k);
        AddWaiter(c, k, flag);
      }
    }

    /** The loop of `blockForKeys`. */
    method Joining(c: ClientId, keys: seq<Key>, flag: bool)
      requires c in clients && IndexInv(View()) && NodesBelow(lists, nextNode) && clients[c].keys == map[]
      modifies this`clients, this`lists, this`nokey, this`nextNode
      ensures Joins(old(View()), View(), c, flag, nextNode, keys) && c in clients
    {
      hide IndexInv, NodesBelow, Joins;
      JoinsNone(View(), c, flag, nextNode);
      ghost var was := View();
      var j := 0;
      while j < |keys|
        invariant 0 <= j <= |keys| && c in clients && Joins(was, View(), c, flag, nextNode, keys[..j])
      {
        JoinKey(c, keys[j], flag, was, keys[..j]);
        assert keys[..j + 1] == keys[..j] + [keys[j]];
        j := j + 1;
      }
      assert keys[..j] == keys;
    }

    /** `blockForKeys`: the client joins the tail of the list of every named key, once per key. */
    method BlockForKeys(c: ClientId, btype: BlockType, keys: seq<Key>, flag: bool)
      requires Valid() && c in clients && !clients[c].blocked && KeyType(btype)
      modifies this`clients, this`lists, this`nokey, this`nextNode, this`blockedClients, this`blockedByType
      ensures Valid()
      ensures c in clients && clients == old(clients)[c := Client(true, btype, clients[c].keys, flag, true, old(clients)[c].unblockedFlag)]
      ensures forall k :: k in clients[c].keys <==> k in keys
      ensures Joined(old(lists), lists, c, clients[c].keys)
    {
      hide IndexInv, NodesBelow, Tallied, QueueMatches, PostponedMatches, GoodFlags, Joined;
      assert clients[c].keys == map[] by { NotWaiting(clients, c); }
      Joining(c, keys, flag);
      BlockingKeeps(old(View()), View(), c, btype, keys, flag, old(nextNode), nextNode,
                    blockedByType, blockedClients, unblockedClients, postponedClients);
      hide Good;
      ghost var now := View();
      ghost var cl := Client(true, btype, now.clients[c].keys, flag, true, old(clients)[c].unblockedFlag);
      clients := clients[c := clients[c].(unblockOnNokey := flag, pendingCommand := true)];
      BlockClient(c, btype);
      assert View() == now.(clients := now.clients[c := cl]);
    }

    /** `releaseBlockedEntry`. The last parameter names the entries not yet released. */
    method ReleaseBlockedEntry(c: ClientId, k: Key, removeKey: bool, ghost todo: set<Key>)
      requires c in clients && todo <= clients[c].keys.Keys && k in todo && IndexInv(Restricted(View(), c, todo))
      modifies this`clients, this`lists, this`nokey
      ensures View() == if removeKey then ReleaseEntry(old(View()), c, k) else Released(old(View()), c, k)
    {
      hide IndexInv, Unlink, Restricted;
      CanRelease(View(), c, todo, k);
      var l := Unlink(lists[k], clients[c].keys[k]);
      if l == [] {
        lists := lists - {k};
        nokey := nokey - {k};
      } else {
        lists := lists[k := l];
        if clients[c].unblockOnNokey {
          assert k in nokey && nokey[k] > 0;
          var n := nokey[k] - 1;
          nokey := if n == 0 then nokey - {k} else nokey[k := n];
        }
      }
      if removeKey {
        clients := clients[c := clients[c].(keys := clients[c].keys - {k})];
      }
    }

    /** `unblockClientWaitingData`. */
    method UnblockClientWaitingData(c: ClientId)
      requires c in clients && IndexInv(View())
      modifies this`clients, this`lists, this`nokey
      ensures clients == old(clients)[c := old(clients)[c].(keys := map[])] && IndexInv(View())
      ensures Left(old(lists), lists, old(clients)[c].keys)
    {
      hide IndexInv, Left, ReleaseEntry;
      LeavesNone(View(), c);
      var todo := clients[c].keys.Keys;
      while todo != {}
        invariant c in clients && Leaves(old(View()), View(), c, todo)
      {
        var k :| k in todo;
        LeavesOne(old(View()), View(), c, todo, k);
        ReleaseBlockedEntry(c, k, false, todo);
        todo := todo - {k};
      }
      LeavesAll(old(View()), View(), c);
      clients := clients[c := clients[c].(keys := map[])];
    }

    /** `queueClientForReprocessing`. */
    method QueueClientForReprocessing(c: ClientId)
      requires Valid() && c in clients
      modifies this`clients, this`unblockedClients
      ensures Valid() && clients == old(clients)[c := old(clients)[c].(unblockedFlag := true)]
      ensures unblockedClients == old(unblockedClients) + if old(clients)[c].unblockedFlag then [] else [c]
    {
      hide Good;
      if !clients[c].unblockedFlag {
        QueueingKeeps(View(), c, nextNode, blockedByType, blockedClients, unblockedClients, postponedClients);
        clients := clients[c := clients[c].(unblockedFlag := true)];
        unblockedClients := unblockedClients + [c];
      }
    }

    /** The branch on the type of blocking in `unblockClient`. */
    method LeaveLists(c: ClientId)
      requires IndexInv(View()) && GoodFlags(clients) && c in clients && clients[c].blocked
      modifies this`clients, this`lists, this`nokey, this`postponedClients
      ensures clients == old(clients)[c := old(clients)[c].(keys := map[])] && IndexInv(View())
      ensures Left(old(lists), lists, old(clients)[c].keys)
      ensures postponedClients == if old(clients)[c].btype == Postponed then Without(old(postponedClients), c) else old(postponedClients)
    {
      assert !KeyType(clients[c].btype) ==> clients[c].keys == map[] && clients[c].btype == Postponed;
      hide IndexInv, GoodFlags;
      if KeyType(clients[c].btype) {
        UnblockClientWaitingData(c);
      } else {
        postponedClients := Without(postponedClients, c);
        assert clients == clients[c := clients[c].(keys := map[])];
      }
    }

    /** `unblockClient`: the client leaves every list it stands in, and nobody else moves. */
    method UnblockClient(c: ClientId, requeue: bool)
      requires Valid() && c in clients && clients[c].blocked
      modifies this`clients, this`lists, this`nokey, this`postponedClients
      modifies this`blockedClients, this`blockedByType, this`unblockedClients
      ensures Valid() && nextNode == old(nextNode) && Left(old(lists), lists, old(clients)[c].keys)
      ensures clients == old(clients)[c := Client(false, NoBlock, map[], false, old(clients)[c].pendingCommand,
                                                  old(clients)[c].unblockedFlag || requeue)]
      ensures unblockedClients == old(unblockedClients) + if requeue && !old(clients)[c].unblockedFlag then [c] else []
    {
      hide IndexInv, NodesBelow, Tallied, QueueMatches, PostponedMatches, GoodFlags, Left, Without, KeyType;
      LeaveLists(c);
      ghost var now := View();
      UnblockingKeeps(old(View()), now, c, nextNode, blockedByType, blockedClients, unblockedClients, old(postponedClients));
      hide Good;
      blockedClients := blockedClients - 1;
      blockedByType := blockedByType[clients[c].btype := blockedByType[clients[c].btype] - 1];
      clients := clients[c := clients[c].(blocked := false, btype := NoBlock, unblockOnNokey := false)];
      assert View() == now.(clients := now.clients[c := clients[c]]);
      if requeue {
        QueueClientForReprocessing(c);
      }
    }

    /** `signalKeyAsReadyLogic`: a key that some waiter needs is queued, and never twice. */
    method SignalKeyAsReady(key: Key, objType: BlockType, deleted: bool)
      requires Valid() && Ready()
      modifies this`readyKeys, this`readyList
      ensures Ready() && old(readyList) <= readyList && old(readyKeys) <= readyKeys <= old(readyKeys) + {key}
      ensures forall i :: Wakes(View(), key, i, objType, deleted) ==> key in readyKeys
      ensures forall c :: Needs(clients, c, Signal(key, objType, deleted)) ==> key in readyKeys
      ensures (if deleted then key !in nokey else key !in lists) || Nobody(clients, objType) ==>
                readyKeys == old(readyKeys) && readyList == old(readyList)
    {
      forall c | Needs(clients, c, Signal(key, objType, deleted)) ensures exists i :: Wakes(View(), key, i, objType, deleted) {
        NeedsIsWoken(View(), c, Signal(key, objType, deleted));
      }
      ghost var nobody := Nobody(clients, objType);
      if nobody { NobodyBlocked(clients, objType); }
      assert nobody && KeyType(objType) ==> blockedByType[objType] == |BlockedOf(clients, objType)| == 0;

      assert KeyType(objType) ==> objType in blockedByType;
      forall i | Wakes(View(), key, i, objType, deleted)
        ensures KeyType(objType) && blockedByType[objType] != 0 && key in lists && (deleted ==> key in nokey)
      {
        NoLostSignal(View(), blockedByType, blockedClients, key, i, objType, deleted);
      }
      hide Good, Wakes;
      if !KeyType(objType) { return; }
      if blockedByType[objType] == 0 { return; }
      if deleted {
        if key !in nokey { return; }
      } else {
        if key !in lists { return; }
      }
      if key in readyKeys { return; }
      ReadyOne(readyKeys, readyList, draining, key);
      hide ReadyMatches;
      readyKeys := readyKeys + {key};
      readyList := readyList + [key];
    }

    /** The signals a reprocessed command sends. */
    method SendSignals(signals: seq<Signal>)
      requires Valid() && Ready()
      modifies this`readyKeys, this`readyList
      ensures Ready() && old(readyList) <= readyList && old(readyKeys) <= readyKeys
      ensures Heard(clients, signals, readyKeys)
    {
      hide Good, ReadyMatches, Wakes, Needs;
      for i := 0 to |signals|
        invariant Ready() && old(readyList) <= readyList && old(readyKeys) <= readyKeys
        invariant forall j, c :: 0 <= j < i && Needs(clients, c, signals[j]) ==> signals[j].key in readyKeys
      {
        SignalKeyAsReady(signals[i].key, signals[i].objType, signals[i].deleted);
        assert signals[i] == Signal(signals[i].key, signals[i].objType, signals[i].deleted);
      }
    }

    /** The command runs: the client has none pending any more, and the keys it wrote are signalled. */
    method RunCommand(c: ClientId, signals: seq<Signal>)
      requires Valid() && Ready() && c in clients && !clients[c].blocked
      modifies this`clients, this`readyKeys, this`readyList
      ensures Valid() && Ready() && clients == old(clients)[c := old(clients)[c].(pendingCommand := false)]
      ensures old(readyKeys) <= readyKeys && Heard(old(clients), signals, readyKeys)
    {
      hide Good, ReadyMatches;
      PendingKeeps(View(), c, nextNode, blockedByType, blockedClients, unblockedClients, postponedClients);
      clients := clients[c := clients[c].(pendingCommand := false)];
      SendSignals(signals);
      assert forall d, signal :: Needs(old(clients), d, signal) ==> Needs(clients, d, signal);
    }

    /** The pending command of an unblocked client is executed, and may block it again. */
    method RedoCommand(c: ClientId, outcome: Outcome)
      requires Valid() && Ready() && c in clients && !clients[c].blocked && clients[c].keys == map[]
      requires outcome.BlockAgain? ==> KeyType(outcome.btype)
      modifies this`clients, this`lists, this`nokey, this`nextNode, this`blockedClients, this`blockedByType
      modifies this`readyKeys, this`readyList
      ensures Valid() && Ready()
      ensures c in clients && clients == old(clients)[c := clients[c]]
      ensures Joined(old(lists), lists, c, clients[c].keys)
      ensures Redone(clients[c].(unblockedFlag := true), outcome)
      ensures old(readyKeys) <= readyKeys && Heard(old(clients), outcome.signals, readyKeys)
    {
      assert Joined(lists, lists, c, map[]);
      hide Good, Joined, ReadyMatches, KeyType, Heard;
      RunCommand(c, outcome.signals);
      if outcome.BlockAgain? {
        ghost var ran := clients;
        BlockForKeys(c, outcome.btype, outcome.keys, outcome.nokey);
        UpdatedTwice(old(clients), c, ran[c], clients[c]);
      }
    }

    /** A client that is not blocked again goes to the queue of unblocked clients. */
    method Reprocess(c: ClientId, outcome: Outcome)
      requires Valid() && Ready() && c in clients && !clients[c].blocked && clients[c].keys == map[]
      requires outcome.BlockAgain? ==> KeyType(outcome.btype)
      modifies this
      ensures Valid() && Ready() && draining == old(draining)
      ensures c in clients && clients == old(clients)[c := clients[c]]
      ensures Joined(old(lists), lists, c, clients[c].keys)
      ensures Redone(clients[c], outcome)
      ensures old(readyKeys) <= readyKeys && Heard(old(clients), outcome.signals, readyKeys)
    {
      hide Good, Joined, ReadyMatches, KeyType, Heard;
      RedoCommand(c, outcome);
      if !clients[c].blocked {
        QueueClientForReprocessing(c);
      }
    }

    /** The first half of `unblockClientOnKey`: first this key's entry, then the others. */
    method Detach(c: ClientId, key: Key)
      requires Valid() && c in clients && key in clients[c].keys
      modifies this`clients, this`lists, this`nokey, this`postponedClients
      modifies this`blockedClients, this`blockedByType, this`unblockedClients
      ensures Valid()
      ensures clients == old(clients)[c := Client(false, NoBlock, map[], false, true, old(clients)[c].unblockedFlag)]
      ensures Left(ReleaseEntry(old(View()), c, key).lists, lists, old(clients)[c].keys - {key})
    {
      hide Good, IndexInv, Left, Restricted, ReleaseEntry;
      ReleasingKeeps(View(), c, key, nextNode, blockedByType, blockedClients, unblockedClients, postponedClients);
      ReleaseBlockedEntry(c, key, true, clients[c].keys.Keys);
      UnblockClient(c, false);
    }

    /** `unblockClientOnKey`: the client leaves all its lists and its command is redone, which may block it again. */
    method UnblockClientOnKey(c: ClientId, key: Key, outcome: Outcome)
      requires Valid() && Ready() && c in clients && key in clients[c].keys
      requires outcome.BlockAgain? ==> KeyType(outcome.btype)
      modifies this
      ensures Valid() && Ready() && draining == old(draining)
      ensures c in clients && clients == old(clients)[c := clients[c]]
      ensures Served(old(lists), lists, c, old(clients)[c].keys, clients[c].keys)
      ensures Redone(clients[c], outcome)
      ensures old(readyKeys) <= readyKeys && Heard(old(clients) - {c}, outcome.signals, readyKeys)
    {
      hide Good, Left, Joined, Served, ReadyMatches, ReleaseEntry, KeyType, Heard;
      Detach(c, key);
      ghost var (free, rest) := (lists, clients);
      if clients[c].pendingCommand {
        Reprocess(c, outcome);
      }
      HeardByFewer(rest, old(clients) - {c}, outcome.signals, readyKeys);
      ServedBy(old(lists), old(View()), free, lists, c, key, old(clients)[c].keys, clients[c].keys);
    }

    /** The body of the loop of `handleClientsBlockedOnKey`, for the waiter at a node. */
    method Consider(key: Key, node: nat, i: nat, types: nat -> BlockType, outcomes: nat -> Outcome,
                    ghost init: seq<Waiter>, ghost was: map<ClientId, Client>, ghost kept: seq<Waiter>, ghost tail: seq<Waiter>)
      returns (receiver: ClientId, ghost kept': seq<Waiter>, ghost tail': seq<Waiter>)
      requires Valid() && Ready() && GoodOutcomes(outcomes)
      requires Waiting(init, was, key) && NoRepeats(ClientsOf(init)) && i < |init| && node == init[i].node
      requires Passed(init, was, clients, ListOf(lists, key), types, outcomes, key, i, kept, tail)
      requires SignalsHeard(init, was, types, outcomes, i, readyKeys)
      modifies this
      ensures Valid() && Ready() && draining == old(draining) && receiver == init[i].client
      ensures SignalsHeard(init, was, types, outcomes, i + 1, readyKeys)
      ensures Passed(init, was, clients, ListOf(lists, key), types, outcomes, key, i + 1, kept', tail') && tail <= tail'
    {
      hide Good, ReadyMatches, Served, Passed, Unlink, NodeIndex, Stayers, Rejoiners, Redone, Heard, SignalsHeard, Rejoined, NoRepeats;
      Current(init, was, clients, ListOf(lists, key), types, outcomes, key, i, kept, tail);
      PassedKnown(init, was, clients, ListOf(lists, key), types, outcomes, key, i, kept, tail);
      receiver := ListOf(lists, key)[NodeIndex(ListOf(lists, key), node)].client;
      kept', tail' := kept, tail;
      ghost var (now, ready) := (clients, readyKeys);
      assert Holds(was, key, init[i]);
      if Serves(clients[receiver], types(i)) {
        UnblockClientOnKey(receiver, key, outcomes(i));
        ValidDistinct(key);
        ServedStep(init, was, now, old(lists), types, outcomes, key, i, kept, tail, clients, lists, ready, readyKeys);
        tail' := tail + Rejoined(clients[receiver], receiver, key);
      } else {
        SignalsHeardMore(init, was, now, types, outcomes, i, ready, readyKeys);
        PassedOver(init, was, clients, ListOf(lists, key), types, outcomes, key, i, kept, tail);
        kept' := kept + [init[i]];
      }
    }

    /** `listNext` on the waiters of a key: the node the iterator holds must still be in the list. */
    method ListNext(key: Key, li: Option<nat>) returns (ln: Option<nat>, li': Option<nat>)
      requires li.Some? ==> NodeIndex(ListOf(lists, key), li.value) < |ListOf(lists, key)|
      ensures ln == li && li' == if li.Some? then NextNode(ListOf(lists, key), li.value) else None
    {
      ln, li' := li, None;
      if li.Some? {
        li' := NextNode(ListOf(lists, key), li.value);
      }
    }

    /** One round of the loop of `handleClientsBlockedOnKey`, up to the next `listNext`. */
    method Walk(key: Key, ln: nat, li: Option<nat>, i: nat, types: nat -> BlockType, outcomes: nat -> Outcome,
                ghost init: seq<Waiter>, ghost was: map<ClientId, Client>, ghost kept: seq<Waiter>, ghost tail: seq<Waiter>)
      returns (receiver: ClientId, ln': Option<nat>, li': Option<nat>, ghost kept': seq<Waiter>, ghost tail': seq<Waiter>)
      requires Valid() && Ready() && GoodOutcomes(outcomes)
      requires Waiting(init, was, key) && NoRepeats(ClientsOf(init)) && i < |init|
      requires Passed(init, was, clients, ListOf(lists, key), types, outcomes, key, i, kept, tail)
      requires Standing(init, i, tail, Some(ln), li)
      requires SignalsHeard(init, was, types, outcomes, i, readyKeys)
      modifies this
      ensures Valid() && Ready() && draining == old(draining) && receiver == init[i].client
      ensures SignalsHeard(init, was, types, outcomes, i + 1, readyKeys)
      ensures Passed(init, was, clients, ListOf(lists, key), types, outcomes, key, i + 1, kept', tail')
      ensures Standing(init, i + 1, tail', ln', li') && (i + 1 < |init| ==> ln'.Some?)
    {
      hide Good, ReadyMatches, Passed, NodeIndex, NextNode, Waiting, NoRepeats, GoodOutcomes, ClientsOf, ListOf, First, SignalsHeard;
      PassedKnown(init, was, clients, ListOf(lists, key), types, outcomes, key, i, kept, tail);
      receiver, kept', tail' := Consider(key, ln, i, types, outcomes, init, was, kept, tail);
      Advanced(init, was, clients, ListOf(lists, key), types, outcomes, key, i + 1, kept', tail', tail, li);
      ln', li' := ListNext(key, li);
    }

    /** `listRewind`, the initial count and the first `listNext`. */
    method StartWalk(key: Key, ghost types: nat -> BlockType, ghost outcomes: nat -> Outcome)
      returns (count: nat, ln: Option<nat>, li: Option<nat>)
      requires Valid() && key in lists
      ensures var init := ListOf(lists, key);
              && count == |init| && ln.Some? && Standing(init, 0, [], ln, li)
              && Passed(init, clients, clients, init, types, outcomes, key, 0, [], [])
              && Waiting(init, clients, key) && NoRepeats(ClientsOf(init))
              && Known(init, clients) && SignalsHeard(init, clients, types, outcomes, 0, readyKeys)
    {
      WaitingAtStart(View(), key);
      hide Good, Passed, NodeIndex, NextNode, Waiting, Known, NoRepeats, DistinctNodes, ClientsOf;
      ghost var init := ListOf(lists, key);
      PassBegins(init, clients, types, outcomes, key);
      Current(init, clients, clients, init, types, outcomes, key, 0, [], []);
      count := |lists[key]|;
      ln, li := ListNext(key, First(lists[key]));
    }

    /** The loop of `handleClientsBlockedOnKey`. */
    method WalkAll(key: Key, types: nat -> BlockType, outcomes: nat -> Outcome)
      returns (considered: seq<ClientId>, ghost kept: seq<Waiter>, ghost tail: seq<Waiter>)
      requires Valid() && Ready() && GoodOutcomes(outcomes) && key in lists
      modifies this
      ensures Valid() && Ready() && draining == old(draining)
      ensures var init := ListOf(old(lists), key);
              && considered == ClientsOf(init) && NoRepeats(considered) && Known(init, old(clients))
              && SignalsHeard(init, old(clients), types, outcomes, |init|, readyKeys)
              && Passed(init, old(clients), clients, ListOf(lists, key), types, outcomes, key, |init|, kept, tail)
    {
      hide Good, ReadyMatches, Passed, Waiting, NoRepeats, GoodOutcomes, Standing, ListOf;
      ghost var (init, was) := (ListOf(lists, key), clients);
      considered, kept, tail := [], [], [];
      var i := 0;
      var count, ln, li := StartWalk(key, types, outcomes);
      while ln.Some? && count > 0
        invariant Valid() && Ready() && draining == old(draining)
        invariant 0 <= i <= |init| && i + count == |init| && considered == ClientsOf(init)[..i]
        invariant i < |init| ==> ln.Some?
        invariant Passed(init, was, clients, ListOf(lists, key), types, outcomes, key, i, kept, tail)
        invariant Standing(init, i, tail, ln, li)
        invariant Known(init, was) && SignalsHeard(init, was, types, outcomes, i, readyKeys)
        decreases count
      {
        count := count - 1;
        var receiver;
        receiver, ln, li, kept, tail := Walk(key, ln.value, li, i, types, outcomes, init, was, kept, tail);
        considered, i := considered + [receiver], i + 1;
      }
    }

    /** `handleClientsBlockedOnKey`: every client waiting at the start is considered exactly once, in
        blocking order. The lookup and the reprocessing of the i-th one are given by the environment. */
    method HandleClientsBlockedOnKey(key: Key, types: nat -> BlockType, outcomes: nat -> Outcome)
      returns (considered: seq<ClientId>)
      requires Valid() && Ready() && GoodOutcomes(outcomes)
      modifies this
      ensures Valid() && Ready() && draining == old(draining)
      ensures KeyHandled(old(View()), key, types, outcomes, considered, View())
      ensures var init := ListOf(old(lists), key);
              Known(init, old(clients)) && SignalsHeard(init, old(clients), types, outcomes, |init|, readyKeys)
    {
      assert key !in lists ==> SignalsHeard(ListOf(lists, key), clients, types, outcomes, 0, readyKeys);
      hide Good, ReadyMatches, GoodOutcomes, SignalsHeard, Redone;
      considered := [];
      if key !in lists { return; }
      ghost var kept, tail;
      considered, kept, tail := WalkAll(key, types, outcomes);
      ghost var init := ListOf(old(lists), key);
      PassEnds(init, old(clients), clients, ListOf(lists, key), types, outcomes, key, kept, tail);
      assert Known(init, old(clients));
      forall j | 0 <= j < |init|
        ensures InListAfter(init, old(clients), ClientsOf(ListOf(lists, key)), types, outcomes, key, j)
      {
        WhoIsInList(init, old(clients), types, outcomes, key, j);
      }
    }

    /** One round of `handleClientsBlockedOnKeys`: the keys signalled so far are handled once each, in
        order; keys signalled meanwhile wait in a new list, also those being handled. `trace` is the
        index before each key is handled and at the end. */
    method ServeReadyKeys(types: Key -> nat -> BlockType, outcomes: Key -> nat -> Outcome)
      returns (handled: seq<Key>, considered: seq<seq<ClientId>>, ghost trace: seq<Index>)
      requires Valid() && Ready() && draining == [] && forall k :: GoodOutcomes(outcomes(k))
      modifies this
      ensures Valid() && Ready() && draining == [] && handled == old(readyList)
      ensures RoundServed(old(View()), types, outcomes, handled, considered, trace, View())
    {
      hide Good, ReadyMatches, KeyHandled, SignalsHeard, Known;
      handled, considered, trace := [], [], [View()];
      assert readyList + [] == [] + readyList;
      draining, readyList := readyList, [];
      while draining != []
        invariant Valid() && Ready() && handled + draining == old(readyList)
        invariant RoundServed(old(View()), types, outcomes, handled, considered, trace, View())
        decreases |draining|
      {
        ReadyTaken(readyKeys, readyList, draining);
        var key := draining[0];
        readyKeys := readyKeys - {key};
        draining := draining[1..];
        ghost var was := View();
        var passed := HandleClientsBlockedOnKey(key, types(key), outcomes(key));
        assert KeyHandled(was, key, types(key), outcomes(key), passed, View());
        ServedMore(old(View()), types, outcomes, handled, considered, trace, was, key, passed, View());
        handled, considered, trace := handled + [key], considered + [passed], trace + [View()];
      }
    }

    /** `blockPostponeClient`. */
    method BlockPostponeClient(c: ClientId)
      requires Valid() && c in clients && !clients[c].blocked
      modifies this`clients, this`blockedClients, this`blockedByType, this`postponedClients
      ensures Valid() && clients == old(clients)[c := old(clients)[c].(blocked := true, btype := Postponed, pendingCommand := true)]
    {
      hide Good;
      PostponingKeeps(View(), c, nextNode, blockedByType, blockedClients, unblockedClients, postponedClients);
      BlockClient(c, Postponed);
      postponedClients := postponedClients + [c];
      clients := clients[c := clients[c].(pendingCommand := true)];
      assert clients == old(clients)[c := clients[c]];
    }

    /** The head of the loop of `processUnblockedClients`. */
    method TakeUnblocked() returns (c: ClientId)
      requires Valid() && unblockedClients != []
      modifies this`clients, this`unblockedClients
      ensures Valid() && c == old(unblockedClients)[0] && unblockedClients == old(unblockedClients)[1..]
      ensures c in old(clients) && clients == old(clients)[c := old(clients)[c].(unblockedFlag := false)]
    {
      hide Good;
      DequeuingKeeps(View(), nextNode, blockedByType, blockedClients, unblockedClients, postponedClients);
      c := unblockedClients[0];
      unblockedClients := unblockedClients[1..];
      clients := clients[c := clients[c].(unblockedFlag := false)];
    }
  }
}
