/** What one pass over the waiters of a ready key does, on values: who is considered, who stays in
    the list, who joins its tail again, and where the iterator stands. */
module FairPass {
  import opened Text
  import opened Blocked

  function ClientsOf(l: seq<Waiter>): (r: seq<ClientId>)
    ensures |r| == |l| && forall i :: 0 <= i < |l| ==> r[i] == l[i].client
  {
    seq(|l|, i requires 0 <= i < |l| => l[i].client)
  }

  /** The condition of `handleClientsBlockedOnKey`; `NoBlock` stands for a missing key or another type. */
  predicate Serves(cl: Client, objType: BlockType) {
    (!objType.NoBlock? && cl.btype == objType) || cl.unblockOnNokey
  }

  ghost predicate Known(init: seq<Waiter>, clients: map<ClientId, Client>) {
    forall i :: 0 <= i < |init| ==> init[i].client in clients
  }

  /** The clients among the first `n` that are passed over, in order. */
  ghost function Stayers(init: seq<Waiter>, clients: map<ClientId, Client>, types: nat -> BlockType, n: nat): seq<ClientId>
    requires n <= |init| && Known(init, clients)
  {
    if n == 0 then []
    else Stayers(init, clients, types, n - 1)
         + if Serves(clients[init[n - 1].client], types(n - 1)) then [] else [init[n - 1].client]
  }

  /** The served clients among the first `n` whose command waits for the same key again, in order. */
  ghost function Rejoiners(init: seq<Waiter>, clients: map<ClientId, Client>, types: nat -> BlockType,
                           outcomes: nat -> Outcome, key: Key, n: nat): seq<ClientId>
    requires n <= |init| && Known(init, clients)
  {
    if n == 0 then []
    else Rejoiners(init, clients, types, outcomes, key, n - 1)
         + if Serves(clients[init[n - 1].client], types(n - 1)) && Again(outcomes(n - 1), key) then [init[n - 1].client] else []
  }

  predicate Again(outcome: Outcome, key: Key) { outcome.BlockAgain? && key in outcome.keys }

  function First(l: seq<Waiter>): Option<nat> {
    if l == [] then None else Some(l[0].node)
  }

  /** `ln->next`, for a node that is in the list. */
  function NextNode(l: seq<Waiter>, node: nat): Option<nat>
    requires NodeIndex(l, node) < |l|
  {
    First(l[NodeIndex(l, node) + 1..])
  }

  lemma Around(a: seq<Waiter>, w: Waiter, b: seq<Waiter>)
    requires DistinctNodes(a + [w] + b)
    ensures var l := a + [w] + b;
            NodeIndex(l, w.node) == |a| && NextNode(l, w.node) == First(b) && Unlink(l, w.node) == a + b
  {
    var l := a + [w] + b;
    assert l[|a|] == w;
    var i := NodeIndex(l, w.node);
    assert i <= |a|;
    assert i == |a|;
    assert l[..|a|] == a && l[|a| + 1..] == b;
  }

  /** What has become of waiter `j`: one that waits for this type, or for the key to go, is out and
      queued, or blocked by its command again; any other is as it was. */
  ghost predicate Settled(init: seq<Waiter>, was: map<ClientId, Client>, now: map<ClientId, Client>,
                          types: nat -> BlockType, outcomes: nat -> Outcome, j: nat)
    requires j < |init| && Known(init, was)
  {
    var (c, cl) := (init[j].client, was[init[j].client]);
    && c in now
    && if (types(j) != NoBlock && cl.btype == types(j)) || cl.unblockOnNokey then Redone(now[c], outcomes(j))
       else now[c] == cl
  }

  /** The signals of the commands redone for the first `i` waiters have reached the clients that the
      pass does not touch. */
  ghost predicate SignalsHeard(init: seq<Waiter>, was: map<ClientId, Client>, types: nat -> BlockType,
                               outcomes: nat -> Outcome, i: nat, readyKeys: set<Key>)
    requires i <= |init| && Known(init, was)
  {
    forall j :: 0 <= j < i ==>
      var cl := was[init[j].client];
      (types(j) != NoBlock && cl.btype == types(j)) || cl.unblockOnNokey ==>
        Heard(map c | c in was && c !in ClientsOf(init) :: was[c], outcomes(j).signals, readyKeys)
  }

  /** After `i` waiters: those passed over keep their places, the rest of the initial list is
      untouched, and the ones that blocked again stand behind it. */
  ghost predicate Passed(init: seq<Waiter>, was: map<ClientId, Client>, now: map<ClientId, Client>, l: seq<Waiter>,
                         types: nat -> BlockType, outcomes: nat -> Outcome, key: Key,
                         i: nat, kept: seq<Waiter>, tail: seq<Waiter>)
  {
    && i <= |init| && Known(init, was) && DistinctNodes(l)
    && l == kept + init[i..] + tail
    && ClientsOf(kept) == Stayers(init, was, types, i)
    && ClientsOf(tail) == Rejoiners(init, was, types, outcomes, key, i)
    && (forall j :: i <= j < |init| ==> init[j].client in now && now[init[j].client] == was[init[j].client])
    && (forall j :: 0 <= j < i ==> Settled(init, was, now, types, outcomes, j))
    && (forall c :: c in was && c !in ClientsOf(init) ==> c in now && now[c] == was[c])
  }

  /** Where the iterator stands: on the next waiter of the initial list, and its successor is already read. */
  ghost predicate Standing(init: seq<Waiter>, i: nat, tail: seq<Waiter>, ln: Option<nat>, li: Option<nat>) {
    i < |init| ==> ln == Some(init[i].node) && li == First(init[i + 1..] + tail)
  }

  lemma PassedKnown(init: seq<Waiter>, was: map<ClientId, Client>, now: map<ClientId, Client>, l: seq<Waiter>,
                    types: nat -> BlockType, outcomes: nat -> Outcome, key: Key, i: nat, kept: seq<Waiter>, tail: seq<Waiter>)
    requires Passed(init, was, now, l, types, outcomes, key, i, kept, tail)
    ensures i <= |init| && Known(init, was)
    ensures forall c :: c in was && c !in ClientsOf(init) ==> c in now && now[c] == was[c]
  {
  }

  lemma PassBegins(init: seq<Waiter>, clients: map<ClientId, Client>, types: nat -> BlockType, outcomes: nat -> Outcome, key: Key)
    requires Known(init, clients) && DistinctNodes(init)
    ensures Passed(init, clients, clients, init, types, outcomes, key, 0, [], [])
  {
    assert [] + init[0..] + [] == init;
    assert ClientsOf([]) == [];
  }

  lemma PassEnds(init: seq<Waiter>, was: map<ClientId, Client>, now: map<ClientId, Client>, l: seq<Waiter>,
                 types: nat -> BlockType, outcomes: nat -> Outcome, key: Key, kept: seq<Waiter>, tail: seq<Waiter>)
    requires Passed(init, was, now, l, types, outcomes, key, |init|, kept, tail)
    ensures ClientsOf(l) == Stayers(init, was, types, |init|) + Rejoiners(init, was, types, outcomes, key, |init|)
    ensures forall j :: 0 <= j < |init| ==> Settled(init, was, now, types, outcomes, j)
    ensures forall c :: c in was && c !in ClientsOf(init) ==> c in now && now[c] == was[c]
  {
    hide Stayers, Rejoiners;
    assert init[|init|..] == [];
    assert l == kept + tail;
    assert ClientsOf(l) == ClientsOf(kept) + ClientsOf(tail);
  }

  /** The waiter the iterator stands on is in the list, between those kept and those to come. */
  lemma Current(init: seq<Waiter>, was: map<ClientId, Client>, now: map<ClientId, Client>, l: seq<Waiter>,
                types: nat -> BlockType, outcomes: nat -> Outcome, key: Key, i: nat, kept: seq<Waiter>, tail: seq<Waiter>)
    requires Passed(init, was, now, l, types, outcomes, key, i, kept, tail) && i < |init|
    ensures l == kept + [init[i]] + (init[i + 1..] + tail) && NodeIndex(l, init[i].node) == |kept| < |l|
    ensures NextNode(l, init[i].node) == First(init[i + 1..] + tail)
    ensures l[|kept|] == init[i] && Unlink(l, init[i].node) == kept + (init[i + 1..] + tail)
    ensures init[i].client in now && now[init[i].client] == was[init[i].client]
  {
    hide Stayers, Rejoiners, NextNode, Unlink, NodeIndex, Settled, DistinctNodes;
    CurrentInList(init, l, i, kept, tail);
  }

  lemma CurrentInList(init: seq<Waiter>, l: seq<Waiter>, i: nat, kept: seq<Waiter>, tail: seq<Waiter>)
    requires i < |init| && l == kept + init[i..] + tail && DistinctNodes(l)
    ensures l == kept + [init[i]] + (init[i + 1..] + tail) && NodeIndex(l, init[i].node) == |kept| < |l|
    ensures NextNode(l, init[i].node) == First(init[i + 1..] + tail)
    ensures l[|kept|] == init[i] && Unlink(l, init[i].node) == kept + (init[i + 1..] + tail)
  {
    hide NextNode, Unlink, NodeIndex, DistinctNodes;
    assert init[i..] == [init[i]] + init[i + 1..];
    assert l == kept + [init[i]] + (init[i + 1..] + tail);
    Around(kept, init[i], init[i + 1..] + tail);
  }

  lemma PassedOver(init: seq<Waiter>, was: map<ClientId, Client>, now: map<ClientId, Client>, l: seq<Waiter>,
                   types: nat -> BlockType, outcomes: nat -> Outcome, key: Key, i: nat, kept: seq<Waiter>, tail: seq<Waiter>)
    requires Passed(init, was, now, l, types, outcomes, key, i, kept, tail) && i < |init|
    requires !Serves(was[init[i].client], types(i))
    ensures Passed(init, was, now, l, types, outcomes, key, i + 1, kept + [init[i]], tail)
  {
    assert Settled(init, was, now, types, outcomes, i);
    hide Settled;
    assert init[i..] == [init[i]] + init[i + 1..];
    assert kept + [init[i]] + init[i + 1..] + tail == l;
    assert ClientsOf(kept + [init[i]]) == ClientsOf(kept) + [init[i].client];
  }

  lemma PassedServed(init: seq<Waiter>, was: map<ClientId, Client>, now: map<ClientId, Client>, l: seq<Waiter>,
                     types: nat -> BlockType, outcomes: nat -> Outcome, key: Key, i: nat, kept: seq<Waiter>, tail: seq<Waiter>,
                     now': map<ClientId, Client>, l': seq<Waiter>, more: seq<Waiter>)
    requires Passed(init, was, now, l, types, outcomes, key, i, kept, tail) && i < |init|
    requires Serves(was[init[i].client], types(i)) && NoRepeats(ClientsOf(init)) && DistinctNodes(l')
    requires init[i].client in now' && now' == now[init[i].client := now'[init[i].client]]
    requires l' == kept + (init[i + 1..] + tail) + more
    requires ClientsOf(more) == if Again(outcomes(i), key) then [init[i].client] else []
    requires Redone(now'[init[i].client], outcomes(i))
    ensures Passed(init, was, now', l', types, outcomes, key, i + 1, kept, tail + more)
  {
    forall j | 0 <= j < i ensures Settled(init, was, now', types, outcomes, j) {
      assert Settled(init, was, now, types, outcomes, j);
      assert ClientsOf(init)[j] != ClientsOf(init)[i];
    }
    assert Settled(init, was, now', types, outcomes, i);
    assert init[i].client in ClientsOf(init) by { assert ClientsOf(init)[i] == init[i].client; }
    hide Settled;
    assert l' == kept + init[i + 1..] + (tail + more);
    assert ClientsOf(tail + more) == ClientsOf(tail) + ClientsOf(more);
    forall j | i + 1 <= j < |init| ensures init[j].client in now' && now'[init[j].client] == was[init[j].client] {
      assert ClientsOf(init)[j] != ClientsOf(init)[i];
    }
  }

  /** The successor read before the waiter was handled is still in the list afterwards. */
  lemma Advanced(init: seq<Waiter>, was: map<ClientId, Client>, now: map<ClientId, Client>, l: seq<Waiter>,
                 types: nat -> BlockType, outcomes: nat -> Outcome, key: Key, i: nat, kept: seq<Waiter>, tail: seq<Waiter>,
                 tailBefore: seq<Waiter>, li: Option<nat>)
    requires Passed(init, was, now, l, types, outcomes, key, i, kept, tail) && i > 0
    requires tailBefore <= tail && li == First(init[i..] + tailBefore)
    ensures li.Some? ==> NodeIndex(l, li.value) < |l|
    ensures i < |init| ==> li == Some(init[i].node) && NextNode(l, init[i].node) == First(init[i + 1..] + tail)
  {
    hide Stayers, Rejoiners;
    if i < |init| {
      Current(init, was, now, l, types, outcomes, key, i, kept, tail);
      assert (init[i..] + tailBefore)[0] == init[i];
    } else if tailBefore != [] {
      assert init[i..] + tailBefore == tailBefore;
      assert l[|kept|] == tail[0];
      assert l[|kept|].node == li.value;
    }
  }

  /** Every waiter of the initial list is registered with its client. */
  ghost predicate Waiting(init: seq<Waiter>, clients: map<ClientId, Client>, key: Key) {
    forall i :: 0 <= i < |init| ==> Holds(clients, key, init[i])
  }

  lemma WaitingAtStart(ix: Index, key: Key)
    requires IndexInv(ix) && key in ix.lists
    ensures var l := ListOf(ix.lists, key);
            l != [] && Waiting(l, ix.clients, key) && Known(l, ix.clients) && DistinctNodes(l) && NoRepeats(ClientsOf(l))
  {
    var l := ix.lists[key];
    forall i | 0 <= i < |l| ensures Holds(ix.clients, key, l[i]) {}
    forall i, j | 0 <= i < j < |l| ensures l[i].client != l[j].client {
      WaitsOnce(ix, key, i, j);
    }
  }

  // ---------- Who is in the list afterwards ----------

  lemma {:induction false} StayersAre(init: seq<Waiter>, clients: map<ClientId, Client>, types: nat -> BlockType, n: nat)
    requires n <= |init| && Known(init, clients)
    ensures forall c :: c in Stayers(init, clients, types, n) <==>
              exists j :: 0 <= j < n && init[j].client == c && !Serves(clients[c], types(j))
  {
    hide Serves;
    if n > 0 {
      StayersAre(init, clients, types, n - 1);
      forall c ensures c in Stayers(init, clients, types, n) <==>
                         exists j :: 0 <= j < n && init[j].client == c && !Serves(clients[c], types(j)) {
        if !Serves(clients[init[n - 1].client], types(n - 1)) { assert init[n - 1].client in Stayers(init, clients, types, n); }
      }
    }
  }

  lemma {:induction false} RejoinersAre(init: seq<Waiter>, clients: map<ClientId, Client>, types: nat -> BlockType,
                                        outcomes: nat -> Outcome, key: Key, n: nat)
    requires n <= |init| && Known(init, clients)
    ensures forall c :: c in Rejoiners(init, clients, types, outcomes, key, n) <==>
              exists j :: 0 <= j < n && init[j].client == c && Serves(clients[c], types(j)) && Again(outcomes(j), key)
  {
    hide Serves, Again;
    if n > 0 { RejoinersAre(init, clients, types, outcomes, key, n - 1); }
  }

  /** Each waiter of the start, afterwards: one that waits for this type, or for the key to go, is out of
      the list unless its command waits for the key again; any other still stands in it. */
  ghost predicate InListAfter(init: seq<Waiter>, was: map<ClientId, Client>, after: seq<ClientId>,
                              types: nat -> BlockType, outcomes: nat -> Outcome, key: Key, j: nat)
    requires j < |init| && Known(init, was)
  {
    var cl := was[init[j].client];
    init[j].client in after <==>
      if (types(j) != NoBlock && cl.btype == types(j)) || cl.unblockOnNokey
      then outcomes(j).BlockAgain? && key in outcomes(j).keys
      else true
  }

  lemma WhoIsInList(init: seq<Waiter>, was: map<ClientId, Client>, types: nat -> BlockType, outcomes: nat -> Outcome, key: Key, j: nat)
    requires j < |init| && Known(init, was) && NoRepeats(ClientsOf(init))
    ensures InListAfter(init, was, Stayers(init, was, types, |init|) + Rejoiners(init, was, types, outcomes, key, |init|), types, outcomes, key, j)
  {
    var c := init[j].client;
    StayersAre(init, was, types, |init|);
    RejoinersAre(init, was, types, outcomes, key, |init|);
    hide Stayers, Rejoiners;
    forall m | 0 <= m < |init| && init[m].client == c ensures m == j {
      assert ClientsOf(init)[m] == ClientsOf(init)[j];
    }
  }
}
