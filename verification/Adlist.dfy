/** The doubly linked list (adlist.c), proved against the sequence of its nodes. */
module Adlist {

  class Node<T> {
    var prev: Node?<T>
    var next: Node?<T>
    var value: T

    /** `listInitNode`. */
    constructor (value: T)
      ensures this.value == value && prev == null && next == null
    {
      this.value := value;
      prev, next := null, null;
    }
  }

  ghost predicate Distinct<A>(s: seq<A>) {
    forall i, j :: 0 <= i < j < |s| ==> s[i] != s[j]
  }

  /** The nodes are chained in this order, forwards and backwards. */
  ghost predicate Chained<T>(nodes: seq<Node<T>>)
    reads nodes
  {
    && (forall i {:trigger nodes[i].next} :: 0 <= i < |nodes| - 1 ==> nodes[i].next == nodes[i + 1])
    && (forall i {:trigger nodes[i].prev} :: 1 <= i < |nodes| ==> nodes[i].prev == nodes[i - 1])
    && (nodes != [] ==> nodes[0].prev == null && nodes[|nodes| - 1].next == null)
  }

  lemma CutDistinct<A>(s: seq<A>, k: nat)
    requires Distinct(s) && k < |s|
    ensures Distinct(s[..k] + s[k + 1..])
  {
    var t := s[..k] + s[k + 1..];
    assert forall i :: 0 <= i < |t| ==> t[i] == s[if i < k then i else i + 1];
  }

  lemma JoinDistinct<A>(s: seq<A>, t: seq<A>)
    requires Distinct(s) && Distinct(t) && forall x :: x in s ==> x !in t
    ensures Distinct(s + t) && forall i, j :: 0 <= i < |s| && 0 <= j < |t| ==> s[i] != t[j]
  {
    forall i, j | 0 <= i < |s| && 0 <= j < |t| ensures s[i] != t[j] {
      assert s[i] in s;
    }
  }

  function Reverse<A>(s: seq<A>): seq<A> {
    if s == [] then [] else [s[|s| - 1]] + Reverse(s[..|s| - 1])
  }

  /** The elements that `kill` does not strike out, in order. */
  function Kept<A>(s: seq<A>, kill: seq<bool>): seq<A>
    requires |kill| == |s|
  {
    if s == [] then [] else Kept(s[..|s| - 1], kill[..|s| - 1]) + if kill[|s| - 1] then [] else [s[|s| - 1]]
  }

  lemma {:induction false} KeptFirst<A>(s: seq<A>, kill: seq<bool>)
    requires |kill| == |s| > 0
    ensures Kept(s, kill) == (if kill[0] then [] else [s[0]]) + Kept(s[1..], kill[1..])
  {
    if |s| > 1 {
      var (t, u) := (s[..|s| - 1], kill[..|s| - 1]);
      KeptFirst(t, u);
      assert s[1..][..|s| - 2] == t[1..] && kill[1..][..|s| - 2] == u[1..];
    } else {
      assert s[..0] == [] && s[1..] == [];
    }
  }

  class List<T> {
    var head: Node?<T>
    var tail: Node?<T>
    var len: nat
    ghost var nodes: seq<Node<T>>

    ghost predicate Valid()
      reads this, nodes
    {
      && len == |nodes|
      && Distinct(nodes)
      && Chained(nodes)
      && head == (if nodes == [] then null else nodes[0])
      && tail == (if nodes == [] then null else nodes[|nodes| - 1])
    }

    /** `listCreate`. */
    constructor ()
      ensures Valid() && nodes == []
    {
      head, tail, len, nodes := null, null, 0, [];
    }

    /** `listLinkNodeHead`. */
    method LinkNodeHead(node: Node<T>)
      requires Valid() && node !in nodes
      modifies this, node`prev, node`next, nodes`prev, nodes`next
      ensures Valid() && nodes == [node] + old(nodes)
    {
      if len == 0 {
        head, tail := node, node;
        node.prev, node.next := null, null;
      } else {
        node.prev, node.next := null, head;
        head.prev := node;
        head := node;
      }
      len := len + 1;
      nodes := [node] + nodes;
    }

    /** `listLinkNodeTail`. */
    method LinkNodeTail(node: Node<T>)
      requires Valid() && node !in nodes
      modifies this, node`prev, node`next, nodes`prev, nodes`next
      ensures Valid() && nodes == old(nodes) + [node]
    {
      if len == 0 {
        head, tail := node, node;
        node.prev, node.next := null, null;
      } else {
        node.prev, node.next := tail, null;
        tail.next := node;
        tail := node;
      }
      len := len + 1;
      nodes := nodes + [node];
    }

    /** `listAddNodeTail`. */
    method AddNodeTail(value: T)
      requires Valid()
      modifies this, nodes`prev, nodes`next
      ensures Valid() && |nodes| == |old(nodes)| + 1 && nodes[..|old(nodes)|] == old(nodes)
      ensures fresh(nodes[|old(nodes)|]) && nodes[|old(nodes)|].value == value
    {
      var node := new Node<T>(value);
      LinkNodeTail(node);
    }

    /** `listInsertNode`, before or after a node of the list. */
    method InsertNode(oldNode: Node<T>, value: T, after: bool, ghost k: nat) returns (node: Node<T>)
      requires Valid() && k < |nodes| && nodes[k] == oldNode
      modifies this, nodes`prev, nodes`next
      ensures Valid() && fresh(node) && node.value == value
      ensures var at := if after then k + 1 else k;
              nodes == old(nodes)[..at] + [node] + old(nodes)[at..]
    {
      node := new Node<T>(value);
      if after {
        node.prev, node.next := oldNode, oldNode.next;
        if tail == oldNode { tail := node; }
      } else {
        node.next, node.prev := oldNode, oldNode.prev;
        if head == oldNode { head := node; }
      }
      ghost var at := if after then k + 1 else k;
      assert node.prev == (if at > 0 then nodes[at - 1] else null);
      assert node.next == (if at < |nodes| then nodes[at] else null);
      assert head == (if at == 0 then node else nodes[0]);
      assert tail == (if at == |nodes| then node else nodes[|nodes| - 1]);
      LinkBetween(node, at);
    }

    method LinkBetween(node: Node<T>, ghost at: nat)
      requires at <= |nodes| && len == |nodes| && Distinct(nodes) && Chained(nodes) && node !in nodes
      requires node.prev == (if at > 0 then nodes[at - 1] else null)
      requires node.next == (if at < |nodes| then nodes[at] else null)
      requires head == (if at == 0 then node else nodes[0])
      requires tail == (if at == |nodes| then node else nodes[|nodes| - 1])
      modifies this`len, this`nodes, nodes`prev, nodes`next
      ensures Valid() && nodes == old(nodes)[..at] + [node] + old(nodes)[at..]
    {
      if node.prev != null { node.prev.next := node; }
      if node.next != null { node.next.prev := node; }
      len := len + 1;
      nodes := nodes[..at] + [node] + nodes[at..];
    }

    /** `listUnlinkNode`. */
    method UnlinkNode(node: Node<T>, ghost k: nat)
      requires Valid() && k < |nodes| && nodes[k] == node
      modifies this, nodes`prev, nodes`next
      ensures Valid() && nodes == old(nodes)[..k] + old(nodes)[k + 1..]
      ensures node.prev == null && node.next == null
    {
      CutDistinct(nodes, k);
      if node.prev != null { node.prev.next := node.next; } else { head := node.next; }
      if node.next != null { node.next.prev := node.prev; } else { tail := node.prev; }
      node.next, node.prev := null, null;
      len := len - 1;
      nodes := nodes[..k] + nodes[k + 1..];
    }

    /** `listRotateTailToHead`. */
    method RotateTailToHead()
      requires Valid()
      modifies this, nodes`prev, nodes`next
      ensures Valid()
      ensures nodes == if |old(nodes)| <= 1 then old(nodes) else [old(nodes)[|old(nodes)| - 1]] + old(nodes)[..|old(nodes)| - 1]
    {
      if len <= 1 { return; }
      var t := tail;
      tail := t.prev;
      tail.next := null;
      head.prev := t;
      t.prev, t.next := null, head;
      head := t;
      nodes := [nodes[|nodes| - 1]] + nodes[..|nodes| - 1];
    }

    /** `listRotateHeadToTail`. */
    method RotateHeadToTail()
      requires Valid()
      modifies this, nodes`prev, nodes`next
      ensures Valid()
      ensures nodes == if |old(nodes)| <= 1 then old(nodes) else old(nodes)[1..] + [old(nodes)[0]]
    {
      if len <= 1 { return; }
      var h := head;
      head := h.next;
      head.prev := null;
      tail.next := h;
      h.next, h.prev := null, tail;
      tail := h;
      nodes := nodes[1..] + [nodes[0]];
    }

    /** `listJoin`: all of `o` at the end of this list; `o` is left empty. */
    method Join(o: List<T>)
      requires Valid() && o.Valid() && o != this
      requires forall n :: n in nodes ==> n !in o.nodes
      modifies this, nodes`prev, nodes`next, o, o.nodes`prev, o.nodes`next
      ensures Valid() && o.Valid() && nodes == old(nodes) + old(o.nodes) && o.nodes == []
    {
      if o.len == 0 { return; }
      JoinDistinct(nodes, o.nodes);
      o.head.prev := tail;
      if tail != null { tail.next := o.head; } else { head := o.head; }
      tail := o.tail;
      len := len + o.len;
      o.head, o.tail, o.len := null, null, 0;
      nodes := nodes + o.nodes;
      o.nodes := [];
    }

    /** `listIndex`: from the head for 0, 1, ...; from the tail for -1, -2, ... */
    method Index(index: int) returns (n: Node?<T>)
      requires Valid()
      ensures n == if 0 <= index < |nodes| then nodes[index]
                   else if 0 < -index <= |nodes| then nodes[|nodes| + index]
                   else null
    {
      if index < 0 {
        var left := -index - 1;
        n := tail;
        while left != 0 && n != null
          invariant 0 <= left <= -index - 1
          invariant var k := |nodes| - 1 - (-index - 1 - left);
                    n == if k >= 0 then nodes[k] else null
          decreases left
        {
          n := n.prev;
          left := left - 1;
        }
      } else {
        var left := index;
        n := head;
        while left != 0 && n != null
          invariant 0 <= left <= index
          invariant n == if index - left < |nodes| then nodes[index - left] else null
          decreases left
        {
          n := n.next;
          left := left - 1;
        }
      }
    }

    /** `listDup` with a duplicating function for the values. */
    method Dup(dup: T -> T) returns (copy: List<T>)
      requires Valid()
      ensures copy.Valid() && fresh(copy) && fresh(copy.nodes)
      ensures |copy.nodes| == |nodes| && forall i :: 0 <= i < |nodes| ==> copy.nodes[i].value == dup(nodes[i].value)
    {
      hide Chained, Distinct;
      copy := new List<T>();
      var iter := head;
      ghost var k := 0;
      while iter != null
        invariant 0 <= k <= |nodes| && iter == if k < |nodes| then nodes[k] else null
        invariant copy.Valid() && fresh(copy) && fresh(copy.nodes) && |copy.nodes| == k
        invariant forall i :: 0 <= i < k ==> copy.nodes[i].value == dup(nodes[i].value)
        decreases |nodes| - k
      {
        LinksAt(this, k);
        copy.AddNodeTail(dup(iter.value));
        iter, k := iter.next, k + 1;
      }
    }
  }

  /** `listIter`. */
  class Iter<T> {
    var next: Node?<T>
    var fromHead: bool

    /** `listRewind` and `listRewindTail`. */
    constructor (list: List<T>, fromHead: bool)
      ensures next == (if fromHead then list.head else list.tail) && this.fromHead == fromHead
    {
      next := if fromHead then list.head else list.tail;
      this.fromHead := fromHead;
    }

    /** `listNext`: the successor is read before the node is handed out. */
    method Next() returns (current: Node?<T>)
      modifies this`next
      ensures current == old(next)
      ensures next == if current == null then null else if fromHead then current.next else current.prev
    {
      current := next;
      if current != null { next := if fromHead then current.next else current.prev; }
    }
  }

  ghost function Nth<T>(nodes: seq<Node<T>>, i: int): Node?<T> {
    if 0 <= i < |nodes| then nodes[i] else null
  }

  lemma LinksAt<T>(l: List<T>, i: nat)
    requires l.Valid() && i < |l.nodes|
    ensures l.nodes[i].next == Nth(l.nodes, i + 1) && l.nodes[i].prev == Nth(l.nodes, i - 1)
  {
  }

  /** A walk stands at position `at`: the node there is the current one, and the iterator has
      already read the node that follows it in its direction. */
  ghost predicate Standing<T>(l: List<T>, li: Iter<T>, node: Node?<T>, at: int, frame: set<Node<T>>)
    reads l, l.nodes, li
  {
    && l.Valid() && (forall i :: 0 <= i < |l.nodes| ==> l.nodes[i] in frame)
    && node == Nth(l.nodes, at)
    && li.next == Nth(l.nodes, if li.fromHead then at + 1 else at - 1)
    && -1 <= at <= |l.nodes|
  }

  /** The body of a walk: the node is unlinked or not, and the iterator goes on. */
  method Visit<T>(l: List<T>, li: Iter<T>, node: Node<T>, kill: bool, ghost at: int, ghost frame: set<Node<T>>)
    returns (next: Node?<T>)
    requires Standing(l, li, node, at, frame) && 0 <= at < |l.nodes|
    modifies l, li`next, frame`prev, frame`next
    ensures l.nodes == if kill then old(l.nodes)[..at] + old(l.nodes)[at + 1..] else old(l.nodes)
    ensures Standing(l, li, next, if !li.fromHead then at - 1 else if kill then at else at + 1, frame)
    ensures li.fromHead == old(li.fromHead)
  {
    hide Chained, Distinct;
    if kill { l.UnlinkNode(node, at); }
    ghost var to := if !li.fromHead then at - 1 else if kill then at else at + 1;
    if 0 <= to < |l.nodes| { LinksAt(l, to); }
    next := li.Next();
  }

  method Begin<T>(l: List<T>, li: Iter<T>, ghost frame: set<Node<T>>) returns (node: Node?<T>)
    requires l.Valid() && li.next == (if li.fromHead then l.head else l.tail)
    requires forall i :: 0 <= i < |l.nodes| ==> l.nodes[i] in frame
    modifies li`next
    ensures Standing(l, li, node, if li.fromHead then 0 else |l.nodes| - 1, frame)
    ensures li.fromHead == old(li.fromHead)
  {
    hide Chained, Distinct;
    if l.nodes != [] { LinksAt(l, if li.fromHead then 0 else |l.nodes| - 1); }
    node := li.Next();
  }

  lemma KeptLast<A>(s: seq<A>, kill: seq<bool>, k: nat)
    requires |kill| == |s| && k < |s|
    ensures Kept(s[..k + 1], kill[..k + 1]) == Kept(s[..k], kill[..k]) + if kill[k] then [] else [s[k]]
  {
    assert s[..k + 1][..k] == s[..k] && kill[..k + 1][..k] == kill[..k];
  }

  lemma KeptNothing<A>(s: seq<A>, kill: seq<bool>)
    requires |kill| == |s|
    ensures Kept(s[..0], kill[..0]) == [] && Kept(s[|s|..], kill[|s|..]) == []
    ensures [] + s == s && s[..|s|] + [] == s && s[..|s|] == s && kill[..|s|] == kill && s[0..] == s && kill[0..] == kill
  {
  }

  /** A walk from the head has passed `k` of the nodes and stands at `at` of those left. */
  ghost predicate Passed<A>(all: seq<A>, kill: seq<bool>, k: nat, nodes: seq<A>, at: nat, visited: seq<A>) {
    && |kill| == |all| && k <= |all| && visited == all[..k]
    && at == |Kept(all[..k], kill[..k])| && nodes == Kept(all[..k], kill[..k]) + all[k..]
  }

  lemma PassedNext<A>(all: seq<A>, kill: seq<bool>, k: nat, nodes: seq<A>, at: nat, visited: seq<A>)
    requires Passed(all, kill, k, nodes, at, visited) && at < |nodes|
    ensures k < |all| && k < |kill| && nodes[at] == all[k]
  {
  }

  lemma PassedOne<A>(all: seq<A>, kill: seq<bool>, k: nat, nodes: seq<A>, at: nat, visited: seq<A>, now: seq<A>, next: nat)
    requires Passed(all, kill, k, nodes, at, visited) && at < |nodes| && k < |all|
    requires now == if kill[k] then nodes[..at] + nodes[at + 1..] else nodes
    requires next == if kill[k] then at else at + 1
    ensures Passed(all, kill, k + 1, now, next, visited + [all[k]])
  {
    KeptLast(all, kill, k);
    hide Kept;
    assert all[..k] + [all[k]] == all[..k + 1];
  }

  lemma PassedBounds<A>(all: seq<A>, kill: seq<bool>, k: nat, nodes: seq<A>, at: nat, visited: seq<A>)
    requires |kill| == |all|
    ensures k == 0 && nodes == all && at == 0 && visited == [] ==> Passed(all, kill, k, nodes, at, visited)
    ensures Passed(all, kill, k, nodes, at, visited) && at >= |nodes| ==> visited == all && nodes == Kept(all, kill)
  {
    KeptNothing(all, kill);
  }

  lemma BackwardStep<A>(all: seq<A>, kill: seq<bool>, k: nat, nodes: seq<A>)
    requires |kill| == |all| && k < |all| && nodes == all[..k + 1] + Kept(all[k + 1..], kill[k + 1..])
    ensures nodes[k] == all[k]
    ensures (if kill[k] then nodes[..k] + nodes[k + 1..] else nodes) == all[..k] + Kept(all[k..], kill[k..])
    ensures [all[k]] + Reverse(all[..k]) == Reverse(all[..k + 1])
  {
    KeptFirst(all[k..], kill[k..]);
    assert all[k..][1..] == all[k + 1..] && kill[k..][1..] == kill[k + 1..];
    assert all[..k + 1][..k] == all[..k];
    hide Kept;
  }

  /** The state of a walk from the head, list, iterator and record together. */
  ghost predicate Walking<T>(l: List<T>, li: Iter<T>, node: Node?<T>, all: seq<Node<T>>, kill: seq<bool>,
                             k: nat, visited: seq<Node<T>>, frame: set<Node<T>>)
    reads l, l.nodes, li
  {
    && li.fromHead && |kill| == |all| && k <= |all|
    && Standing(l, li, node, |Kept(all[..k], kill[..k])|, frame)
    && Passed<Node<T>>(all, kill, k, l.nodes, |Kept(all[..k], kill[..k])|, visited)
  }

  method PassForward<T>(l: List<T>, li: Iter<T>, node: Node<T>, kill: seq<bool>, k: nat,
                        ghost all: seq<Node<T>>, ghost visited: seq<Node<T>>, ghost frame: set<Node<T>>)
    returns (next: Node?<T>)
    requires Walking(l, li, node, all, kill, k, visited, frame)
    modifies l, li`next, frame`prev, frame`next
    ensures k < |all| && Walking(l, li, next, all, kill, k + 1, visited + [node], frame)
  {
    hide Chained, Distinct, Kept;
    ghost var before := l.nodes;
    ghost var at := |Kept(all[..k], kill[..k])|;
    PassedNext<Node<T>>(all, kill, k, before, at, visited);
    hide Passed;
    next := Visit(l, li, node, kill[k], at, frame);
    PassedOne<Node<T>>(all, kill, k, before, at, visited, l.nodes, if kill[k] then at else at + 1);
    KeptLast(all, kill, k);
  }

  /** Walking from the head while unlinking some of the nodes handed out, as `aofDelHistoryFiles`
      does: every node is visited once, in order, and the others stay. */
  method SweepFromHead<T>(l: List<T>, kill: seq<bool>) returns (visited: seq<Node<T>>)
    requires l.Valid() && |kill| == l.len
    modifies l, l.nodes`prev, l.nodes`next
    ensures l.Valid() && visited == old(l.nodes) && l.nodes == Kept(old(l.nodes), kill)
  {
    hide Walking, Kept, Standing;
    visited := [];
    var li := new Iter(l, true);
    ghost var all, frame := l.nodes, set n | n in l.nodes;
    var node := Begin(l, li, frame);
    var k: nat := 0;
    WalkBegins(l, li, node, all, kill, frame);
    while node != null
      invariant fresh(li)
      invariant Walking(l, li, node, all, kill, k, visited, frame)
      decreases |all| - k
    {
      var current: Node<T> := node;
      node := PassForward(l, li, current, kill, k, all, visited, frame);
      visited := visited + [current];
      k := k + 1;
    }
    WalkEnds(l, li, all, kill, k, visited, frame);
  }

  lemma WalkBegins<T>(l: List<T>, li: Iter<T>, node: Node?<T>, all: seq<Node<T>>, kill: seq<bool>, frame: set<Node<T>>)
    requires Standing(l, li, node, 0, frame) && li.fromHead && l.nodes == all && |kill| == |all|
    ensures Walking(l, li, node, all, kill, 0, [], frame)
  {
    KeptNothing(all, kill);
    PassedBounds<Node<T>>(all, kill, 0, l.nodes, 0, []);
  }

  lemma WalkEnds<T>(l: List<T>, li: Iter<T>, all: seq<Node<T>>, kill: seq<bool>, k: nat, visited: seq<Node<T>>, frame: set<Node<T>>)
    requires Walking(l, li, null, all, kill, k, visited, frame)
    ensures l.Valid() && visited == all && |kill| == |all| && l.nodes == Kept(all, kill)
  {
    PassedBounds<Node<T>>(all, kill, k, l.nodes, |Kept(all[..k], kill[..k])|, visited);
  }

  lemma StandingEnd<T>(l: List<T>, li: Iter<T>, at: int, frame: set<Node<T>>)
    requires Standing(l, li, null, at, frame)
    ensures l.Valid() && (at < 0 || at >= |l.nodes|)
  {
  }

  /** A walk from the tail has `k` nodes before it. */
  ghost predicate Left<A>(all: seq<A>, kill: seq<bool>, k: nat, nodes: seq<A>, visited: seq<A>) {
    && |kill| == |all| && k <= |all|
    && nodes == all[..k] + Kept(all[k..], kill[k..])
    && visited + Reverse(all[..k]) == Reverse(all)
  }

  lemma LeftOne<A>(all: seq<A>, kill: seq<bool>, k: nat, nodes: seq<A>, visited: seq<A>, now: seq<A>)
    requires Left(all, kill, k + 1, nodes, visited)
    requires now == if kill[k] then nodes[..k] + nodes[k + 1..] else nodes
    ensures Left(all, kill, k, now, visited + [nodes[k]])
  {
    BackwardStep(all, kill, k, nodes);
    hide Kept, Reverse;
    assert visited + ([all[k]] + Reverse(all[..k])) == visited + [all[k]] + Reverse(all[..k]);
  }

  lemma LeftBounds<A>(all: seq<A>, kill: seq<bool>, k: nat, nodes: seq<A>, visited: seq<A>)
    requires |kill| == |all|
    ensures k == |all| && nodes == all && visited == [] ==> Left(all, kill, k, nodes, visited)
    ensures Left(all, kill, k, nodes, visited) ==> k <= |nodes| && k <= |kill|
    ensures Left(all, kill, k, nodes, visited) && k == 0 ==> visited == Reverse(all) && nodes == Kept(all, kill)
  {
    KeptNothing(all, kill);
    assert all[..0] == [] && Reverse(all[..0]) == [] && visited + [] == visited;
  }

  method PassBackward<T>(l: List<T>, li: Iter<T>, node: Node<T>, kill: seq<bool>, k: nat,
                         ghost all: seq<Node<T>>, ghost visited: seq<Node<T>>, ghost frame: set<Node<T>>)
    returns (next: Node?<T>)
    requires |kill| == |all| && Standing(l, li, node, k, frame) && !li.fromHead
    requires Left<Node<T>>(all, kill, k + 1, l.nodes, visited)
    modifies l, li`next, frame`prev, frame`next
    ensures Standing(l, li, next, k - 1, frame) && !li.fromHead
    ensures Left<Node<T>>(all, kill, k, l.nodes, visited + [node])
  {
    hide Chained, Distinct, Left, Kept;
    ghost var before := l.nodes;
    LeftBounds<Node<T>>(all, kill, k + 1, before, visited);
    next := Visit(l, li, node, kill[k], k, frame);
    LeftOne<Node<T>>(all, kill, k, before, visited, l.nodes);
  }

  /** The same from the tail, as `markRewrittenIncrAofAsHistory` does. */
  method SweepFromTail<T>(l: List<T>, kill: seq<bool>) returns (visited: seq<Node<T>>)
    requires l.Valid() && |kill| == l.len
    modifies l, l.nodes`prev, l.nodes`next
    ensures l.Valid() && visited == Reverse(old(l.nodes)) && l.nodes == Kept(old(l.nodes), kill)
  {
    hide Kept, Reverse, Left, Standing;
    visited := [];
    var li := new Iter(l, false);
    ghost var all, frame := l.nodes, set n | n in l.nodes;
    var k: nat := l.len;
    var node := Begin(l, li, frame);
    LeftBounds<Node<T>>(all, kill, k, l.nodes, []);
    while node != null
      invariant !li.fromHead && fresh(li)
      invariant Standing(l, li, node, k - 1, frame)
      invariant Left<Node<T>>(all, kill, k, l.nodes, visited)
      decreases k
    {
      StandingAt(l, li, node, k - 1, frame);
      k := k - 1;
      var current: Node<T> := node;
      node := PassBackward(l, li, current, kill, k, all, visited, frame);
      visited := visited + [current];
    }
    StandingEnd(l, li, k - 1, frame);
    LeftBounds<Node<T>>(all, kill, k, l.nodes, visited);
  }

  lemma StandingAt<T>(l: List<T>, li: Iter<T>, node: Node<T>, at: int, frame: set<Node<T>>)
    requires Standing(l, li, node, at, frame)
    ensures 0 <= at < |l.nodes|
  {
  }
}
