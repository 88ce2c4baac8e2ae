/** The wait nodes of NyaAbstractQueuedSynchronized and the invariants of the
    sync queue they form, stated over plain values: an arena `nodes` (a node
    is named by its index) and the sync queue `q`, the node ids from the
    head to the tail. `prev` is the authoritative link; `next` is a cache
    that may lag behind. */
module WaitQueue {
  import opened Base

  /** A node is named by its index in the arena. */
  type NodeId = nat

  /** waitStatus values (Node.CANCELLED, SIGNAL, CONDITION, PROPAGATE; 0 is none). */
  const CANCELLED: int := 1
  const SIGNAL: int := -1
  const CONDITION: int := -2
  const PROPAGATE: int := -3

  predicate IsWaitStatus(ws: int) {
    ws == CANCELLED || ws == 0 || ws == SIGNAL || ws == CONDITION || ws == PROPAGATE
  }

  /** `Node`: status, the two sync-queue links and the waiting thread. The
      condition-queue link `nextWaiter` is kept apart, in
      `Condition.ConditionObject.nextWaiter`, since only condition objects
      touch it. */
  datatype Node = Node(
    waitStatus: int,
    prev: Option<NodeId>,
    next: Option<NodeId>,
    thread: Option<ThreadId>)

  /** The three constructors `Node()`, `Node(thread, mode)` and
      `Node(thread, waitStatus)`: every link starts out null. */
  function NewNode(thread: Option<ThreadId>, waitStatus: int): Node {
    Node(waitStatus, None, None, thread)
  }

  predicate LinkIn(l: Option<NodeId>, size: nat) {
    l.None? || l.value < size
  }

  /** Every link of `nd` stays inside an arena of `size` nodes, its status is
      one of the five values, and a node waiting on a condition has a thread
      and no sync-queue links. */
  predicate Fits(nd: Node, size: nat) {
    && LinkIn(nd.prev, size)
    && LinkIn(nd.next, size)
    && IsWaitStatus(nd.waitStatus)
    && (nd.waitStatus == CONDITION ==> nd.prev.None? && nd.next.None? && nd.thread.Some?)
  }

  ghost predicate NodesOk(nodes: seq<Node>) {
    forall n :: 0 <= n < |nodes| ==> Fits(nodes[n], |nodes|)
  }

  ghost predicate InArena(q: seq<NodeId>, nodes: seq<Node>) {
    forall i :: 0 <= i < |q| ==> q[i] < |nodes|
  }

  /** No node occurs twice in `q`. */
  ghost predicate Distinct(q: seq<NodeId>) {
    forall i, j :: 0 <= i < j < |q| ==> q[i] != q[j]
  }

  /** A cancelled node whose thread has been cleared: it never waits again. */
  ghost predicate Dead(nodes: seq<Node>, n: NodeId) {
    n < |nodes| && nodes[n].waitStatus > 0 && nodes[n].thread.None?
  }

  /** Every queue position in `[a, b)` holds a cancelled node. */
  ghost predicate CancelledBetween(q: seq<NodeId>, nodes: seq<Node>, a: int, b: int)
    requires InArena(q, nodes)
  {
    forall k {:trigger nodes[q[k]]} :: a <= k < b && 0 <= k < |q| ==> nodes[q[k]].waitStatus > 0
  }

  /** The `next` cache of the node at position `i` is null, or names a dead
      node, or names a later queue node with only cancelled nodes between. */
  ghost predicate NextOk(q: seq<NodeId>, nodes: seq<Node>, i: int)
    requires InArena(q, nodes) && 0 <= i < |q|
  {
    nodes[q[i]].next.Some? ==>
      var x := nodes[q[i]].next.value;
      Dead(nodes, x) ||
      exists j :: i < j < |q| && q[j] == x && CancelledBetween(q, nodes, i + 1, j)
  }

  /** `head` and `tail` are the ends of `q`; the head has no predecessor, no
      waiter thread, and is never cancelled. */
  ghost predicate Ends(q: seq<NodeId>, nodes: seq<Node>, head: Option<NodeId>, tail: Option<NodeId>)
    requires InArena(q, nodes)
  {
    && (q == [] ==> head.None? && tail.None?)
    && (q != [] ==>
          && head == Some(q[0]) && tail == Some(q[|q| - 1])
          && nodes[q[0]].prev.None? && nodes[q[0]].thread.None? && nodes[q[0]].waitStatus <= 0)
  }

  /** Every waiter's `prev` link names the node before it. */
  ghost predicate PrevChain(q: seq<NodeId>, nodes: seq<Node>)
    requires InArena(q, nodes)
  {
    forall i :: 1 <= i < |q| ==> LinkedBack(q, nodes, i)
  }

  /** The waiter at position `i` links back to the node at position `i - 1`. */
  ghost predicate LinkedBack(q: seq<NodeId>, nodes: seq<Node>, i: nat)
    requires InArena(q, nodes) && 1 <= i < |q|
  {
    nodes[q[i]].prev == Some(q[i - 1])
  }

  /** A waiter carries its thread exactly until it cancels, and no queue
      node waits on a condition. */
  ghost predicate Statuses(q: seq<NodeId>, nodes: seq<Node>)
    requires InArena(q, nodes)
  {
    && (forall i :: 1 <= i < |q| ==> (nodes[q[i]].thread.Some? <==> nodes[q[i]].waitStatus <= 0))
    && (forall i :: 0 <= i < |q| ==> nodes[q[i]].waitStatus != CONDITION)
  }

  ghost predicate AllNextOk(q: seq<NodeId>, nodes: seq<Node>)
    requires InArena(q, nodes)
  {
    forall i :: 0 <= i < |q| ==> NextOk(q, nodes, i)
  }

  /** The sync queue `q` is the `prev` chain from `tail` back to `head`. */
  ghost predicate QueueOk(q: seq<NodeId>, nodes: seq<Node>, head: Option<NodeId>, tail: Option<NodeId>) {
    && InArena(q, nodes)
    && Distinct(q)
    && Ends(q, nodes, head, tail)
    && PrevChain(q, nodes)
    && Statuses(q, nodes)
    && AllNextOk(q, nodes)
  }

  /** A node off the sync queue keeps a `prev` link only if it was cancelled. */
  ghost predicate OffQueueOk(q: seq<NodeId>, nodes: seq<Node>) {
    forall n :: 0 <= n < |nodes| && nodes[n].prev.Some? && n !in q ==> nodes[n].waitStatus > 0
  }

  /** The whole invariant of the node arena and the sync queue. */
  ghost predicate SyncOk(q: seq<NodeId>, nodes: seq<Node>, head: Option<NodeId>, tail: Option<NodeId>) {
    NodesOk(nodes) && QueueOk(q, nodes, head, tail) && OffQueueOk(q, nodes)
  }

  /** Every node of `nodes` that is neither on the queue `q` nor `x` is
      the same in `nodes'`, which may have grown. */
  ghost predicate OthersKept(q: seq<NodeId>, nodes: seq<Node>, nodes': seq<Node>, x: NodeId) {
    |nodes| <= |nodes'| && forall n :: 0 <= n < |nodes| && n != x && n !in q ==> nodes'[n] == nodes[n]
  }

  /** Rewriting node `x` keeps every other node. */
  lemma OthersKeptUpdate(q: seq<NodeId>, nodes: seq<Node>, x: NodeId, nd: Node)
    requires x < |nodes|
    ensures OthersKept(q, nodes, nodes[x := nd], x)
  {
  }

  /** A queue whose last node is `x` and whose front is `base` is `base`
      with `x` appended. */
  lemma EndsWith(q: seq<NodeId>, base: seq<NodeId>, x: NodeId)
    requires |q| >= 1 && q[..|q| - 1] == base && q[|q| - 1] == x
    ensures q == base + [x]
  {
    assert q == q[..|q| - 1] + [q[|q| - 1]];
  }

  /** `OthersKept` composes across an `enq` of `x`, which adds to the queue
      at most a fresh sentinel besides `x`. */
  lemma OthersKeptThroughEnq(q0: seq<NodeId>, n0: seq<Node>, n1: seq<Node>, n2: seq<Node>, q: seq<NodeId>, x: NodeId)
    requires OthersKept(q0, n0, n1, x) && OthersKept(q, n1, n2, x)
    requires |q| >= 1 && q[..|q| - 1] == (if q0 == [] then [|n0|] else q0) && q[|q| - 1] == x
    ensures OthersKept(q0, n0, n2, x)
  {
    assert q == (if q0 == [] then [|n0|] else q0) + [x] by {
      assert q == q[..|q| - 1] + [q[|q| - 1]];
    }
    forall n | 0 <= n < |n0| && n != x && n !in q0
      ensures n2[n] == n0[n]
    {
      assert n !in q;
    }
  }

  /** A node whose status was just reset to 0 (`n1`) and that `enq` then
      made the new last node of `q`: seen from the arena before the reset
      (`n0`), it moved from status CONDITION to the end of the queue. */
  lemma ResetThenEnqueued(q0: seq<NodeId>, n0: seq<Node>, n1: seq<Node>, q: seq<NodeId>, nodes: seq<Node>, node: NodeId)
    requires node < |n0| && n1 == n0[node := n0[node].(waitStatus := 0)] && node < |nodes|
    requires q == (if q0 == [] then [|n1|] else q0) + [node]
    requires nodes[node] == n1[node].(prev := Some(q[|q| - 2]))
    ensures |q| >= 2 && q[..|q| - 1] == (if q0 == [] then [|n0|] else q0) && q[|q| - 1] == node
    ensures nodes[node] == n0[node].(waitStatus := 0, prev := Some(q[|q| - 2]))
  {
  }

  /** `OthersKept` composes when the second step's queue adds at most `x`
      and fresh nodes to the first's. */
  lemma OthersKeptTrans(q: seq<NodeId>, n0: seq<Node>, n1: seq<Node>, n2: seq<Node>, q': seq<NodeId>, x: NodeId)
    requires OthersKept(q, n0, n1, x) && OthersKept(q', n1, n2, x)
    requires forall i :: 0 <= i < |q'| ==> q'[i] == x || q'[i] >= |n0| || q'[i] in q
    ensures OthersKept(q, n0, n2, x)
  {
    forall n | 0 <= n < |n0| && n != x && n !in q
      ensures n2[n] == n0[n]
    {
      assert n !in q';
    }
  }

  /** The position of `x` in `q`. */
  ghost function IndexOf(q: seq<NodeId>, x: NodeId): (r: nat)
    requires x in q
    ensures r < |q| && q[r] == x
  {
    var i :| 0 <= i < |q| && q[i] == x; i
  }

  lemma IndexOfUnique(q: seq<NodeId>, i: nat)
    requires Distinct(q) && i < |q|
    ensures IndexOf(q, q[i]) == i
  {
  }

  /** The first position at or after `j` that holds a node that is not cancelled. */
  ghost function FirstLiveIndex(q: seq<NodeId>, nodes: seq<Node>, j: nat): (k: nat)
    requires InArena(q, nodes) && j <= |q|
    ensures j <= k <= |q|
    ensures CancelledBetween(q, nodes, j, k)
    ensures k < |q| ==> nodes[q[k]].waitStatus <= 0
    decreases |q| - j
  {
    if j == |q| then j
    else if nodes[q[j]].waitStatus <= 0 then j
    else FirstLiveIndex(q, nodes, j + 1)
  }

  /** The nearest node at or after position `j` that is not cancelled, if any. */
  ghost function FirstLive(q: seq<NodeId>, nodes: seq<Node>, j: nat): Option<NodeId>
    requires InArena(q, nodes) && j <= |q|
  {
    var k := FirstLiveIndex(q, nodes, j);
    if k < |q| then Some(q[k]) else None
  }

  /** The first live position is the only live position reached across
      cancelled ones. */
  lemma FirstLiveIndexUnique(q: seq<NodeId>, nodes: seq<Node>, j: nat, k: nat)
    requires InArena(q, nodes) && j <= k < |q|
    requires CancelledBetween(q, nodes, j, k) && nodes[q[k]].waitStatus <= 0
    ensures FirstLiveIndex(q, nodes, j) == k
  {
  }

  /** When the `next` cache of the node at position `i` names a node that is
      not cancelled, that node is the first live node after position `i`:
      the fast path of `unparkSuccessor` agrees with the backward scan. */
  lemma NextIsFirstLive(q: seq<NodeId>, nodes: seq<Node>, i: nat)
    requires InArena(q, nodes) && i < |q| && NextOk(q, nodes, i)
    requires nodes[q[i]].next.Some? && nodes[q[i]].next.value < |nodes|
    requires nodes[nodes[q[i]].next.value].waitStatus <= 0
    ensures FirstLive(q, nodes, i + 1) == nodes[q[i]].next
  {
    var x := nodes[q[i]].next.value;
    var j :| i < j < |q| && q[j] == x && CancelledBetween(q, nodes, i + 1, j);
    FirstLiveIndexUnique(q, nodes, i + 1, j);
  }

  /** Walking `prev` from a waiter reaches the node before it. */
  lemma PrevLink(q: seq<NodeId>, nodes: seq<Node>, head: Option<NodeId>, tail: Option<NodeId>, k: nat)
    requires SyncOk(q, nodes, head, tail) && k < |q|
    ensures nodes[q[k]].prev == if k == 0 then None else Some(q[k - 1])
  {
    if k > 0 {
      assert LinkedBack(q, nodes, k);
    }
  }

  /** The number of queue nodes that carry a waiting thread. */
  ghost function ThreadCount(q: seq<NodeId>, nodes: seq<Node>): (n: nat)
    requires InArena(q, nodes)
    ensures n <= |q|
  {
    if q == [] then 0
    else (if nodes[q[0]].thread.Some? then 1 else 0) + ThreadCount(q[1..], nodes)
  }

  /** The number of queue nodes that have not cancelled. */
  ghost function LiveCount(q: seq<NodeId>, nodes: seq<Node>): (n: nat)
    requires InArena(q, nodes)
    ensures n <= |q|
  {
    if q == [] then 0
    else (if nodes[q[0]].waitStatus <= 0 then 1 else 0) + LiveCount(q[1..], nodes)
  }

  /** The statuses and dead marks of the old arena survive in the new one:
      a cancelled node stays cancelled and a dead node stays dead. */
  ghost predicate Evolves(nodes: seq<Node>, nodes': seq<Node>) {
    && |nodes| <= |nodes'|
    && (forall n :: 0 <= n < |nodes| && nodes[n].waitStatus > 0 ==> nodes'[n].waitStatus > 0)
    && (forall n :: 0 <= n < |nodes| && Dead(nodes, n) ==> Dead(nodes', n))
  }

  /** A cancelled run that ends before the removed block `q[a..b]` keeps
      its positions. */
  lemma BetweenBelow(q: seq<NodeId>, nodes: seq<Node>, q': seq<NodeId>, nodes': seq<Node>, a: nat, b: nat, lo: int, hi: int)
    requires InArena(q, nodes) && InArena(q', nodes') && a <= b <= |q| && q' == q[..a] + q[b..]
    requires Evolves(nodes, nodes') && hi <= a && CancelledBetween(q, nodes, lo, hi)
    ensures CancelledBetween(q', nodes', lo, hi)
  {
    forall k | lo <= k < hi && 0 <= k < |q'|
      ensures nodes'[q'[k]].waitStatus > 0
    {
      assert q'[k] == q[k];
    }
  }

  /** A cancelled run of `q` from `lo` to `hi' + (b - a)` still covers
      positions `lo'` to `hi'` once the block `q[a..b]` is removed. */
  lemma BetweenAcross(q: seq<NodeId>, nodes: seq<Node>, q': seq<NodeId>, nodes': seq<Node>, a: nat, b: nat, lo: int, lo': int, hi': int)
    requires InArena(q, nodes) && InArena(q', nodes') && a <= b <= |q| && q' == q[..a] + q[b..]
    requires Evolves(nodes, nodes') && (lo <= lo' || (a <= lo' && lo <= lo' + (b - a)))
    requires CancelledBetween(q, nodes, lo, hi' + (b - a))
    ensures CancelledBetween(q', nodes', lo', hi')
  {
    forall k | lo' <= k < hi' && 0 <= k < |q'|
      ensures nodes'[q'[k]].waitStatus > 0
    {
      if k < a {
        assert q'[k] == q[k];
      } else {
        assert q'[k] == q[k + (b - a)];
      }
    }
  }

  /** The `next` cache of a node survives removing the block `q[a..b]` from
      the queue, as long as that node's `next` did not change, statuses
      evolve, and (when a node before the block might point into it) the
      removed nodes are dead. */
  lemma NextOkKept(q: seq<NodeId>, nodes: seq<Node>, q': seq<NodeId>, nodes': seq<Node>, a: nat, b: nat, i': nat)
    requires InArena(q, nodes) && InArena(q', nodes') && a <= b <= |q| && q' == q[..a] + q[b..]
    requires Evolves(nodes, nodes')
    requires a > 0 ==> forall k :: a <= k < b ==> Dead(nodes', q[k])
    requires i' < |q'|
    requires NextOk(q, nodes, if i' < a then i' else i' + (b - a))
    requires nodes'[q'[i']].next == nodes[q'[i']].next
    ensures NextOk(q', nodes', i')
  {
    var i := if i' < a then i' else i' + (b - a);
    assert q'[i'] == q[i];
    if nodes'[q'[i']].next.Some? {
      var x := nodes'[q'[i']].next.value;
      if !Dead(nodes, x) {
        var j :| i < j < |q| && q[j] == x && CancelledBetween(q, nodes, i + 1, j);
        if j < a {
          assert q'[j] == x;
          BetweenBelow(q, nodes, q', nodes', a, b, i' + 1, j);
        } else if j < b {
          assert Dead(nodes', x);
        } else {
          var j' := j - (b - a);
          assert q'[j'] == x;
          BetweenAcross(q, nodes, q', nodes', a, b, i + 1, i' + 1, j');
        }
      }
    }
  }

  /** The `next` cache of a node survives appending nodes to the queue. */
  lemma NextOkExtend(q: seq<NodeId>, nodes: seq<Node>, r: seq<NodeId>, nodes': seq<Node>, i: nat)
    requires InArena(q, nodes) && InArena(q + r, nodes') && Evolves(nodes, nodes')
    requires i < |q| && NextOk(q, nodes, i) && nodes'[q[i]].next == nodes[q[i]].next
    ensures NextOk(q + r, nodes', i)
  {
    var q' := q + r;
    assert q'[i] == q[i];
    if nodes'[q[i]].next.Some? {
      var x := nodes'[q[i]].next.value;
      if !Dead(nodes, x) {
        var j :| i < j < |q| && q[j] == x && CancelledBetween(q, nodes, i + 1, j);
        assert q'[j] == x;
        assert CancelledBetween(q', nodes', i + 1, j) by {
          forall k | i + 1 <= k < j
            ensures nodes'[q'[k]].waitStatus > 0
          {
            assert q'[k] == q[k];
          }
        }
      }
    }
  }

  /** Allocating a node that has no sync-queue links keeps the invariant. */
  lemma AllocKeeps(q: seq<NodeId>, nodes: seq<Node>, head: Option<NodeId>, tail: Option<NodeId>, nd: Node)
    requires SyncOk(q, nodes, head, tail)
    requires Fits(nd, |nodes|) && nd.prev.None? && nd.next.None?
    ensures SyncOk(q, nodes + [nd], head, tail)
  {
    AllocShape(q, nodes, head, tail, nd);
    GrowNext(q, nodes, nd);
  }

  lemma AllocShape(q: seq<NodeId>, nodes: seq<Node>, head: Option<NodeId>, tail: Option<NodeId>, nd: Node)
    requires SyncOk(q, nodes, head, tail)
    requires Fits(nd, |nodes|) && nd.prev.None? && nd.next.None?
    ensures NodesOk(nodes + [nd]) && InArena(q, nodes + [nd]) && OffQueueOk(q, nodes + [nd])
    ensures Ends(q, nodes + [nd], head, tail) && PrevChain(q, nodes + [nd]) && Statuses(q, nodes + [nd])
  {
    forall i | 1 <= i < |q|
      ensures LinkedBack(q, nodes + [nd], i)
    {
      assert LinkedBack(q, nodes, i);
    }
  }

  /** Appending a node to the arena leaves every `next` cache of the queue valid. */
  lemma GrowNext(q: seq<NodeId>, nodes: seq<Node>, nd: Node)
    requires InArena(q, nodes) && AllNextOk(q, nodes)
    ensures InArena(q, nodes + [nd]) && AllNextOk(q, nodes + [nd])
  {
    var nodes' := nodes + [nd];
    forall i | 0 <= i < |q|
      ensures NextOk(q, nodes', i)
    {
      assert nodes'[q[i]] == nodes[q[i]] && NextOk(q, nodes, i);
      if nodes[q[i]].next.Some? {
        var x := nodes[q[i]].next.value;
        if !Dead(nodes, x) {
          var j :| i < j < |q| && q[j] == x && CancelledBetween(q, nodes, i + 1, j);
          assert CancelledBetween(q, nodes', i + 1, j) by {
            forall k | i + 1 <= k < j
              ensures nodes'[q[k]].waitStatus > 0
            {
              assert nodes'[q[k]] == nodes[q[k]];
            }
          }
        }
      }
    }
  }

  /** The conditions under which node `n` may be rewritten to `nd` in place,
      keeping its `prev` link: statuses only move from live to cancelled, the
      head stays thread-less and live, a waiter keeps its thread exactly while
      live, and a changed `next` names a dead node or the queue node at
      position `j` with only cancelled nodes before it. */
  ghost predicate UpdateOk(q: seq<NodeId>, nodes: seq<Node>, n: NodeId, nd: Node, j: int)
    requires InArena(q, nodes) && n < |nodes|
  {
    && Fits(nd, |nodes|) && nd.prev == nodes[n].prev
    && (nodes[n].waitStatus > 0 ==> nd.waitStatus > 0)
    && (Dead(nodes, n) ==> nd.thread.None?)
    && (n in q ==> nd.waitStatus != CONDITION)
    && (q != [] && n == q[0] ==> nd.thread.None? && nd.waitStatus <= 0)
    && (n in q && n != q[0] ==> (nd.thread.Some? <==> nd.waitStatus <= 0))
    && (n !in q && nd.prev.Some? ==> nd.waitStatus > 0)
    && (n in q && nd.next != nodes[n].next && nd.next.Some? && !Dead(nodes[n := nd], nd.next.value) ==>
          IndexOf(q, n) < j < |q| && q[j] == nd.next.value &&
          CancelledBetween(q, nodes[n := nd], IndexOf(q, n) + 1, j))
  }

  /** Rewriting one node in place under `UpdateOk` keeps the invariant. */
  lemma UpdateKeeps(q: seq<NodeId>, nodes: seq<Node>, head: Option<NodeId>, tail: Option<NodeId>,
                    n: NodeId, nd: Node, j: int)
    requires SyncOk(q, nodes, head, tail) && n < |nodes| && UpdateOk(q, nodes, n, nd, j)
    ensures SyncOk(q, nodes[n := nd], head, tail)
  {
    UpdateShape(q, nodes, head, tail, n, nd, j);
    UpdateNext(q, nodes, head, tail, n, nd, j);
  }

  lemma UpdateShape(q: seq<NodeId>, nodes: seq<Node>, head: Option<NodeId>, tail: Option<NodeId>,
                    n: NodeId, nd: Node, j: int)
    requires SyncOk(q, nodes, head, tail) && n < |nodes| && UpdateOk(q, nodes, n, nd, j)
    ensures NodesOk(nodes[n := nd]) && InArena(q, nodes[n := nd]) && OffQueueOk(q, nodes[n := nd])
    ensures Ends(q, nodes[n := nd], head, tail) && PrevChain(q, nodes[n := nd]) && Statuses(q, nodes[n := nd])
  {
    var nodes' := nodes[n := nd];
    assert Statuses(q, nodes') by {
      forall i | 1 <= i < |q|
        ensures nodes'[q[i]].thread.Some? <==> nodes'[q[i]].waitStatus <= 0
      {
        if q[i] == n {
          assert q[0] != q[i];
        }
      }
    }
    forall i | 1 <= i < |q|
      ensures LinkedBack(q, nodes', i)
    {
      assert LinkedBack(q, nodes, i);
    }
  }

  lemma UpdateNext(q: seq<NodeId>, nodes: seq<Node>, head: Option<NodeId>, tail: Option<NodeId>,
                   n: NodeId, nd: Node, j: int)
    requires SyncOk(q, nodes, head, tail) && n < |nodes| && UpdateOk(q, nodes, n, nd, j)
    ensures InArena(q, nodes[n := nd]) && AllNextOk(q, nodes[n := nd])
  {
    var nodes' := nodes[n := nd];
    assert Evolves(nodes, nodes');
    forall i | 0 <= i < |q|
      ensures NextOk(q, nodes', i)
    {
      UpdateNextAt(q, nodes, n, nd, j, i);
    }
  }

  lemma UpdateNextAt(q: seq<NodeId>, nodes: seq<Node>, n: NodeId, nd: Node, j: int, i: nat)
    requires InArena(q, nodes) && Distinct(q) && n < |nodes| && i < |q| && NextOk(q, nodes, i)
    requires Evolves(nodes, nodes[n := nd])
    requires n in q && nd.next != nodes[n].next && nd.next.Some? && !Dead(nodes[n := nd], nd.next.value) ==>
               IndexOf(q, n) < j < |q| && q[j] == nd.next.value &&
               CancelledBetween(q, nodes[n := nd], IndexOf(q, n) + 1, j)
    ensures NextOk(q, nodes[n := nd], i)
  {
    var nodes' := nodes[n := nd];
    if q[i] != n || nd.next == nodes[n].next {
      assert q == q[..0] + q[0..];
      NextOkKept(q, nodes, q, nodes', 0, 0, i);
    } else {
      IndexOfUnique(q, i);
    }
  }

  /** The arena after linking node `n` after the tail: `node.prev = t` and
      `t.next = node`. */
  ghost function Appended(q: seq<NodeId>, nodes: seq<Node>, n: NodeId): (r: seq<Node>)
    requires q != [] && InArena(q, nodes) && n < |nodes|
    ensures |r| == |nodes| && r[q[|q| - 1]].next == Some(n)
    ensures n != q[|q| - 1] ==> r[n].prev == Some(q[|q| - 1]) && r[n].thread == nodes[n].thread && r[n].waitStatus == nodes[n].waitStatus
  {
    var last := q[|q| - 1];
    nodes[n := nodes[n].(prev := Some(last))][last := nodes[last].(next := Some(n))]
  }

  /** The conditions for appending `n`: a fresh, live waiter off the queue. */
  ghost predicate AppendOk(q: seq<NodeId>, nodes: seq<Node>, n: NodeId) {
    q != [] && n < |nodes| && n !in q &&
    nodes[n].waitStatus == 0 && nodes[n].thread.Some? && nodes[n].next.None?
  }

  /** Linking node `n` after the tail keeps the invariant, with `n` as the
      new tail. */
  lemma AppendKeeps(q: seq<NodeId>, nodes: seq<Node>, head: Option<NodeId>, tail: Option<NodeId>, n: NodeId)
    requires SyncOk(q, nodes, head, tail) && AppendOk(q, nodes, n)
    ensures SyncOk(q + [n], Appended(q, nodes, n), head, Some(n))
  {
    AppendShape(q, nodes, head, tail, n);
    AppendChain(q, nodes, head, tail, n);
    AppendNext(q, nodes, head, tail, n);
  }

  lemma AppendShape(q: seq<NodeId>, nodes: seq<Node>, head: Option<NodeId>, tail: Option<NodeId>, n: NodeId)
    requires SyncOk(q, nodes, head, tail) && AppendOk(q, nodes, n)
    ensures var nodes' := Appended(q, nodes, n);
            NodesOk(nodes') && InArena(q + [n], nodes') && OffQueueOk(q + [n], nodes') && Distinct(q + [n])
  {
  }

  lemma AppendChain(q: seq<NodeId>, nodes: seq<Node>, head: Option<NodeId>, tail: Option<NodeId>, n: NodeId)
    requires SyncOk(q, nodes, head, tail) && AppendOk(q, nodes, n)
    ensures var nodes' := Appended(q, nodes, n);
            InArena(q + [n], nodes') && Ends(q + [n], nodes', head, Some(n)) &&
            PrevChain(q + [n], nodes') && Statuses(q + [n], nodes')
  {
    var nodes' := Appended(q, nodes, n);
    var q' := q + [n];
    forall i | 1 <= i < |q'|
      ensures LinkedBack(q', nodes', i)
    {
      if i < |q| {
        assert q'[i] == q[i] && q'[i - 1] == q[i - 1] && LinkedBack(q, nodes, i);
      }
    }
  }

  lemma AppendNext(q: seq<NodeId>, nodes: seq<Node>, head: Option<NodeId>, tail: Option<NodeId>, n: NodeId)
    requires SyncOk(q, nodes, head, tail) && AppendOk(q, nodes, n)
    ensures InArena(q + [n], Appended(q, nodes, n)) && AllNextOk(q + [n], Appended(q, nodes, n))
  {
    var nodes' := Appended(q, nodes, n);
    var q' := q + [n];
    assert Evolves(nodes, nodes');
    forall i | 0 <= i < |q'|
      ensures NextOk(q', nodes', i)
    {
      if i < |q| - 1 {
        NextOkExtend(q, nodes, [n], nodes', i);
      } else if i == |q| - 1 {
        assert q'[|q|] == n;
      }
    }
  }

  /** Creating the sentinel head of an empty queue (`head = new Node()`,
      `tail = head`) gives a one-node queue. */
  lemma InitKeeps(nodes: seq<Node>)
    requires SyncOk([], nodes, None, None)
    ensures SyncOk([|nodes|], nodes + [NewNode(None, 0)], Some(|nodes|), Some(|nodes|))
  {
  }

  /** `setHead(node)` on the first waiter: the old head leaves the queue and
      the waiter, losing its thread and `prev`, becomes the sentinel. */
  lemma SetHeadKeeps(q: seq<NodeId>, nodes: seq<Node>, head: Option<NodeId>, tail: Option<NodeId>)
    requires SyncOk(q, nodes, head, tail) && |q| >= 2 && nodes[q[1]].waitStatus <= 0
    ensures SyncOk(q[1..], nodes[q[1] := nodes[q[1]].(thread := None, prev := None)], Some(q[1]), tail)
  {
    SetHeadShape(q, nodes, head, tail);
    SetHeadNext(q, nodes, head, tail);
  }

  lemma SetHeadShape(q: seq<NodeId>, nodes: seq<Node>, head: Option<NodeId>, tail: Option<NodeId>)
    requires SyncOk(q, nodes, head, tail) && |q| >= 2 && nodes[q[1]].waitStatus <= 0
    ensures var nodes' := nodes[q[1] := nodes[q[1]].(thread := None, prev := None)];
            NodesOk(nodes') && InArena(q[1..], nodes') && OffQueueOk(q[1..], nodes') && Distinct(q[1..]) &&
            Ends(q[1..], nodes', Some(q[1]), tail) && PrevChain(q[1..], nodes') && Statuses(q[1..], nodes')
  {
    var nodes' := nodes[q[1] := nodes[q[1]].(thread := None, prev := None)];
    var q' := q[1..];
    forall i | 1 <= i < |q'|
      ensures LinkedBack(q', nodes', i)
    {
      assert LinkedBack(q, nodes, i + 1);
    }
  }

  lemma SetHeadNext(q: seq<NodeId>, nodes: seq<Node>, head: Option<NodeId>, tail: Option<NodeId>)
    requires SyncOk(q, nodes, head, tail) && |q| >= 2 && nodes[q[1]].waitStatus <= 0
    ensures var nodes' := nodes[q[1] := nodes[q[1]].(thread := None, prev := None)];
            InArena(q[1..], nodes') && AllNextOk(q[1..], nodes')
  {
    var nodes' := nodes[q[1] := nodes[q[1]].(thread := None, prev := None)];
    var q' := q[1..];
    assert Evolves(nodes, nodes');
    assert q' == q[..0] + q[1..];
    forall i | 0 <= i < |q'|
      ensures NextOk(q', nodes', i)
    {
      NextOkKept(q, nodes, q', nodes', 0, 1, i);
    }
  }

  /** Relinking the node at position `i` to the node at position `j`, past
      the cancelled nodes between them, drops those nodes from the queue. */
  lemma SkipKeeps(q: seq<NodeId>, nodes: seq<Node>, head: Option<NodeId>, tail: Option<NodeId>, j: nat, i: nat)
    requires SyncOk(q, nodes, head, tail) && j < i < |q| && CancelledBetween(q, nodes, j + 1, i)
    ensures SyncOk(q[..j + 1] + q[i..], nodes[q[i] := nodes[q[i]].(prev := Some(q[j]))], head, tail)
  {
    SkipShape(q, nodes, head, tail, j, i);
    SkipChain(q, nodes, head, tail, j, i);
    SkipNext(q, nodes, head, tail, j, i);
  }

  lemma SkipShape(q: seq<NodeId>, nodes: seq<Node>, head: Option<NodeId>, tail: Option<NodeId>, j: nat, i: nat)
    requires SyncOk(q, nodes, head, tail) && j < i < |q| && CancelledBetween(q, nodes, j + 1, i)
    ensures var nodes' := nodes[q[i] := nodes[q[i]].(prev := Some(q[j]))];
            var q' := q[..j + 1] + q[i..];
            NodesOk(nodes') && InArena(q', nodes') && OffQueueOk(q', nodes') && Distinct(q')
  {
    var nodes' := nodes[q[i] := nodes[q[i]].(prev := Some(q[j]))];
    var q' := q[..j + 1] + q[i..];
    assert Distinct(q') by {
      forall a, b | 0 <= a < b < |q'|
        ensures q'[a] != q'[b]
      {
        var a0 := if a <= j then a else a + (i - j - 1);
        var b0 := if b <= j then b else b + (i - j - 1);
        assert q'[a] == q[a0] && q'[b] == q[b0];
      }
    }
  }

  lemma SkipChain(q: seq<NodeId>, nodes: seq<Node>, head: Option<NodeId>, tail: Option<NodeId>, j: nat, i: nat)
    requires SyncOk(q, nodes, head, tail) && j < i < |q| && CancelledBetween(q, nodes, j + 1, i)
    ensures var nodes' := nodes[q[i] := nodes[q[i]].(prev := Some(q[j]))];
            var q' := q[..j + 1] + q[i..];
            InArena(q', nodes') && Ends(q', nodes', head, tail) && PrevChain(q', nodes') && Statuses(q', nodes')
  {
    SkipPrevChain(q, nodes, j, i);
    SkipStatuses(q, nodes, j, i);
    var nodes' := nodes[q[i] := nodes[q[i]].(prev := Some(q[j]))];
    var q' := q[..j + 1] + q[i..];
    assert q'[0] == q[0] && q'[|q'| - 1] == q[|q| - 1] && q[0] != q[i];
  }

  /** Relinking `q[i]` back to `q[j]` keeps the back links of the shortened queue. */
  lemma SkipPrevChain(q: seq<NodeId>, nodes: seq<Node>, j: nat, i: nat)
    requires InArena(q, nodes) && Distinct(q) && PrevChain(q, nodes) && j < i < |q|
    ensures var nodes' := nodes[q[i] := nodes[q[i]].(prev := Some(q[j]))];
            var q' := q[..j + 1] + q[i..];
            InArena(q', nodes') && PrevChain(q', nodes')
  {
    var nodes' := nodes[q[i] := nodes[q[i]].(prev := Some(q[j]))];
    var q' := q[..j + 1] + q[i..];
    forall i' | 1 <= i' < |q'|
      ensures LinkedBack(q', nodes', i')
    {
      if i' <= j {
        assert q'[i'] == q[i'] && q'[i' - 1] == q[i' - 1] && LinkedBack(q, nodes, i');
      } else if i' == j + 1 {
        assert q'[i'] == q[i] && q'[i' - 1] == q[j];
      } else {
        var k := i' + (i - j - 1);
        assert q'[i'] == q[k] && q'[i' - 1] == q[k - 1] && LinkedBack(q, nodes, k);
      }
    }
  }

  /** A `prev` rewrite leaves the statuses of the shortened queue intact. */
  lemma SkipStatuses(q: seq<NodeId>, nodes: seq<Node>, j: nat, i: nat)
    requires InArena(q, nodes) && Statuses(q, nodes) && j < i < |q|
    ensures var nodes' := nodes[q[i] := nodes[q[i]].(prev := Some(q[j]))];
            var q' := q[..j + 1] + q[i..];
            InArena(q', nodes') && Statuses(q', nodes')
  {
    var nodes' := nodes[q[i] := nodes[q[i]].(prev := Some(q[j]))];
    var q' := q[..j + 1] + q[i..];
    forall i' | 0 <= i' < |q'|
      ensures (i' >= 1 ==> (nodes'[q'[i']].thread.Some? <==> nodes'[q'[i']].waitStatus <= 0))
           && nodes'[q'[i']].waitStatus != CONDITION
    {
      if i' <= j {
        assert q'[i'] == q[i'];
      } else {
        assert q'[i'] == q[i' + (i - j - 1)];
      }
    }
  }

  lemma SkipNext(q: seq<NodeId>, nodes: seq<Node>, head: Option<NodeId>, tail: Option<NodeId>, j: nat, i: nat)
    requires SyncOk(q, nodes, head, tail) && j < i < |q| && CancelledBetween(q, nodes, j + 1, i)
    ensures var nodes' := nodes[q[i] := nodes[q[i]].(prev := Some(q[j]))];
            var q' := q[..j + 1] + q[i..];
            InArena(q', nodes') && AllNextOk(q', nodes')
  {
    var nodes' := nodes[q[i] := nodes[q[i]].(prev := Some(q[j]))];
    var q' := q[..j + 1] + q[i..];
    assert Evolves(nodes, nodes');
    assert forall k :: j + 1 <= k < i ==> Dead(nodes', q[k]);
    forall i' | 0 <= i' < |q'|
      ensures NextOk(q', nodes', i')
    {
      NextOkKept(q, nodes, q', nodes', j + 1, i, i');
    }
  }

  /** `pred.next = node` for the waiter at position `i` is a rewrite that
      keeps the invariant. */
  lemma ForwardLinkOk(q: seq<NodeId>, nodes: seq<Node>, head: Option<NodeId>, tail: Option<NodeId>, i: nat)
    requires SyncOk(q, nodes, head, tail) && 1 <= i < |q|
    ensures q[i - 1] < |nodes| && UpdateOk(q, nodes, q[i - 1], nodes[q[i - 1]].(next := Some(q[i])), i)
  {
    IndexOfUnique(q, i - 1);
  }

  /** `shouldParkAfterFailedAcquire` on a cancelled predecessor: the waiter
      at position `i` skips back to the live node at position `j`, which
      links forward to it; the cancelled nodes between leave the queue. */
  lemma SkipRelinkKeeps(q: seq<NodeId>, nodes: seq<Node>, head: Option<NodeId>, tail: Option<NodeId>, j: nat, i: nat)
    requires SyncOk(q, nodes, head, tail) && j < i < |q| && CancelledBetween(q, nodes, j + 1, i)
    ensures var ns := nodes[q[i] := nodes[q[i]].(prev := Some(q[j]))];
            SyncOk(q[..j + 1] + q[i..], ns[q[j] := ns[q[j]].(next := Some(q[i]))], head, tail)
  {
    SkipKeeps(q, nodes, head, tail, j, i);
    var q' := q[..j + 1] + q[i..];
    var ns := nodes[q[i] := nodes[q[i]].(prev := Some(q[j]))];
    assert q'[j + 1] == q[i] && q'[j] == q[j];
    ForwardLinkOk(q', ns, head, tail, j + 1);
    UpdateKeeps(q', ns, head, tail, q[j], ns[q[j]].(next := Some(q[i])), j + 1);
  }

  /** Marking the waiter at position `i` CANCELLED and clearing its thread
      keeps the invariant. */
  lemma CancelOk(q: seq<NodeId>, nodes: seq<Node>, head: Option<NodeId>, tail: Option<NodeId>, i: nat)
    requires SyncOk(q, nodes, head, tail) && 1 <= i < |q|
    ensures q[i] < |nodes| && UpdateOk(q, nodes, q[i], nodes[q[i]].(waitStatus := CANCELLED, thread := None), 0)
  {
    IndexOfUnique(q, 0);
    IndexOfUnique(q, i);
  }

  /** Marking the waiter at position `i` CANCELLED without a thread keeps
      the invariant. */
  lemma CancelKeeps(q: seq<NodeId>, nodes: seq<Node>, head: Option<NodeId>, tail: Option<NodeId>, i: nat)
    requires SyncOk(q, nodes, head, tail) && 1 <= i < |q|
    ensures SyncOk(q, nodes[q[i] := nodes[q[i]].(waitStatus := CANCELLED, thread := None)], head, tail)
  {
    CancelOk(q, nodes, head, tail, i);
    UpdateKeeps(q, nodes, head, tail, q[i], nodes[q[i]].(waitStatus := CANCELLED, thread := None), 0);
  }

  /** `cancelAcquire` on the tail waiter at position `j + 1`, right behind
      its live predecessor: marked CANCELLED, it leaves the queue, whose
      tail retracts to the predecessor, and the predecessor's `next` is
      cleared. */
  lemma CancelTailKeeps(q: seq<NodeId>, nodes: seq<Node>, head: Option<NodeId>, tail: Option<NodeId>, j: nat)
    requires SyncOk(q, nodes, head, tail) && j + 2 == |q|
    ensures var ns := nodes[q[j + 1] := nodes[q[j + 1]].(waitStatus := CANCELLED, thread := None)];
            SyncOk(q[..j + 1], ns[q[j] := ns[q[j]].(next := None)], head, Some(q[j]))
  {
    var ns := nodes[q[j + 1] := nodes[q[j + 1]].(waitStatus := CANCELLED, thread := None)];
    CancelKeeps(q, nodes, head, tail, j + 1);
    TruncateKeeps(q, ns, head, tail, j + 1);
    IndexOfUnique(q, j);
    UpdateKeeps(q[..j + 1], ns, head, Some(q[j]), q[j], ns[q[j]].(next := None), 0);
  }

  /** `cancelAcquire` on a dead waiter at position `j + 1` whose live
      predecessor is not the head: the predecessor becomes SIGNAL, takes
      over the dead node's `next` when `link` (which needs that `next` to
      name a live node), and the dead node points at itself. */
  lemma SignalHandOffKeeps(q: seq<NodeId>, nodes: seq<Node>, head: Option<NodeId>, tail: Option<NodeId>, j: nat, link: bool)
    requires SyncOk(q, nodes, head, tail) && 1 <= j && j + 1 < |q|
    requires Dead(nodes, q[j + 1]) && nodes[q[j]].waitStatus <= 0
    requires link ==> nodes[q[j + 1]].next.Some? && nodes[nodes[q[j + 1]].next.value].waitStatus <= 0
    ensures var pred, node := q[j], q[j + 1];
            var ns := nodes[pred := nodes[pred].(waitStatus := SIGNAL,
                                                 next := if link then nodes[node].next else nodes[pred].next)];
            SyncOk(q, ns[node := ns[node].(next := Some(node))], head, tail)
  {
    var pred, node := q[j], q[j + 1];
    IndexOfUnique(q, 0);
    IndexOfUnique(q, j);
    IndexOfUnique(q, j + 1);
    var n1 := nodes[pred := nodes[pred].(waitStatus := SIGNAL)];
    UpdateKeeps(q, nodes, head, tail, pred, nodes[pred].(waitStatus := SIGNAL), 0);
    var n2 := n1;
    if link {
      var k := BypassOk(q, n1, head, tail, j);
      UpdateKeeps(q, n1, head, tail, pred, n1[pred].(next := n1[node].next), k);
      n2 := n1[pred := n1[pred].(next := n1[node].next)];
    }
    assert n2 == nodes[pred := nodes[pred].(waitStatus := SIGNAL,
                                            next := if link then nodes[node].next else nodes[pred].next)];
    SelfLinkOk(q, n2, node);
    UpdateKeeps(q, n2, head, tail, node, n2[node].(next := Some(node)), 0);
  }

  /** A dead waiter at position `i` pointing its `next` at itself keeps the
      invariant and the first live node behind it. */
  lemma SelfLinkKeeps(q: seq<NodeId>, nodes: seq<Node>, head: Option<NodeId>, tail: Option<NodeId>, i: nat)
    requires SyncOk(q, nodes, head, tail) && i < |q| && Dead(nodes, q[i])
    ensures var ns := nodes[q[i] := nodes[q[i]].(next := Some(q[i]))];
            SyncOk(q, ns, head, tail) && FirstLive(q, ns, i + 1) == FirstLive(q, nodes, i + 1)
  {
    SelfLinkOk(q, nodes, q[i]);
    UpdateKeeps(q, nodes, head, tail, q[i], nodes[q[i]].(next := Some(q[i])), 0);
    FirstLiveLinks(q, nodes, q[i], Some(q[i]), i + 1);
  }

  /** A dead node may point its `next` at itself. */
  lemma SelfLinkOk(q: seq<NodeId>, nodes: seq<Node>, n: NodeId)
    requires InArena(q, nodes) && NodesOk(nodes) && Statuses(q, nodes) && Dead(nodes, n)
    requires q != [] ==> nodes[q[0]].waitStatus <= 0
    ensures UpdateOk(q, nodes, n, nodes[n].(next := Some(n)), 0)
  {
  }

  /** The live predecessor at position `j` of a cancelled node may take
      over that node's `next` when it names a live node: it returns that
      node's queue position. */
  lemma BypassOk(q: seq<NodeId>, nodes: seq<Node>, head: Option<NodeId>, tail: Option<NodeId>, j: nat) returns (k: nat)
    requires SyncOk(q, nodes, head, tail) && j + 1 < |q| && nodes[q[j + 1]].waitStatus > 0
    requires nodes[q[j + 1]].next.Some? && nodes[nodes[q[j + 1]].next.value].waitStatus <= 0
    ensures q[j] < |nodes| && UpdateOk(q, nodes, q[j], nodes[q[j]].(next := nodes[q[j + 1]].next), k)
  {
    assert NextOk(q, nodes, j + 1);
    var x := nodes[q[j + 1]].next.value;
    k :| j + 1 < k < |q| && q[k] == x && CancelledBetween(q, nodes, j + 2, k);
    IndexOfUnique(q, j);
  }

  /** `FirstLive` reads only statuses: rewriting a node's links leaves it alone. */
  lemma {:induction false} FirstLiveLinks(q: seq<NodeId>, nodes: seq<Node>, n: NodeId, v: Option<NodeId>, k: nat)
    requires InArena(q, nodes) && n < |nodes| && k <= |q|
    ensures InArena(q, nodes[n := nodes[n].(next := v)])
    ensures FirstLiveIndex(q, nodes[n := nodes[n].(next := v)], k) == FirstLiveIndex(q, nodes, k)
    decreases |q| - k
  {
    if k < |q| {
      FirstLiveLinks(q, nodes, n, v, k + 1);
    }
  }

  /** Retracting the tail to position `m - 1` drops dead nodes from the end
      of the queue. */
  lemma TruncateKeeps(q: seq<NodeId>, nodes: seq<Node>, head: Option<NodeId>, tail: Option<NodeId>, m: nat)
    requires SyncOk(q, nodes, head, tail) && 1 <= m <= |q|
    requires forall k :: m <= k < |q| ==> Dead(nodes, q[k])
    ensures SyncOk(q[..m], nodes, head, Some(q[m - 1]))
  {
    TruncateShape(q, nodes, head, tail, m);
    TruncateNext(q, nodes, head, tail, m);
  }

  lemma TruncateShape(q: seq<NodeId>, nodes: seq<Node>, head: Option<NodeId>, tail: Option<NodeId>, m: nat)
    requires SyncOk(q, nodes, head, tail) && 1 <= m <= |q|
    requires forall k :: m <= k < |q| ==> Dead(nodes, q[k])
    ensures NodesOk(nodes) && InArena(q[..m], nodes) && OffQueueOk(q[..m], nodes) && Distinct(q[..m])
    ensures Ends(q[..m], nodes, head, Some(q[m - 1])) && PrevChain(q[..m], nodes) && Statuses(q[..m], nodes)
  {
    var q' := q[..m];
    forall i | 1 <= i < m
      ensures LinkedBack(q', nodes, i)
    {
      assert LinkedBack(q, nodes, i);
    }
  }

  lemma TruncateNext(q: seq<NodeId>, nodes: seq<Node>, head: Option<NodeId>, tail: Option<NodeId>, m: nat)
    requires SyncOk(q, nodes, head, tail) && 1 <= m <= |q|
    requires forall k :: m <= k < |q| ==> Dead(nodes, q[k])
    ensures InArena(q[..m], nodes) && AllNextOk(q[..m], nodes)
  {
    var q' := q[..m];
    assert q' == q[..m] + q[|q|..];
    forall i | 0 <= i < |q'|
      ensures NextOk(q', nodes, i)
    {
      NextOkKept(q, nodes, q', nodes, m, |q|, i);
    }
  }

  /** On a stretch of waiters that carry their thread exactly while live,
      counting threads counts the waiters that have not cancelled. */
  lemma {:induction false} ThreadCountIsLiveCount(r: seq<NodeId>, nodes: seq<Node>)
    requires InArena(r, nodes)
    requires forall k :: 0 <= k < |r| ==> (nodes[r[k]].thread.Some? <==> nodes[r[k]].waitStatus <= 0)
    ensures ThreadCount(r, nodes) == LiveCount(r, nodes)
  {
    if r != [] {
      assert forall k :: 0 <= k < |r[1..]| ==> r[1..][k] == r[k + 1];
      ThreadCountIsLiveCount(r[1..], nodes);
    }
  }

  /** The threads on the queue are exactly the waiters behind the head that
      have not cancelled. */
  lemma QueuedThreads(q: seq<NodeId>, nodes: seq<Node>, head: Option<NodeId>, tail: Option<NodeId>)
    requires SyncOk(q, nodes, head, tail) && q != []
    ensures ThreadCount(q, nodes) == LiveCount(q[1..], nodes)
  {
    assert forall k :: 0 <= k < |q[1..]| ==> q[1..][k] == q[k + 1];
    ThreadCountIsLiveCount(q[1..], nodes);
  }

  /** No node that was live in `nodes` has cancelled in `nodes'`. */
  ghost predicate NoCancellations(nodes: seq<Node>, nodes': seq<Node>) {
    |nodes| == |nodes'| &&
    forall n :: 0 <= n < |nodes'| && nodes'[n].waitStatus > 0 ==> nodes[n].waitStatus > 0
  }

  /** Two cancelled runs side by side: the run `[k', k)` of the current
      queue `q`, which agrees with `q0` below `k`, joined to the run
      `[k, i)` of `q0`, is a run of `q0`, provided nothing cancelled since
      `n0`. */
  lemma BetweenJoin(q0: seq<NodeId>, n0: seq<Node>, q: seq<NodeId>, n: seq<Node>, k': int, k: int, i: int)
    requires InArena(q0, n0) && InArena(q, n) && 0 <= k' <= k <= i <= |q0| && k <= |q|
    requires q[..k] == q0[..k] && NoCancellations(n0, n)
    requires CancelledBetween(q, n, k', k) && CancelledBetween(q0, n0, k, i)
    ensures CancelledBetween(q0, n0, k', i)
  {
    forall x | k' <= x < k
      ensures n0[q0[x]].waitStatus > 0
    {
      assert q[x] == q0[x];
    }
  }

  /** `q` is `q0` with the run `[a, b)` cut out, stated position by
      position (`q == q0[..a] + q0[b..]`, see `SplicedIs`). */
  ghost predicate Spliced(q: seq<NodeId>, q0: seq<NodeId>, a: int, b: int) {
    && 0 <= a <= b <= |q0| && |q| == |q0| - (b - a)
    && (forall x :: 0 <= x < |q| ==> At(q, x) == At(q0, if x < a then x else x + (b - a)))
  }

  /** `q[x]`, under a name of its own so that facts stated with it are
      used only where positions are followed from one queue to another. */
  ghost function At(q: seq<NodeId>, x: int): NodeId
    requires 0 <= x < |q|
  {
    q[x]
  }

  lemma SplicedIs(q: seq<NodeId>, q0: seq<NodeId>, a: int, b: int)
    requires Spliced(q, q0, a, b)
    ensures q == q0[..a] + q0[b..]
  {
    forall x | 0 <= x < |q|
      ensures q[x] == (q0[..a] + q0[b..])[x]
    {
      assert At(q, x) == At(q0, if x < a then x else x + (b - a));
    }
  }

  lemma SplicedOf(q: seq<NodeId>, q0: seq<NodeId>, a: int, b: int)
    requires 0 <= a <= b <= |q0| && q == q0[..a] + q0[b..]
    ensures Spliced(q, q0, a, b)
  {
  }

  /** One relinking round seen from the original queue `q0`: `q1` had
      dropped the cancelled run `[k, i)` of `q0`, and `q2` drops the
      cancelled run `[k', k)` of `q1`, so `q2` drops `[k', i)` of `q0`. */
  lemma RoundJoin(q0: seq<NodeId>, n0: seq<Node>, q1: seq<NodeId>, n1: seq<Node>, q2: seq<NodeId>, n2: seq<Node>,
                  i: nat, k: nat, k': nat)
    requires InArena(q0, n0) && InArena(q1, n1) && 1 <= k' <= k <= i <= |q0|
    requires Spliced(q1, q0, k, i) && Spliced(q2, q1, k', k)
    requires CancelledBetween(q0, n0, k, i) && CancelledBetween(q1, n1, k', k)
    requires NoCancellations(n0, n1) && NoCancellations(n1, n2)
    ensures Spliced(q2, q0, k', i) && CancelledBetween(q0, n0, k', i) && NoCancellations(n0, n2)
  {
    SplicedIs(q1, q0, k, i);
    SplicedIs(q2, q1, k', k);
    assert q1[..k'] == q0[..k'] && q1[k..] == q0[i..];
    assert q1[..k] == q0[..k];
    BetweenJoin(q0, n0, q1, n1, k', k, i);
  }


  /** The node that a node enqueued on `q` is linked after: the tail, or
      the fresh sentinel (arena index `size`) that `enq` creates first on
      an empty queue. */
  function TailOrSentinel(q: seq<NodeId>, size: nat): NodeId {
    if q == [] then size else q[|q| - 1]
  }

  /** The tail of `q` exists and has cancelled. */
  ghost predicate TailCancelled(q: seq<NodeId>, nodes: seq<Node>)
    requires InArena(q, nodes)
  {
    q != [] && nodes[q[|q| - 1]].waitStatus > 0
  }

  /** The arena `n0` grew into `nodes`, and every old node outside `xs`
      stayed as it was. */
  ghost predicate KeptOutside(xs: seq<NodeId>, n0: seq<Node>, nodes: seq<Node>) {
    |n0| <= |nodes| && forall n :: 0 <= n < |n0| && n !in xs ==> nodes[n] == n0[n]
  }

  /** The first node of `q`, as a list of at most one node. */
  function HeadPart(q: seq<NodeId>): seq<NodeId> {
    if q == [] then [] else [q[0]]
  }

  /** The last node of `q`, as a list of at most one node. */
  function TailPart(q: seq<NodeId>): seq<NodeId> {
    if q == [] then [] else [q[|q| - 1]]
  }

  /** What `acquireQueued` has changed since the arena `n0`, while the
      waiter `x` stands behind `p`: only `x`'s `prev` link, and only `p`'s
      `next` link and status, which stays live once changed. Every other
      node is as it was. */
  ghost predicate Touched(n0: seq<Node>, nodes: seq<Node>, x: NodeId, p: NodeId) {
    && |nodes| == |n0| && x < |n0| && p < |n0|
    && KeptOutside([x, p], n0, nodes)
    && nodes[x] == n0[x].(prev := nodes[x].prev)
    && nodes[p] == n0[p].(next := nodes[p].next, waitStatus := nodes[p].waitStatus)
    && (nodes[p] != n0[p] ==> nodes[p].waitStatus <= 0)
  }

  /** `shouldParkAfterFailedAcquire` sets the live predecessor to SIGNAL. */
  lemma TouchedSignal(n0: seq<Node>, n1: seq<Node>, x: NodeId, p: NodeId)
    requires Touched(n0, n1, x, p) && x != p && n1[p].waitStatus <= 0
    ensures Touched(n0, n1[p := n1[p].(waitStatus := SIGNAL)], x, p)
  {
  }

  /** `shouldParkAfterFailedAcquire` skips the cancelled predecessor `p`
      (left as it was in `n0`) and links `x` with the live `p'`. */
  lemma TouchedRelink(n0: seq<Node>, n1: seq<Node>, x: NodeId, p: NodeId, p': NodeId)
    requires Touched(n0, n1, x, p) && x != p' && p' < |n1|
    requires n1[p].waitStatus > 0 && n1[p'].waitStatus <= 0
    ensures Touched(n0, n1[x := n1[x].(prev := Some(p'))][p' := n1[p'].(next := Some(x))], x, p')
  {
    assert n1[p] == n0[p];
  }

  /** The arena after the first waiter `x` takes the lock behind the head
      `p`: `x` becomes the sentinel head, without thread and `prev`, and
      `p` drops its `next` link as it leaves the queue. */
  function HeadTaken(nodes: seq<Node>, x: NodeId, p: NodeId): seq<Node>
    requires x < |nodes| && p < |nodes|
  {
    nodes[x := nodes[x].(thread := None, prev := None)][p := nodes[p].(next := None)]
  }

  /** The success exit: `x` becomes the sentinel head without thread and
      `prev`, and the old head `p` drops its `next` link. */
  lemma TouchedTakeHead(n0: seq<Node>, n1: seq<Node>, x: NodeId, p: NodeId)
    requires Touched(n0, n1, x, p) && x != p
    ensures var n2 := HeadTaken(n1, x, p);
            && |n2| == |n0| && KeptOutside([x, p], n0, n2)
            && n2[x] == n0[x].(thread := None, prev := None) && n2[p].next.None?
  {
  }

  /** The failure exit: `cancelAcquire(x)` behind the head `p`. */
  lemma TouchedGiveUp(n0: seq<Node>, n1: seq<Node>, n2: seq<Node>, x: NodeId, p: NodeId)
    requires Touched(n0, n1, x, p) && LinkIn(n1[x].next, |n1|)
    requires n2 == CancelledTail(n1, x, p) || n2 == CancelledInner(n1, x, p, false)
    ensures |n2| == |n0| && KeptOutside([x, p], n0, n2)
  {
  }

  /** Two frames in a row: what is kept outside `xs` and then outside `ys`
      is kept outside any `zs` naming every old node of either. */
  lemma KeptAcross(xs: seq<NodeId>, ys: seq<NodeId>, zs: seq<NodeId>, n0: seq<Node>, n1: seq<Node>, n2: seq<Node>)
    requires KeptOutside(xs, n0, n1) && KeptOutside(ys, n1, n2)
    requires forall y :: y in xs + ys && y < |n0| ==> y in zs
    ensures KeptOutside(zs, n0, n2)
  {
  }

  /** The arena after the condition node `x` of `n0` had its status reset
      to 0 and was `enq`ueued behind the tail of `q` (behind a fresh
      sentinel when `q` was empty): `x.prev` and the predecessor's `next`
      are linked, and nothing else changes. */
  ghost function EnqueuedArena(q: seq<NodeId>, n0: seq<Node>, x: NodeId): (r: seq<Node>)
    requires InArena(q, n0) && x < |n0|
    ensures |r| == |n0| + (if q == [] then 1 else 0)
  {
    var n1 := n0[x := n0[x].(waitStatus := 0)];
    if q == [] then Appended([|n0|], n1 + [NewNode(None, 0)], x) else Appended(q, n1, x)
  }

  /** `EnqueuedArena`, followed by the end of `transferForSignal`: the
      predecessor becomes SIGNAL unless it has cancelled, in which case it
      is left alone (and `x`'s thread is woken instead). */
  ghost function SignalledArena(q: seq<NodeId>, n0: seq<Node>, x: NodeId): (r: seq<Node>)
    requires InArena(q, n0) && x < |n0|
    ensures |r| == |n0| + (if q == [] then 1 else 0)
  {
    var n2 := EnqueuedArena(q, n0, x);
    var p := TailOrSentinel(q, |n0|);
    if n2[p].waitStatus <= 0 then n2[p := n2[p].(waitStatus := SIGNAL)] else n2
  }

  /** What `EnqueuedArena` does to the two nodes it touches; every other
      old node is kept. */
  lemma EnqueuedArenaIs(q: seq<NodeId>, n0: seq<Node>, x: NodeId)
    requires InArena(q, n0) && x < |n0| && x !in q
    ensures var r, p := EnqueuedArena(q, n0, x), TailOrSentinel(q, |n0|);
            && p != x && r[x] == n0[x].(waitStatus := 0, prev := Some(p))
            && r[p] == (if q == [] then NewNode(None, 0) else n0[p]).(next := Some(x))
            && KeptOutside([x, p], n0, r)
  {
    if q != [] {
      assert q[|q| - 1] in q;
    }
  }

  /** What `SignalledArena` does to the two nodes it touches; every other
      old node is kept. */
  lemma SignalledArenaIs(q: seq<NodeId>, n0: seq<Node>, x: NodeId)
    requires InArena(q, n0) && x < |n0| && x !in q
    ensures var r, p := SignalledArena(q, n0, x), TailOrSentinel(q, |n0|);
            var ws := if q == [] then 0 else n0[p].waitStatus;
            && p != x && r[x] == n0[x].(waitStatus := 0, prev := Some(p))
            && r[p] == (if q == [] then NewNode(None, 0) else n0[p]).(next := Some(x),
                                                                      waitStatus := if ws <= 0 then SIGNAL else ws)
            && (r[p].waitStatus == SIGNAL <==> !TailCancelled(q, n0))
            && KeptOutside([x, p], n0, r)
  {
    EnqueuedArenaIs(q, n0, x);
  }

  /** `SignalledArena` changes no old node but `x` and the one it was
      enqueued behind, whether or not `x` was already queued. */
  lemma SignalledArenaKeeps(q: seq<NodeId>, n0: seq<Node>, x: NodeId)
    requires InArena(q, n0) && x < |n0|
    ensures KeptOutside([x, TailOrSentinel(q, |n0|)], n0, SignalledArena(q, n0, x))
  {
  }

  /** The arena after `cancelAcquire` of the tail `x`, already relinked to
      its live predecessor `p`: `x` is CANCELLED without a thread, and
      `p.next` is cleared as the tail retracts to `p`. */
  function CancelledTail(nodes: seq<Node>, x: NodeId, p: NodeId): seq<Node>
    requires x < |nodes| && p < |nodes|
  {
    nodes[x := nodes[x].(waitStatus := CANCELLED, thread := None)][p := nodes[p].(next := None)]
  }

  /** The arena after `cancelAcquire` of a waiter `x` that is not the
      tail, already relinked to its live predecessor `p`: `x` is CANCELLED
      without a thread and links to itself; a predecessor other than the
      head (`handOff`) becomes SIGNAL and takes over `x`'s successor as
      `next` when that successor has not cancelled. */
  function CancelledInner(nodes: seq<Node>, x: NodeId, p: NodeId, handOff: bool): seq<Node>
    requires x < |nodes| && p < |nodes| && LinkIn(nodes[x].next, |nodes|)
  {
    var s := nodes[x].next;
    var link := s.Some? && s.value != x && nodes[s.value].waitStatus <= 0;
    var pn := nodes[p];
    (if handOff then nodes[p := pn.(waitStatus := SIGNAL, next := if link then s else pn.next)] else nodes)
      [x := nodes[x].(waitStatus := CANCELLED, thread := None, next := Some(x))]
  }

}
