/** NyaAbstractQueuedSynchronized.ConditionObject: the condition queue, a
    singly linked list of nodes threaded through `nextWaiter`, from
    `firstWaiter` to `lastWaiter`. It is touched only by the thread holding
    the lock, so every operation here is a plain sequential step. The nodes
    themselves live in the synchronizer's arena; `Waiters` is the list that
    the `nextWaiter` links spell out. */
module Condition {
  import opened Base
  import opened WaitQueue
  import Aqs
  import HoldCount

  /** The interrupt modes of `await`: re-interrupt on exit, or throw
      InterruptedException. */
  const REINTERRUPT: int := 1
  const THROW_IE: int := -1

  /** The `nextWaiter` field of node `n` (null when `n` has no entry). */
  function NextOf(links: map<NodeId, NodeId>, n: NodeId): Option<NodeId> {
    if n in links then Some(links[n]) else None
  }

  /** `n.nextWaiter = v`. */
  function SetNext(links: map<NodeId, NodeId>, n: NodeId, v: Option<NodeId>): (r: map<NodeId, NodeId>)
    ensures NextOf(r, n) == v
    ensures forall m :: m != n ==> NextOf(r, m) == NextOf(links, m)
  {
    if v.None? then links - {n} else links[n := v.value]
  }

  function FirstOf(w: seq<NodeId>): Option<NodeId> {
    if w == [] then None else Some(w[0])
  }

  function LastOf(w: seq<NodeId>): Option<NodeId> {
    if w == [] then None else Some(w[|w| - 1])
  }

  /** `links` threads exactly the list `w`: each node's `nextWaiter` names
      the next node of `w`, the last one's is null, and no other node has
      a `nextWaiter`. */
  ghost predicate Linked(w: seq<NodeId>, links: map<NodeId, NodeId>) {
    && (forall i {:trigger NextOf(links, w[i])} :: 0 <= i < |w| ==>
          NextOf(links, w[i]) == if i + 1 < |w| then Some(w[i + 1]) else None)
    && (forall n {:trigger n in links} :: n in links ==> n in w)
  }

  /** The condition list `w` with its links and both ends. */
  ghost predicate ListOk(w: seq<NodeId>, links: map<NodeId, NodeId>, first: Option<NodeId>, last: Option<NodeId>) {
    Linked(w, links) && first == FirstOf(w) && last == LastOf(w)
  }

  /** Node `n` still waits on the condition: it has been neither
      signalled nor cancelled. */
  predicate IsWaiting(nodes: seq<Node>, n: NodeId) {
    n < |nodes| && nodes[n].waitStatus == CONDITION
  }

  /** The waiters among the first `n` of `w` that still wait on the
      condition, in order. */
  function SurvivorsBefore(w: seq<NodeId>, n: nat, nodes: seq<Node>): (r: seq<NodeId>)
    requires n <= |w|
    ensures |r| <= n
  {
    if n == 0 then []
    else SurvivorsBefore(w, n - 1, nodes) + (if IsWaiting(nodes, w[n - 1]) then [w[n - 1]] else [])
  }

  /** The waiters of `w` that still wait on the condition, in order. */
  function Survivors(w: seq<NodeId>, nodes: seq<Node>): (r: seq<NodeId>)
    ensures |r| <= |w|
  {
    SurvivorsBefore(w, |w|, nodes)
  }

  /** The position of the first waiter of `w` that still waits, or `|w|`. */
  function SignalIndex(w: seq<NodeId>, nodes: seq<Node>): (k: nat)
    ensures k <= |w|
    ensures forall j :: 0 <= j < k ==> !IsWaiting(nodes, w[j])
    ensures k < |w| ==> IsWaiting(nodes, w[k])
  {
    if w == [] then 0
    else if IsWaiting(nodes, w[0]) then 0
    else 1 + SignalIndex(w[1..], nodes)
  }

  /** The sync queue `q` after the nodes `xs` were enqueued one by one, a
      fresh sentinel (arena index `sentinel`) being created first when `q`
      was empty. */
  function Enqueued(q: seq<NodeId>, sentinel: NodeId, xs: seq<NodeId>): seq<NodeId> {
    if xs == [] then q
    else (if q == [] then [sentinel] else q) + xs
  }

  /** The effect of `doSignal` on the list `w0`, the sync queue `q0` and the
      arena `n0`: the waiters up to and including the first one still
      waiting leave the list, and that one (if any) is transferred as
      `transferForSignal` does it: enqueued behind the old tail, which
      becomes SIGNAL unless it has cancelled. No other node changes. */
  ghost predicate SignalledFirst(w0: seq<NodeId>, q0: seq<NodeId>, n0: seq<Node>,
                                 w: seq<NodeId>, q: seq<NodeId>, nodes: seq<Node>)
  {
    var k := SignalIndex(w0, n0);
    && w == (if k < |w0| then w0[k + 1..] else [])
    && q == Enqueued(q0, |n0|, if k < |w0| then [w0[k]] else [])
    && (k == |w0| ==> nodes == n0)
    && (k < |w0| ==> InArena(q0, n0) && nodes == SignalledArena(q0, n0, w0[k]))
  }

  /** The arena after the nodes `xs` were transferred one after the other
      from `n0`, starting from the sync queue `q0`: each is enqueued
      behind the previous one (the first behind the tail of `q0`), whose
      status becomes SIGNAL unless it has cancelled. */
  ghost function SignalledAllArena(q0: seq<NodeId>, n0: seq<Node>, xs: seq<NodeId>): (r: seq<Node>)
    requires InArena(q0, n0) && InArena(xs, n0)
    ensures |r| == |n0| + (if q0 == [] && xs != [] then 1 else 0)
    decreases |xs|
  {
    if xs == [] then n0
    else
      var s := xs[..|xs| - 1];
      assert InArena(s, n0);
      SignalledArena(Enqueued(q0, |n0|, s), SignalledAllArena(q0, n0, s), xs[|xs| - 1])
  }

  /** The effect of `doSignalAll` on the list `w0`, the sync queue `q0` and
      the arena `n0`: the list is emptied, and every waiter that still
      waited is transferred, in list order. Only those waiters and the
      old tail change. */
  ghost predicate SignalledAll(w0: seq<NodeId>, q0: seq<NodeId>, n0: seq<Node>,
                               w: seq<NodeId>, q: seq<NodeId>, nodes: seq<Node>)
  {
    && w == []
    && q == Enqueued(q0, |n0|, Survivors(w0, n0))
    && InArena(q0, n0) && InArena(Survivors(w0, n0), n0)
    && nodes == SignalledAllArena(q0, n0, Survivors(w0, n0))
    && KeptOutside(TailPart(q0) + Survivors(w0, n0), n0, nodes)
    && (forall j :: 0 <= j < |w0| ==> !IsWaiting(nodes, w0[j]))
  }

  /** `checkInterruptWhileWaiting`, given whether the thread was interrupted
      and whether `transferAfterCancelledWait` found the node still waiting
      (the wait was cancelled before any signal). */
  function InterruptMode(interrupted: bool, cancelledFirst: bool): (mode: int)
    ensures mode == 0 <==> !interrupted
    ensures mode == THROW_IE <==> interrupted && cancelledFirst
    ensures mode == REINTERRUPT <==> interrupted && !cancelledFirst
  {
    if interrupted then (if cancelledFirst then THROW_IE else REINTERRUPT) else 0
  }

  /** The list `w` without its node at position `p`. */
  function Without(w: seq<NodeId>, p: nat): (r: seq<NodeId>)
    requires p < |w|
    ensures |r| == |w| - 1
    ensures forall i :: 0 <= i < |r| ==> r[i] == if i < p then w[i] else w[i + 1]
  {
    w[..p] + w[p + 1..]
  }

  /** The links after unlinking the node at position `p` of `w`:
      `t.nextWaiter = null`, then `trail.nextWaiter = next` when a node
      precedes it (otherwise `firstWaiter = next` moves the front). */
  function Unlinked(links: map<NodeId, NodeId>, w: seq<NodeId>, p: nat): map<NodeId, NodeId>
    requires p < |w|
  {
    if p == 0 then links - {w[0]} else SetNext(links - {w[p]}, w[p - 1], NextOf(links, w[p]))
  }

  /** The link out of the node at position `i`. */
  lemma LinkAt(w: seq<NodeId>, links: map<NodeId, NodeId>, i: nat)
    requires Linked(w, links) && i < |w|
    ensures NextOf(links, w[i]) == if i + 1 < |w| then Some(w[i + 1]) else None
  {
  }

  /** The `nextWaiter` of any node after unlinking position `p`. */
  lemma UnlinkedAt(links: map<NodeId, NodeId>, w: seq<NodeId>, p: nat, m: NodeId)
    requires p < |w| && (p > 0 ==> w[p - 1] != w[p])
    ensures NextOf(Unlinked(links, w, p), m) ==
              if m == w[p] then None
              else if p > 0 && m == w[p - 1] then NextOf(links, w[p])
              else NextOf(links, m)
  {
  }

  /** A list threaded by `nextWaiter` links has no cycle: no node occurs
      twice in it. */
  lemma LinkedDistinct(w: seq<NodeId>, links: map<NodeId, NodeId>)
    requires Linked(w, links)
    ensures Distinct(w)
  {
    forall i, j | 0 <= i < j < |w|
      ensures w[i] != w[j]
    {
      LinkedApart(w, links, i, j);
    }
  }

  /** Two positions of a linked list hold different nodes: their
      `nextWaiter` links differ, as the list runs out sooner from the
      later one. */
  lemma {:induction false} LinkedApart(w: seq<NodeId>, links: map<NodeId, NodeId>, i: nat, j: nat)
    requires Linked(w, links) && i < j < |w|
    ensures w[i] != w[j]
    decreases |w| - j
  {
    LinkAt(w, links, i);
    LinkAt(w, links, j);
    if j + 1 < |w| {
      LinkedApart(w, links, i + 1, j + 1);
    }
  }

  /** After unlinking position `p`, the node at position `i` of the shorter
      list links to its new successor. */
  lemma UnlinkKeepsAt(w: seq<NodeId>, links: map<NodeId, NodeId>, p: nat, i: nat)
    requires Linked(w, links) && Distinct(w) && p < |w| && i < |w| - 1
    ensures NextOf(Unlinked(links, w, p), Without(w, p)[i]) ==
              if i + 1 < |w| - 1 then Some(Without(w, p)[i + 1]) else None
  {
    var k := if i < p then i else i + 1;
    assert Without(w, p)[i] == w[k];
    UnlinkedAt(links, w, p, w[k]);
    if i == p - 1 {
      LinkAt(w, links, p);
    } else {
      LinkAt(w, links, k);
    }
  }

  /** After unlinking position `p`, every node with a link is still listed. */
  lemma UnlinkKeepsDomain(w: seq<NodeId>, links: map<NodeId, NodeId>, p: nat, n: NodeId)
    requires Linked(w, links) && Distinct(w) && p < |w| && n in Unlinked(links, w, p)
    ensures n in Without(w, p)
  {
    UnlinkedAt(links, w, p, n);
    var j :| 0 <= j < |w| && w[j] == n;
    assert Without(w, p)[if j < p then j else j - 1] == n;
  }

  /** Unlinking the node at position `p` leaves a list threading the
      remaining nodes in order. */
  lemma UnlinkKeeps(w: seq<NodeId>, links: map<NodeId, NodeId>, p: nat)
    requires Linked(w, links) && p < |w|
    ensures Linked(Without(w, p), Unlinked(links, w, p))
  {
    LinkedDistinct(w, links);
    var w', links' := Without(w, p), Unlinked(links, w, p);
    forall i {:trigger NextOf(links', w'[i])} | 0 <= i < |w'|
      ensures NextOf(links', w'[i]) == if i + 1 < |w'| then Some(w'[i + 1]) else None
    {
      UnlinkKeepsAt(w, links, p, i);
    }
    forall n | n in links'
      ensures n in w'
    {
      UnlinkKeepsDomain(w, links, p, n);
    }
  }

  /** The ends of the list after unlinking the node at position `p`: the
      front moves to its successor when it was first, the back to its
      predecessor when it was last. */
  lemma UnlinkEnds(w: seq<NodeId>, links: map<NodeId, NodeId>, p: nat)
    requires Linked(w, links) && p < |w|
    ensures FirstOf(Without(w, p)) == if p == 0 then NextOf(links, w[0]) else FirstOf(w)
    ensures LastOf(Without(w, p)) == if NextOf(links, w[p]).None? then LastOf(w[..p]) else LastOf(w)
  {
    LinkAt(w, links, p);
  }

  /** Unlinking a node keeps the rest of the list in the arena. */
  lemma UnlinkInArena(w: seq<NodeId>, p: nat, nodes: seq<Node>)
    requires p < |w| && InArena(w, nodes)
    ensures InArena(Without(w, p), nodes)
  {
  }

  /** No node on the sync queue waits on a condition. */
  lemma QueuedNotWaiting(q: seq<NodeId>, nodes: seq<Node>, head: Option<NodeId>, tail: Option<NodeId>)
    requires SyncOk(q, nodes, head, tail)
    ensures forall x :: x in q ==> !IsWaiting(nodes, x)
  {
    forall x | x in q
      ensures !IsWaiting(nodes, x)
    {
      var k :| 0 <= k < |q| && q[k] == x;
      assert nodes[q[k]].waitStatus != CONDITION;
    }
  }

  /** Linking a new node `x` after the last waiter (`t.nextWaiter = node`,
      or `firstWaiter = node` on an empty list) threads `w + [x]`. */
  lemma LinkedAppend(w: seq<NodeId>, links: map<NodeId, NodeId>, x: NodeId)
    requires Linked(w, links) && x !in w
    ensures Linked(w + [x], if w == [] then links else links[w[|w| - 1] := x])
  {
    LinkedDistinct(w, links);
    var w' := w + [x];
    var links' := if w == [] then links else links[w[|w| - 1] := x];
    forall i | 0 <= i < |w'|
      ensures NextOf(links', w'[i]) == if i + 1 < |w'| then Some(w'[i + 1]) else None
    {
      if i < |w| - 1 {
        assert NextOf(links, w[i]) == Some(w[i + 1]);
      } else if i == |w| {
        assert x !in links;
      }
    }
  }

  /** Positions before `p` keep their waiters, and the ones from `p` on
      have moved down by one, once the waiter at `p` is unlinked. */
  lemma WithoutShift(w: seq<NodeId>, p: nat, nodes: seq<Node>)
    requires p < |w| && forall j :: 0 <= j < p ==> IsWaiting(nodes, w[j])
    ensures forall j :: 0 <= j < p ==> IsWaiting(nodes, Without(w, p)[j])
    ensures p < |Without(w, p)| <==> p + 1 < |w|
    ensures p + 1 < |w| ==> Without(w, p)[p] == w[p + 1]
    ensures p > 0 ==> Without(w, p)[p - 1] == w[p - 1]
  {
  }

  /** Removing a waiter that no longer waits leaves the survivors of every
      prefix unchanged. */
  lemma {:induction false} SurvivorsBeforeWithout(w: seq<NodeId>, p: nat, n: nat, nodes: seq<Node>)
    requires p < |w| && n <= |w| && !IsWaiting(nodes, w[p])
    ensures n <= p ==> SurvivorsBefore(Without(w, p), n, nodes) == SurvivorsBefore(w, n, nodes)
    ensures p < n ==> SurvivorsBefore(Without(w, p), n - 1, nodes) == SurvivorsBefore(w, n, nodes)
    decreases n
  {
    if n > 0 {
      SurvivorsBeforeWithout(w, p, n - 1, nodes);
    }
  }

  /** Unlinking a waiter that no longer waits keeps the survivors. */
  lemma SurvivorsWithout(w: seq<NodeId>, p: nat, nodes: seq<Node>)
    requires p < |w| && !IsWaiting(nodes, w[p])
    ensures Survivors(Without(w, p), nodes) == Survivors(w, nodes)
  {
    SurvivorsBeforeWithout(w, p, |w|, nodes);
  }

  /** A prefix of waiters that all still wait survives whole. */
  lemma {:induction false} SurvivorsBeforeAll(w: seq<NodeId>, n: nat, nodes: seq<Node>)
    requires n <= |w| && forall j :: 0 <= j < n ==> IsWaiting(nodes, w[j])
    ensures SurvivorsBefore(w, n, nodes) == w[..n]
    decreases n
  {
    if n > 0 {
      SurvivorsBeforeAll(w, n - 1, nodes);
      assert w[..n] == w[..n - 1] + [w[n - 1]];
    }
  }

  /** One unlinking step of `unlinkCancelledWaiters()`: the waiter `t` at
      position `p` is cut out of the list after `trail`, the waiter just
      before it (null when `t` is first): `t.nextWaiter = null`, then
      `firstWaiter = next` or `trail.nextWaiter = next`, and `lastWaiter =
      trail` when `t` was last. */
  lemma UnlinkStep(W: seq<NodeId>, links: map<NodeId, NodeId>, first: Option<NodeId>, last: Option<NodeId>,
                   p: nat, t: NodeId, trail: Option<NodeId>)
    requires ListOk(W, links, first, last) && p < |W| && W[p] == t
    requires trail == if p == 0 then None else Some(W[p - 1])
    ensures ListOk(Without(W, p),
                   if trail.None? then links - {t} else SetNext(links - {t}, trail.value, NextOf(links, t)),
                   if trail.None? then NextOf(links, t) else first,
                   if NextOf(links, t).None? then trail else last)
  {
    LinkAt(W, links, p);
    UnlinkKeeps(W, links, p);
    UnlinkEnds(W, links, p);
  }

  /** The loop state of `unlinkCancelledWaiters()` after the cancelled
      waiter `t` at position `p` is cut out: the nodes before `p` still
      wait, `next` is now at position `p`, and the survivors are those of
      the original list `w0`. */
  lemma PurgeStep(W: seq<NodeId>, links: map<NodeId, NodeId>, first: Option<NodeId>, last: Option<NodeId>,
                  p: nat, t: NodeId, trail: Option<NodeId>, nodes: seq<Node>, w0: seq<NodeId>)
    requires ListOk(W, links, first, last) && InArena(W, nodes) && p < |W| && W[p] == t
    requires trail == if p == 0 then None else Some(W[p - 1])
    requires !IsWaiting(nodes, t) && forall j :: 0 <= j < p ==> IsWaiting(nodes, W[j])
    requires Survivors(W, nodes) == Survivors(w0, nodes)
    ensures var W' := Without(W, p);
            && ListOk(W',
                      if trail.None? then links - {t} else SetNext(links - {t}, trail.value, NextOf(links, t)),
                      if trail.None? then NextOf(links, t) else first,
                      if NextOf(links, t).None? then trail else last)
            && InArena(W', nodes) && p <= |W'|
            && NextOf(links, t) == (if p < |W'| then Some(W'[p]) else None)
            && trail == (if p == 0 then None else Some(W'[p - 1]))
            && (forall j :: 0 <= j < p ==> IsWaiting(nodes, W'[j]))
            && Survivors(W', nodes) == Survivors(w0, nodes)
  {
    LinkAt(W, links, p);
    UnlinkStep(W, links, first, last, p, t, trail);
    UnlinkInArena(W, p, nodes);
    SurvivorsWithout(W, p, nodes);
    WithoutShift(W, p, nodes);
  }

  /** `SignalIndex` is the only position with no waiting node before it
      and a waiting node at it (or the end of the list). */
  lemma SignalIndexAt(w: seq<NodeId>, nodes: seq<Node>, k: nat)
    requires k <= |w| && forall j :: 0 <= j < k ==> !IsWaiting(nodes, w[j])
    requires k < |w| ==> IsWaiting(nodes, w[k])
    ensures SignalIndex(w, nodes) == k
  {
  }

  /** One step of `doSignal`: `firstWaiter = first.nextWaiter` (and
      `lastWaiter = null` when that is null), then `first.nextWaiter = null`
      leaves the rest of the list. */
  lemma PopFront(W: seq<NodeId>, links: map<NodeId, NodeId>, first: Option<NodeId>, last: Option<NodeId>)
    requires ListOk(W, links, first, last) && W != []
    ensures ListOk(W[1..], links - {W[0]}, NextOf(links, W[0]),
                   if NextOf(links, W[0]).None? then None else last)
    ensures W[0] !in W[1..]
  {
    UnlinkStep(W, links, first, last, 0, W[0], None);
    assert Without(W, 0) == W[1..];
    LinkedDistinct(W, links);
  }

  /** A growing arena keeps every listed node in it. */
  lemma InArenaGrow(w: seq<NodeId>, nodes: seq<Node>, nodes': seq<Node>)
    requires InArena(w, nodes) && |nodes| <= |nodes'|
    ensures InArena(w, nodes')
  {
  }

  /** `doSignal` ends with the waiter at position `i` transferred: every
      waiter before it had stopped waiting, and it is now last on the sync
      queue. */
  lemma TransferredFirst(w0: seq<NodeId>, q0: seq<NodeId>, n0: seq<Node>, i: nat, q: seq<NodeId>, nodes: seq<Node>)
    requires i < |w0| && IsWaiting(n0, w0[i]) && forall j :: 0 <= j < i ==> !IsWaiting(n0, w0[j])
    requires |q| >= 2 && q[..|q| - 1] == (if q0 == [] then [|n0|] else q0) && q[|q| - 1] == w0[i]
    requires InArena(q0, n0) && nodes == SignalledArena(q0, n0, w0[i])
    ensures SignalledFirst(w0, q0, n0, w0[i + 1..], q, nodes)
  {
    SignalIndexAt(w0, n0, i);
    assert q == q[..|q| - 1] + [w0[i]];
  }

  /** `doSignal` ends with the list run out: no waiter was waiting. */
  lemma TransferredNone(w0: seq<NodeId>, q0: seq<NodeId>, n0: seq<Node>)
    requires forall j :: 0 <= j < |w0| ==> !IsWaiting(n0, w0[j])
    ensures SignalledFirst(w0, q0, n0, [], q0, n0)
  {
    SignalIndexAt(w0, n0, |w0|);
  }

  /** How one round of `doSignal` ends, from what `transferForSignal`
      did with the waiter at position `i`: the list ran out or the waiter
      was transferred (and `doSignal` is done), or the waiter had stopped
      waiting (and the next round follows). */
  lemma RoundOutcome(w0: seq<NodeId>, q0: seq<NodeId>, n0: seq<Node>, i: nat, transferred: bool, woken: Option<NodeId>,
                     q: seq<NodeId>, nodes: seq<Node>)
    requires i < |w0| && w0[i] < |n0| && InArena(q0, n0) && forall j :: 0 <= j < i ==> !IsWaiting(n0, w0[j])
    requires transferred <==> n0[w0[i]].waitStatus == CONDITION
    requires woken == if transferred && TailCancelled(q0, n0) then Some(w0[i]) else None
    requires !transferred ==> nodes == n0 && q == q0
    requires transferred ==>
               && |q| >= 2 && q[..|q| - 1] == (if q0 == [] then [|n0|] else q0) && q[|q| - 1] == w0[i]
               && nodes == SignalledArena(q0, n0, w0[i])
    ensures transferred || i + 1 == |w0| ==> SignalledFirst(w0, q0, n0, w0[i + 1..], q, nodes)
    ensures transferred ==> SignalIndex(w0, n0) == i && woken == if TailCancelled(q0, n0) then Some(w0[i]) else None
    ensures !transferred ==> forall j :: 0 <= j <= i ==> !IsWaiting(n0, w0[j])
  {
    if transferred {
      TransferredFirst(w0, q0, n0, i, q, nodes);
      SignalIndexAt(w0, n0, i);
    } else if i + 1 == |w0| {
      TransferredNone(w0, q0, n0);
    }
  }

  /** A node is among the survivors of a prefix exactly when it occurs in
      that prefix and still waits. */
  lemma {:induction false} SurvivorsBeforeMembers(w: seq<NodeId>, n: nat, nodes: seq<Node>, x: NodeId)
    requires n <= |w|
    ensures x in SurvivorsBefore(w, n, nodes) <==> x in w[..n] && IsWaiting(nodes, x)
    decreases n
  {
    if n > 0 {
      SurvivorsBeforeMembers(w, n - 1, nodes, x);
      assert w[..n] == w[..n - 1] + [w[n - 1]];
    }
  }

  /** The survivors are exactly the listed nodes that still wait. */
  lemma SurvivorsMembers(w: seq<NodeId>, nodes: seq<Node>, x: NodeId)
    ensures x in Survivors(w, nodes) <==> x in w && IsWaiting(nodes, x)
  {
    SurvivorsBeforeMembers(w, |w|, nodes, x);
    assert w[..|w|] == w;
  }

  /** Purging a purged list changes nothing. */
  lemma SurvivorsIdempotent(w: seq<NodeId>, nodes: seq<Node>)
    ensures Survivors(Survivors(w, nodes), nodes) == Survivors(w, nodes)
  {
    var s := Survivors(w, nodes);
    forall j | 0 <= j < |s|
      ensures IsWaiting(nodes, s[j])
    {
      SurvivorsMembers(w, nodes, s[j]);
    }
    SurvivorsBeforeAll(s, |s|, nodes);
    assert s[..|s|] == s;
  }

  lemma {:induction false} SurvivorsBeforeAgree(w: seq<NodeId>, n: nat, nodes: seq<Node>, nodes': seq<Node>)
    requires n <= |w| && forall j :: 0 <= j < |w| ==> (IsWaiting(nodes, w[j]) <==> IsWaiting(nodes', w[j]))
    ensures SurvivorsBefore(w, n, nodes) == SurvivorsBefore(w, n, nodes')
    decreases n
  {
    if n > 0 {
      SurvivorsBeforeAgree(w, n - 1, nodes, nodes');
    }
  }

  /** The survivors depend only on which listed nodes still wait. */
  lemma SurvivorsAgree(w: seq<NodeId>, nodes: seq<Node>, nodes': seq<Node>)
    requires forall j :: 0 <= j < |w| ==> (IsWaiting(nodes, w[j]) <==> IsWaiting(nodes', w[j]))
    ensures Survivors(w, nodes) == Survivors(w, nodes')
  {
    SurvivorsBeforeAgree(w, |w|, nodes, nodes');
  }

  lemma {:induction false} SurvivorsBeforeSnoc(w: seq<NodeId>, x: NodeId, n: nat, nodes: seq<Node>)
    requires n <= |w|
    ensures SurvivorsBefore(w + [x], n, nodes) == SurvivorsBefore(w, n, nodes)
    decreases n
  {
    if n > 0 {
      SurvivorsBeforeSnoc(w, x, n - 1, nodes);
    }
  }

  /** A node appended to the list survives after the others exactly when
      it still waits. */
  lemma SurvivorsAppend(w: seq<NodeId>, x: NodeId, nodes: seq<Node>)
    ensures Survivors(w + [x], nodes) == Survivors(w, nodes) + (if IsWaiting(nodes, x) then [x] else [])
  {
    SurvivorsBeforeSnoc(w, x, |w|, nodes);
  }

  lemma {:induction false} SurvivorsBeforeNone(w: seq<NodeId>, n: nat, nodes: seq<Node>)
    requires n <= |w| && forall j :: 0 <= j < n ==> !IsWaiting(nodes, w[j])
    ensures SurvivorsBefore(w, n, nodes) == []
    decreases n
  {
    if n > 0 {
      SurvivorsBeforeNone(w, n - 1, nodes);
    }
  }

  lemma {:induction false} SurvivorsBeforeFront(w: seq<NodeId>, k: nat, n: nat, nodes: seq<Node>)
    requires k < n <= |w| && SurvivorsBefore(w, k, nodes) == [] && IsWaiting(nodes, w[k])
    ensures SurvivorsBefore(w, n, nodes) != [] && SurvivorsBefore(w, n, nodes)[0] == w[k]
    decreases n
  {
    if n > k + 1 {
      SurvivorsBeforeFront(w, k, n - 1, nodes);
    }
  }

  /** `doSignal` picks the first survivor: some listed node still waits
      exactly when `SignalIndex` is inside the list, and the node there is
      the first of the survivors. */
  lemma SignalIndexIsFirstSurvivor(w: seq<NodeId>, nodes: seq<Node>)
    ensures SignalIndex(w, nodes) < |w| <==> Survivors(w, nodes) != []
    ensures SignalIndex(w, nodes) < |w| ==> w[SignalIndex(w, nodes)] == Survivors(w, nodes)[0]
  {
    var k := SignalIndex(w, nodes);
    SurvivorsBeforeNone(w, k, nodes);
    if k < |w| {
      SurvivorsBeforeFront(w, k, |w|, nodes);
    }
  }

  /** `addConditionWaiter` keeps the survivors and adds the new node last,
      whether or not it purged the list first (`w1` is the list it
      appended to, `nodes` the arena grown by the new node). */
  lemma AddedSurvivors(w0: seq<NodeId>, n0: seq<Node>, w1: seq<NodeId>, nodes: seq<Node>, node: NodeId)
    requires InArena(w0, n0) && (w1 == w0 || w1 == Survivors(w0, n0))
    requires |n0| <= |nodes| && nodes[..|n0|] == n0 && IsWaiting(nodes, node)
    ensures Survivors(w1 + [node], nodes) == Survivors(w0, n0) + [node]
  {
    SurvivorsAppend(w1, node, nodes);
    forall j | 0 <= j < |w1|
      ensures IsWaiting(n0, w1[j]) <==> IsWaiting(nodes, w1[j])
    {
      if w1 != w0 {
        SurvivorsMembers(w0, n0, w1[j]);
      }
      assert nodes[w1[j]] == nodes[..|n0|][w1[j]];
    }
    SurvivorsAgree(w1, n0, nodes);
    if w1 != w0 {
      SurvivorsIdempotent(w0, n0);
    }
  }

  /** The sync queue after one more node `f` was transferred (or none). */
  lemma EnqueuedStep(q0: seq<NodeId>, sentinel: NodeId, xs: seq<NodeId>, f: NodeId, transferred: bool,
                     q: seq<NodeId>, size: nat, q': seq<NodeId>)
    requires q == Enqueued(q0, sentinel, xs) && (xs == [] ==> size == sentinel)
    requires !transferred ==> q' == q
    requires transferred ==> |q'| >= 1 && q'[..|q'| - 1] == (if q == [] then [size] else q) && q'[|q'| - 1] == f
    ensures q' == Enqueued(q0, sentinel, xs + (if transferred then [f] else []))
    ensures forall x :: x in q ==> x in q'
  {
    if transferred {
      assert q' == q'[..|q'| - 1] + [f];
      forall x | x in q
        ensures x in q'
      {
        assert x in q'[..|q'| - 1];
      }
    }
  }

  /** One round of `doSignalAll` keeps, for every listed node but the
      transferred one, whether it waits. */
  lemma WaitingStep(w0: seq<NodeId>, i: nat, q: seq<NodeId>, nodes: seq<Node>, q': seq<NodeId>, nodes': seq<Node>)
    requires Distinct(w0) && i < |w0| && InArena(w0, nodes)
    requires forall x :: x in q ==> !IsWaiting(nodes, x) && !IsWaiting(nodes', x)
    requires OthersKept(q, nodes, nodes', w0[i])
    ensures forall j :: 0 <= j < |w0| && j != i ==> (IsWaiting(nodes', w0[j]) <==> IsWaiting(nodes, w0[j]))
  {
    forall j | 0 <= j < |w0| && j != i
      ensures IsWaiting(nodes', w0[j]) <==> IsWaiting(nodes, w0[j])
    {
      assert w0[j] != w0[i];
      if w0[j] !in q {
        assert nodes'[w0[j]] == nodes[w0[j]];
      }
    }
  }

  /** The survivors are nodes of the arena. */
  lemma SurvivorsInArena(w: seq<NodeId>, n: nat, nodes: seq<Node>)
    requires n <= |w|
    ensures InArena(SurvivorsBefore(w, n, nodes), nodes)
  {
    var s := SurvivorsBefore(w, n, nodes);
    forall i | 0 <= i < |s|
      ensures s[i] < |nodes|
    {
      SurvivorsBeforeMembers(w, n, nodes, s[i]);
    }
  }

  /** The tail of the sync queue `q0` after the nodes `s` joined it (behind
      a sentinel numbered `|n0|` when it was empty) is its old tail, one of
      `s`, or no node of the arena `n0`. */
  lemma EnqueuedTail(q0: seq<NodeId>, n0: seq<Node>, s: seq<NodeId>, m: nat)
    requires InArena(q0, n0) && |n0| <= m
    ensures var p := TailOrSentinel(Enqueued(q0, |n0|, s), m);
            p < |n0| ==> p in TailPart(q0) + s
  {
    if s != [] {
      assert TailOrSentinel(Enqueued(q0, |n0|, s), m) == s[|s| - 1];
    }
  }

  /** Two steps that each keep the nodes outside a few: the second,
      which may change `x` and `p`, adds only `x` to those of the first. */
  lemma KeptOutsideSnoc(n0: seq<Node>, n1: seq<Node>, n2: seq<Node>, t: seq<NodeId>, s: seq<NodeId>,
                        x: NodeId, p: NodeId)
    requires KeptOutside(t + s, n0, n1) && KeptOutside([x, p], n1, n2)
    requires p < |n0| ==> p in t + s
    ensures KeptOutside(t + (s + [x]), n0, n2)
  {
    assert t + (s + [x]) == t + s + [x];
  }

  /** The sync queue `q0` with the nodes `s` behind it lies in the arena
      `nodes` that has grown by the sentinel if one was needed. */
  lemma EnqueuedInArena(q0: seq<NodeId>, n0: seq<Node>, s: seq<NodeId>, nodes: seq<Node>)
    requires InArena(q0, n0) && InArena(s, n0)
    requires |nodes| == |n0| + (if q0 == [] && s != [] then 1 else 0)
    ensures InArena(Enqueued(q0, |n0|, s), nodes)
  {
  }

  /** Transferring the nodes `xs` changes no old node but them and the old
      tail of the sync queue `q0`. */
  lemma {:induction false} SignalledAllKeeps(q0: seq<NodeId>, n0: seq<Node>, xs: seq<NodeId>)
    requires InArena(q0, n0) && InArena(xs, n0)
    ensures KeptOutside(TailPart(q0) + xs, n0, SignalledAllArena(q0, n0, xs))
    decreases |xs|
  {
    if xs != [] {
      var s, x := xs[..|xs| - 1], xs[|xs| - 1];
      assert xs == s + [x];
      assert InArena(s, n0);
      SignalledAllArenaSnoc(q0, n0, s, x);
      SignalledAllKeeps(q0, n0, s);
      var q, ns := Enqueued(q0, |n0|, s), SignalledAllArena(q0, n0, s);
      EnqueuedInArena(q0, n0, s, ns);
      SignalledArenaKeeps(q, ns, x);
      EnqueuedTail(q0, n0, s, |ns|);
      KeptOutsideSnoc(n0, ns, SignalledAllArena(q0, n0, xs), TailPart(q0), s, x, TailOrSentinel(q, |ns|));
    }
  }

  /** The fold `SignalledAllArena` taken one node further. */
  lemma SignalledAllArenaSnoc(q0: seq<NodeId>, n0: seq<Node>, s: seq<NodeId>, f: NodeId)
    requires InArena(q0, n0) && InArena(s, n0) && f < |n0|
    ensures InArena(s + [f], n0)
    ensures SignalledAllArena(q0, n0, s + [f])
            == SignalledArena(Enqueued(q0, |n0|, s), SignalledAllArena(q0, n0, s), f)
  {
    assert (s + [f])[..|s|] == s;
  }

  /** `doSignalAll` is done once every survivor was transferred and no
      listed node waits any more. */
  lemma SignalledAllDone(w0: seq<NodeId>, q0: seq<NodeId>, n0: seq<Node>, n: nat, q: seq<NodeId>, nodes: seq<Node>)
    requires n == |w0| && InArena(q0, n0) && InArena(SurvivorsBefore(w0, n, n0), n0)
    requires q == Enqueued(q0, |n0|, SurvivorsBefore(w0, n, n0))
    requires nodes == SignalledAllArena(q0, n0, SurvivorsBefore(w0, n, n0))
    requires forall j :: 0 <= j < n ==> !IsWaiting(nodes, w0[j])
    ensures SignalledAll(w0, q0, n0, [], q, nodes)
  {
    SignalledAllKeeps(q0, n0, Survivors(w0, n0));
  }

  /** The arena after one more node `f` was transferred (or none). */
  lemma SignalledAllSnoc(q0: seq<NodeId>, n0: seq<Node>, s: seq<NodeId>, f: NodeId, transferred: bool,
                         s': seq<NodeId>, nodes: seq<Node>, nodes': seq<Node>)
    requires InArena(q0, n0) && InArena(s, n0) && f < |n0|
    requires s' == s + (if transferred then [f] else [])
    requires nodes == SignalledAllArena(q0, n0, s)
    requires !transferred ==> nodes' == nodes
    requires transferred ==> InArena(Enqueued(q0, |n0|, s), nodes)
                             && nodes' == SignalledArena(Enqueued(q0, |n0|, s), nodes, f)
    ensures InArena(s', n0) && nodes' == SignalledAllArena(q0, n0, s')
  {
    if transferred {
      SignalledAllArenaSnoc(q0, n0, s, f);
    } else {
      assert s + [] == s;
    }
  }

  /** One round of `doSignalAll` on the waiter at position `i`, from what
      `transferForSignal` did with it (the sync queue `q` and arena `nodes`
      before, `q'` and `nodes'` after): the loop state moves on to
      position `i + 1`, and after the last waiter the list is signalled. */
  lemma SignalAllStep(w0: seq<NodeId>, q0: seq<NodeId>, n0: seq<Node>, i: nat,
                      q: seq<NodeId>, nodes: seq<Node>, transferred: bool, q': seq<NodeId>, nodes': seq<Node>)
    requires InArena(w0, n0) && Distinct(w0) && i < |w0| && |n0| <= |nodes|
    requires q == Enqueued(q0, |n0|, SurvivorsBefore(w0, i, n0))
    requires SurvivorsBefore(w0, i, n0) == [] ==> nodes == n0
    requires forall j :: 0 <= j < i ==> !IsWaiting(nodes, w0[j])
    requires forall j :: i <= j < |w0| ==> (IsWaiting(nodes, w0[j]) <==> IsWaiting(n0, w0[j]))
    requires forall x :: x in q ==> !IsWaiting(nodes, x)
    requires forall x :: x in q' ==> !IsWaiting(nodes', x)
    requires OthersKept(q, nodes, nodes', w0[i])
    requires transferred <==> nodes[w0[i]].waitStatus == CONDITION
    requires !transferred ==> nodes' == nodes && q' == q
    requires transferred ==>
               && |q'| >= 1 && q'[..|q'| - 1] == (if q == [] then [|nodes|] else q)
               && q'[|q'| - 1] == w0[i] && nodes'[w0[i]].waitStatus == 0
    ensures SurvivorsBefore(w0, i + 1, n0) == SurvivorsBefore(w0, i, n0) + (if transferred then [w0[i]] else [])
    ensures q' == Enqueued(q0, |n0|, SurvivorsBefore(w0, i + 1, n0))
    ensures SurvivorsBefore(w0, i + 1, n0) == [] ==> nodes' == n0
    ensures forall j :: 0 <= j < i + 1 ==> !IsWaiting(nodes', w0[j])
    ensures forall j :: i + 1 <= j < |w0| ==> (IsWaiting(nodes', w0[j]) <==> IsWaiting(n0, w0[j]))
  {
    var s := SurvivorsBefore(w0, i, n0);
    assert SurvivorsBefore(w0, i + 1, n0) == s + (if transferred then [w0[i]] else []);
    EnqueuedStep(q0, |n0|, s, w0[i], transferred, q, |nodes|, q');
    assert InArena(w0, nodes);
    WaitingStep(w0, i, q, nodes, q', nodes');
  }

  class ConditionObject {
    /** The synchronizer whose lock this condition belongs to (the
        enclosing instance of the inner class). */
    const sync: Aqs.Synchronizer
    var firstWaiter: Option<NodeId>
    var lastWaiter: Option<NodeId>
    /** The `nextWaiter` fields of the nodes on this condition's list. */
    var nextWaiter: map<NodeId, NodeId>
    ghost var Waiters: seq<NodeId>

    ghost predicate Valid()
      reads this, sync
    {
      sync.Valid() && Listed() && InArena(Waiters, sync.nodes)
    }

    /** The condition's own part of `Valid()`: the list is well linked and
        its nodes are in the arena. (No node still waiting on the condition
        is on the sync queue: `sync.Valid()` rules that out.) */
    ghost predicate Listed()
      reads this
    {
      ListOk(Waiters, nextWaiter, firstWaiter, lastWaiter)
    }

    /** `sync.newCondition()`: an empty condition of `sync`. */
    constructor (sync: Aqs.Synchronizer)
      requires sync.Valid()
      ensures Valid() && this.sync == sync && Waiters == []
      ensures firstWaiter.None? && lastWaiter.None?
    {
      this.sync := sync;
      firstWaiter := None;
      lastWaiter := None;
      nextWaiter := map[];
      Waiters := [];
    }

    /** `unlinkCancelledWaiters()`: walks the list from `firstWaiter` and
        unlinks every node that no longer waits on the condition; `trail`
        is the last node kept so far. */
    method UnlinkCancelledWaiters()
      requires Listed() && InArena(Waiters, sync.nodes)
      modifies this`firstWaiter, this`lastWaiter, this`nextWaiter, this`Waiters
      ensures Listed() && InArena(Waiters, sync.nodes)
      ensures Waiters == Survivors(old(Waiters), sync.nodes)
      ensures lastWaiter == LastOf(Survivors(old(Waiters), sync.nodes))
    {
      ghost var w0, nodes := Waiters, sync.nodes;
      ghost var p := 0;
      var t := firstWaiter;
      var trail: Option<NodeId> := None;
      while t.Some?
        invariant ListOk(Waiters, nextWaiter, firstWaiter, lastWaiter)
        invariant InArena(Waiters, nodes)
        invariant sync as object != this as object && sync.nodes == nodes
        invariant p <= |Waiters|
        invariant t == if p < |Waiters| then Some(Waiters[p]) else None
        invariant trail == if p == 0 then None else Some(Waiters[p - 1])
        invariant forall j :: 0 <= j < p ==> IsWaiting(nodes, Waiters[j])
        invariant Survivors(Waiters, nodes) == Survivors(w0, nodes)
        decreases |Waiters| - p
      {
        if sync.nodes[t.value].waitStatus != CONDITION {
          t := Unlink(p, t.value, trail, w0);
        } else {
          LinkAt(Waiters, nextWaiter, p);
          trail := t;
          p := p + 1;
          t := NextOf(nextWaiter, t.value);
        }
      }
      SurvivorsBeforeAll(Waiters, |Waiters|, nodes);
      assert Waiters[..|Waiters|] == Waiters;
    }

    /** The body of `unlinkCancelledWaiters()`'s loop for a node `t`, at
        position `p`, that no longer waits: `t.nextWaiter = null`, then
        `trail.nextWaiter = next` (or `firstWaiter = next` when `t` is
        first), and `lastWaiter = trail` when `t` was last. */
    method Unlink(ghost p: nat, t: NodeId, trail: Option<NodeId>, ghost w0: seq<NodeId>) returns (next: Option<NodeId>)
      requires Listed() && InArena(Waiters, sync.nodes) && p < |Waiters| && Waiters[p] == t
      requires trail == if p == 0 then None else Some(Waiters[p - 1])
      requires !IsWaiting(sync.nodes, t) && forall j :: 0 <= j < p ==> IsWaiting(sync.nodes, Waiters[j])
      requires Survivors(Waiters, sync.nodes) == Survivors(w0, sync.nodes)
      modifies this`firstWaiter, this`lastWaiter, this`nextWaiter, this`Waiters
      ensures Listed() && InArena(Waiters, sync.nodes) && p <= |Waiters| < |old(Waiters)|
      ensures next == if p < |Waiters| then Some(Waiters[p]) else None
      ensures trail == if p == 0 then None else Some(Waiters[p - 1])
      ensures forall j :: 0 <= j < p ==> IsWaiting(sync.nodes, Waiters[j])
      ensures Survivors(Waiters, sync.nodes) == Survivors(w0, sync.nodes)
    {
      PurgeStep(Waiters, nextWaiter, firstWaiter, lastWaiter, p, t, trail, sync.nodes, w0);
      next := NextOf(nextWaiter, t);
      nextWaiter := if trail.None? then nextWaiter - {t} else SetNext(nextWaiter - {t}, trail.value, next);
      firstWaiter := if trail.None? then next else firstWaiter;
      lastWaiter := if next.None? then trail else lastWaiter;
      Waiters := Without(Waiters, p);
    }

    /** The front of `doSignal`'s loop: `firstWaiter = first.nextWaiter`
        (and `lastWaiter = null` when that is null), then `first.nextWaiter
        = null`. */
    method PopWaiter(f: NodeId, ghost w0: seq<NodeId>, ghost i: nat)
      requires Listed() && InArena(Waiters, sync.nodes) && firstWaiter == Some(f)
      requires i < |w0| && Waiters == w0[i..]
      modifies this`firstWaiter, this`lastWaiter, this`nextWaiter, this`Waiters
      ensures Listed() && InArena(Waiters, sync.nodes)
      ensures f == w0[i] && f < |sync.nodes| && Waiters == w0[i + 1..] && (firstWaiter.None? <==> i + 1 == |w0|)
    {
      PopFront(Waiters, nextWaiter, firstWaiter, lastWaiter);
      var next := NextOf(nextWaiter, f);
      firstWaiter := next;
      lastWaiter := if next.None? then None else lastWaiter;
      nextWaiter := nextWaiter - {f};
      Waiters := Waiters[1..];
    }

    /** The `transferForSignal(first)` of a `doSignal` round, on the waiter
        `f` at position `i` of the original list `w0`. */
    method TransferFirst(f: NodeId, ghost w0: seq<NodeId>, ghost q0: seq<NodeId>, ghost n0: seq<Node>, ghost i: nat)
        returns (transferred: bool, woken: Option<NodeId>)
      requires sync.Valid() && sync.nodes == n0 && sync.Queue == q0
      requires i < |w0| && f == w0[i] && f < |n0| && forall j :: 0 <= j < i ==> !IsWaiting(n0, w0[j])
      modifies sync`head, sync`tail, sync`nodes, sync`Queue
      ensures sync.Valid() && |n0| <= |sync.nodes|
      ensures transferred || i + 1 == |w0| ==> SignalledFirst(w0, q0, n0, w0[i + 1..], sync.Queue, sync.nodes)
      ensures transferred ==> SignalIndex(w0, n0) == i && woken == if TailCancelled(q0, n0) then Some(w0[i]) else None
      ensures !transferred ==>
                && woken.None? && sync.nodes == n0 && sync.Queue == q0
                && sync.head == old(sync.head) && sync.tail == old(sync.tail)
                && forall j :: 0 <= j <= i ==> !IsWaiting(n0, w0[j])
    {
      transferred, woken := sync.TransferForSignal(f);
      RoundOutcome(w0, q0, n0, i, transferred, woken, sync.Queue, sync.nodes);
    }

    /** One round of `doSignal`'s loop: `firstWaiter = first.nextWaiter`
        (and `lastWaiter = null` when that is null), `first.nextWaiter =
        null`, then `transferForSignal(first)`. */
    method SignalRound(f: NodeId, ghost w0: seq<NodeId>, ghost q0: seq<NodeId>, ghost n0: seq<Node>, ghost i: nat)
        returns (transferred: bool, woken: Option<NodeId>)
      requires Valid() && firstWaiter == Some(f)
      requires sync.nodes == n0 && sync.Queue == q0
      requires i < |w0| && Waiters == w0[i..] && forall j :: 0 <= j < i ==> !IsWaiting(n0, w0[j])
      modifies this`firstWaiter, this`lastWaiter, this`nextWaiter, this`Waiters,
               sync`head, sync`tail, sync`nodes, sync`Queue
      ensures Valid()
      ensures transferred || firstWaiter.None? ==> SignalledFirst(w0, q0, n0, Waiters, sync.Queue, sync.nodes)
      ensures transferred ==> SignalIndex(w0, n0) == i && woken == if TailCancelled(q0, n0) then Some(w0[i]) else None
      ensures !transferred ==>
                && woken.None? && sync.nodes == n0 && sync.Queue == q0
                && sync.head == old(sync.head) && sync.tail == old(sync.tail)
                && Waiters == w0[i + 1..] && forall j :: 0 <= j <= i ==> !IsWaiting(n0, w0[j])
    {
      PopWaiter(f, w0, i);
      transferred, woken := TransferFirst(f, w0, q0, n0, i);
      InArenaGrow(Waiters, n0, sync.nodes);
    }

    /** `doSignal(first)`: pops waiters off the front until one is
        transferred to the sync queue or the list runs out. */
    method DoSignal(first: NodeId) returns (woken: Option<NodeId>)
      requires Valid() && firstWaiter == Some(first)
      modifies this`firstWaiter, this`lastWaiter, this`nextWaiter, this`Waiters,
               sync`head, sync`tail, sync`nodes, sync`Queue
      ensures Valid()
      ensures SignalledFirst(old(Waiters), old(sync.Queue), old(sync.nodes), Waiters, sync.Queue, sync.nodes)
      ensures var k := SignalIndex(old(Waiters), old(sync.nodes));
              woken == if k < |old(Waiters)| && TailCancelled(old(sync.Queue), old(sync.nodes))
                       then Some(old(Waiters)[k]) else None
    {
      ghost var w0, q0, n0 := Waiters, sync.Queue, sync.nodes;
      ghost var h0, t0 := sync.head, sync.tail;
      ghost var i := 0;
      var f := first;
      while true
        invariant Listed() && InArena(Waiters, sync.nodes)
        invariant sync.nodes == n0 && sync.Queue == q0 && sync.head == h0 && sync.tail == t0
        invariant i < |w0| && Waiters == w0[i..] && firstWaiter == Some(f)
        invariant forall j :: 0 <= j < i ==> !IsWaiting(n0, w0[j])
        decreases |w0| - i
      {
        var transferred;
        transferred, woken := SignalRound(f, w0, q0, n0, i);
        if transferred || firstWaiter.None? {
          return;
        }
        f := firstWaiter.value;
        i := i + 1;
      }
    }

    /** The end of `addConditionWaiter()`: the new node follows the last
        waiter (`t.nextWaiter = node`, or `firstWaiter = node` on an empty
        list) and becomes `lastWaiter`. */
    method LinkWaiter(node: NodeId)
      requires Listed() && InArena(Waiters, sync.nodes) && node < |sync.nodes| && node !in Waiters
      modifies this`firstWaiter, this`lastWaiter, this`nextWaiter, this`Waiters
      ensures Listed() && InArena(Waiters, sync.nodes) && Waiters == old(Waiters) + [node]
    {
      LinkedAppend(Waiters, nextWaiter, node);
      if lastWaiter.None? {
        firstWaiter := Some(node);
      } else {
        nextWaiter := nextWaiter[lastWaiter.value := node];
      }
      lastWaiter := Some(node);
      Waiters := Waiters + [node];
    }

    /** `addConditionWaiter()` for the thread `current`: when the last
        waiter no longer waits the list is purged first; then a fresh
        CONDITION node for `current` is appended. */
    method AddConditionWaiter(current: ThreadId) returns (node: NodeId)
      requires Valid()
      modifies this`firstWaiter, this`lastWaiter, this`nextWaiter, this`Waiters, sync`nodes
      ensures Valid()
      ensures node == |old(sync.nodes)| && sync.nodes == old(sync.nodes) + [NewNode(Some(current), CONDITION)]
      ensures Waiters == (if old(lastWaiter).Some? && !IsWaiting(old(sync.nodes), old(lastWaiter).value)
                          then Survivors(old(Waiters), old(sync.nodes)) else old(Waiters)) + [node]
      ensures Survivors(Waiters, sync.nodes) == Survivors(old(Waiters), old(sync.nodes)) + [node]
    {
      var t := lastWaiter;
      if t.Some? && sync.nodes[t.value].waitStatus != CONDITION {
        UnlinkCancelledWaiters();
        t := lastWaiter;
      }
      ghost var w1, n1 := Waiters, sync.nodes;
      node := sync.NewConditionNode(current);
      InArenaGrow(w1, n1, sync.nodes);
      LinkWaiter(node);
      assert sync.nodes[..|n1|] == n1;
      AddedSurvivors(old(Waiters), n1, w1, sync.nodes, node);
    }

    /** The list side of `doSignalAll`'s loop before position `i` of the
        original list `w`: the list is emptied, and its nodes from `i` on
        are still threaded through `nextWaiter`. */
    ghost predicate Threaded(w: seq<NodeId>, i: nat)
      reads this
    {
      firstWaiter.None? && lastWaiter.None? && Waiters == [] && i <= |w| && Linked(w[i..], nextWaiter)
    }

    /** The sync-queue side of `doSignalAll`'s loop before position `i` of
        the original list `w0`: the survivors before `i` were moved, in
        order, behind the sync queue `q0` of the arena `n0`; no waiter
        before `i` waits any more, and those from `i` on wait as they did. */
    ghost predicate Transferred(w0: seq<NodeId>, q0: seq<NodeId>, n0: seq<Node>, i: nat)
      reads sync
    {
      && sync.Valid() && i <= |w0|
      && InArena(q0, n0) && InArena(SurvivorsBefore(w0, i, n0), n0)
      && sync.Queue == Enqueued(q0, |n0|, SurvivorsBefore(w0, i, n0))
      && sync.nodes == SignalledAllArena(q0, n0, SurvivorsBefore(w0, i, n0))
      && (forall j :: 0 <= j < i ==> !IsWaiting(sync.nodes, w0[j]))
      && (forall j :: i <= j < |w0| ==> (IsWaiting(sync.nodes, w0[j]) <==> IsWaiting(n0, w0[j])))
    }

    /** `lastWaiter = firstWaiter = null`, the start of `doSignalAll`: the
        list it held, `w`, stays threaded through `nextWaiter`. */
    method ClearList() returns (ghost w: seq<NodeId>)
      requires Valid() && firstWaiter.Some?
      modifies this`firstWaiter, this`lastWaiter, this`Waiters
      ensures firstWaiter.None? && lastWaiter.None? && Waiters == []
      ensures w == old(Waiters) && w != [] && old(firstWaiter) == Some(w[0])
      ensures Threaded(w, 0) && Distinct(w) && InArena(w, sync.nodes)
    {
      w := Waiters;
      LinkedDistinct(w, nextWaiter);
      assert w[0..] == w;
      lastWaiter, firstWaiter := None, None;
      Waiters := [];
    }

    /** Before the first round of `doSignalAll`, nothing was transferred. */
    lemma NothingTransferred(w0: seq<NodeId>)
      requires sync.Valid()
      ensures Transferred(w0, sync.Queue, sync.nodes, 0)
    {
    }

    /** The front of `doSignalAll`'s loop: `next = first.nextWaiter`, then
        `first.nextWaiter = null`; the rest of the list stays threaded. */
    method Detach(f: NodeId, ghost w: seq<NodeId>, ghost i: nat) returns (next: Option<NodeId>)
      requires i < |w| && w[i] == f && Threaded(w, i)
      modifies this`nextWaiter
      ensures Threaded(w, i + 1) && next == if i + 1 < |w| then Some(w[i + 1]) else None
      ensures next.None? ==> Linked([], nextWaiter)
    {
      LinkAt(w[i..], nextWaiter, 0);
      PopFront(w[i..], nextWaiter, FirstOf(w[i..]), LastOf(w[i..]));
      assert w[i..][1..] == w[i + 1..];
      next := NextOf(nextWaiter, f);
      nextWaiter := nextWaiter - {f};
      assert next.None? ==> w[i + 1..] == [];
    }

    /** The `transferForSignal(first)` of one round of `doSignalAll`, on
        the waiter at position `i` of the original list `w0`. */
    method TransferRound(f: NodeId, ghost w0: seq<NodeId>, ghost q0: seq<NodeId>, ghost n0: seq<Node>, ghost i: nat)
      requires InArena(w0, n0) && Distinct(w0) && i < |w0| && f == w0[i] && Transferred(w0, q0, n0, i)
      modifies sync`head, sync`tail, sync`nodes, sync`Queue
      ensures Transferred(w0, q0, n0, i + 1)
    {
      ghost var q, nodes := sync.Queue, sync.nodes;
      QueuedNotWaiting(q, nodes, sync.head, sync.tail);
      var transferred, _ := sync.TransferForSignal(f);
      QueuedNotWaiting(sync.Queue, sync.nodes, sync.head, sync.tail);
      SignalAllStep(w0, q0, n0, i, q, nodes, transferred, sync.Queue, sync.nodes);
      SignalledAllSnoc(q0, n0, SurvivorsBefore(w0, i, n0), f, transferred, SurvivorsBefore(w0, i + 1, n0),
                       nodes, sync.nodes);

    }

    /** One pass of `doSignalAll`'s loop on the waiter `f` at position `i`:
        detach it, transfer it, and either go on with the next waiter or,
        at the end of the list, have signalled them all. */
    method SignalAllRound(f: NodeId, ghost w0: seq<NodeId>, ghost q0: seq<NodeId>, ghost n0: seq<Node>, ghost i: nat)
      returns (next: Option<NodeId>)
      requires InArena(w0, n0) && Distinct(w0) && i < |w0| && f == w0[i]
      requires Threaded(w0, i) && Transferred(w0, q0, n0, i)
      modifies this`nextWaiter, sync`head, sync`tail, sync`nodes, sync`Queue
      ensures next.Some? ==> i + 1 < |w0| && next.value == w0[i + 1]
      ensures next.Some? ==> Threaded(w0, i + 1) && Transferred(w0, q0, n0, i + 1)
      ensures next.None? ==> Valid() && SignalledAll(w0, q0, n0, Waiters, sync.Queue, sync.nodes)
    {
      next := Detach(f, w0, i);
      TransferRound(f, w0, q0, n0, i);
      if next.None? {
        SignalledAllDone(w0, q0, n0, i + 1, sync.Queue, sync.nodes);
      }
    }

    /** `doSignalAll(first)`: empties the list (`lastWaiter = firstWaiter =
        null`), then transfers every node on it that still waits. */
    method DoSignalAll(first: NodeId)
      requires Valid() && firstWaiter == Some(first)
      modifies this`firstWaiter, this`lastWaiter, this`nextWaiter, this`Waiters,
               sync`head, sync`tail, sync`nodes, sync`Queue
      ensures Valid()
      ensures SignalledAll(old(Waiters), old(sync.Queue), old(sync.nodes), Waiters, sync.Queue, sync.nodes)
    {
      ghost var q0, n0 := sync.Queue, sync.nodes;
      ghost var w0 := ClearList();
      NothingTransferred(w0);
      ghost var i := 0;
      var f := first;
      while true
        invariant i < |w0| && f == w0[i] && Threaded(w0, i) && Transferred(w0, q0, n0, i)
        decreases |w0| - i
      {
        var next := SignalAllRound(f, w0, q0, n0, i);
        if next.None? {
          return;
        }
        f := next.value;
        i := i + 1;
      }
    }

    /** `signal()` by the thread `current`: only the lock's owner may
        signal; the first waiter that still waits moves to the sync queue.
        The result carries the node whose thread was unparked, if any. */
    method Signal(current: ThreadId) returns (r: Result<Option<NodeId>>)
      requires Valid()
      modifies this`firstWaiter, this`lastWaiter, this`nextWaiter, this`Waiters,
               sync`head, sync`tail, sync`nodes, sync`Queue
      ensures Valid()
      ensures r.Err? <==> !HoldCount.IsHeldExclusively(sync.Hold(), current)
      ensures r.Err? ==> r.failure == IllegalMonitorState && unchanged(this, sync)
      ensures r.Ok? ==> SignalledFirst(old(Waiters), old(sync.Queue), old(sync.nodes), Waiters, sync.Queue, sync.nodes)
      ensures r.Ok? ==> r.value == if TailCancelled(old(sync.Queue), old(sync.nodes))
                                   then FirstOf(Survivors(old(Waiters), old(sync.nodes))) else None
    {
      if !HoldCount.IsHeldExclusively(sync.Hold(), current) {
        return Err(IllegalMonitorState);
      }
      var first := firstWaiter;
      if first.Some? {
        SignalIndexIsFirstSurvivor(Waiters, sync.nodes);
        var woken := DoSignal(first.value);
        return Ok(woken);
      }
      TransferredNone(Waiters, sync.Queue, sync.nodes);
      return Ok(None);
    }

    /** `signalAll()` by the thread `current`: only the lock's owner may
        signal; every waiter that still waits moves to the sync queue. */
    method SignalAll(current: ThreadId) returns (r: Result<()>)
      requires Valid()
      modifies this`firstWaiter, this`lastWaiter, this`nextWaiter, this`Waiters,
               sync`head, sync`tail, sync`nodes, sync`Queue
      ensures Valid()
      ensures r.Err? <==> !HoldCount.IsHeldExclusively(sync.Hold(), current)
      ensures r.Err? ==> r.failure == IllegalMonitorState && unchanged(this, sync)
      ensures r.Ok? ==> SignalledAll(old(Waiters), old(sync.Queue), old(sync.nodes), Waiters, sync.Queue, sync.nodes)
    {
      if !HoldCount.IsHeldExclusively(sync.Hold(), current) {
        return Err(IllegalMonitorState);
      }
      var first := firstWaiter;
      if first.Some? {
        DoSignalAll(first.value);
      }
      return Ok(());
    }

    /** `hasWaiters()` by the thread `current`: whether some node on the
        list still waits; only the lock's owner may ask. */
    method HasWaiters(current: ThreadId) returns (r: Result<bool>)
      requires Valid()
      ensures r.Err? <==> !HoldCount.IsHeldExclusively(sync.Hold(), current)
      ensures r.Err? ==> r.failure == IllegalMonitorState
      ensures r.Ok? ==> (r.value <==> Survivors(Waiters, sync.nodes) != [])
    {
      if !HoldCount.IsHeldExclusively(sync.Hold(), current) {
        return Err(IllegalMonitorState);
      }
      ghost var p := 0;
      var w := firstWaiter;
      while w.Some?
        invariant p <= |Waiters| && w == (if p < |Waiters| then Some(Waiters[p]) else None)
        invariant SurvivorsBefore(Waiters, p, sync.nodes) == []
        decreases |Waiters| - p
      {
        LinkAt(Waiters, nextWaiter, p);
        if sync.nodes[w.value].waitStatus == CONDITION {
          SurvivorsBeforeFront(Waiters, p, |Waiters|, sync.nodes);
          return Ok(true);
        }
        w := NextOf(nextWaiter, w.value);
        p := p + 1;
      }
      return Ok(false);
    }

    /** `getWaitQueueLength()` by the thread `current`: how many nodes on
        the list still wait; only the lock's owner may ask. */
    method GetWaitQueueLength(current: ThreadId) returns (r: Result<int>)
      requires Valid()
      ensures r.Err? <==> !HoldCount.IsHeldExclusively(sync.Hold(), current)
      ensures r.Err? ==> r.failure == IllegalMonitorState
      ensures r.Ok? ==> r.value == |Survivors(Waiters, sync.nodes)|
    {
      if !HoldCount.IsHeldExclusively(sync.Hold(), current) {
        return Err(IllegalMonitorState);
      }
      ghost var p := 0;
      var n := 0;
      var w := firstWaiter;
      while w.Some?
        invariant p <= |Waiters| && w == (if p < |Waiters| then Some(Waiters[p]) else None)
        invariant n == |SurvivorsBefore(Waiters, p, sync.nodes)|
        decreases |Waiters| - p
      {
        LinkAt(Waiters, nextWaiter, p);
        if sync.nodes[w.value].waitStatus == CONDITION {
          n := n + 1;
        }
        w := NextOf(nextWaiter, w.value);
        p := p + 1;
      }
      return Ok(n);
    }

    /** `checkInterruptWhileWaiting(node)`, `interrupted` being what
        `Thread.interrupted()` answered: 0 when not interrupted; otherwise
        `transferAfterCancelledWait` decides between THROW_IE (the node
        still waited, and now sits on the sync queue) and REINTERRUPT. */
    method CheckInterruptWhileWaiting(node: NodeId, interrupted: bool) returns (mode: int)
      requires Valid() && node < |sync.nodes|
      modifies sync`head, sync`tail, sync`nodes, sync`Queue
      ensures Valid()
      ensures mode == InterruptMode(interrupted, old(sync.nodes)[node].waitStatus == CONDITION)
      ensures mode != THROW_IE ==>
                sync.nodes == old(sync.nodes) && sync.Queue == old(sync.Queue) &&
                sync.head == old(sync.head) && sync.tail == old(sync.tail)
      ensures mode == THROW_IE ==>
                && sync.Queue == (if old(sync.Queue) == [] then [|old(sync.nodes)|] else old(sync.Queue)) + [node]
                && sync.nodes == EnqueuedArena(old(sync.Queue), old(sync.nodes), node)
    {
      if !interrupted {
        return 0;
      }
      ghost var n0 := sync.nodes;
      var cancelledFirst := sync.TransferAfterCancelledWait(node);
      InArenaGrow(Waiters, n0, sync.nodes);
      if cancelledFirst {
        EndsWith(sync.Queue, if old(sync.Queue) == [] then [|n0|] else old(sync.Queue), node);
        mode := THROW_IE;
      } else {
        mode := REINTERRUPT;
      }
    }

    /** `isOwnedBy(sync)`: whether this condition was made by `s`. */
    predicate IsOwnedBy(s: Aqs.Synchronizer)
    {
      s == sync
    }

    /** A condition is owned by the synchronizer that made it and by no
        other. */
    lemma OwnedOnlyBySync(s: Aqs.Synchronizer)
      ensures IsOwnedBy(sync)
      ensures s != sync ==> !IsOwnedBy(s)
    {
    }
  }

  /** `owns(condition)` of the synchronizer `s`. */
  predicate Owns(s: Aqs.Synchronizer, condition: ConditionObject)
  {
    condition.IsOwnedBy(s)
  }

  /** Every condition is owned by exactly one synchronizer, the one it
      belongs to. */
  lemma OwnerUnique(s: Aqs.Synchronizer, s': Aqs.Synchronizer, condition: ConditionObject)
    ensures Owns(condition.sync, condition)
    ensures Owns(s, condition) && Owns(s', condition) ==> s == s'
  {
  }

  /** `hasWaiters(condition)` of the synchronizer `s` by the thread
      `current`: refused for a condition of another synchronizer. */
  method HasWaitersOn(s: Aqs.Synchronizer, condition: ConditionObject, current: ThreadId) returns (r: Result<bool>)
    requires condition.Valid()
    ensures !Owns(s, condition) ==> r == Err(NotOwner)
    ensures Owns(s, condition) ==>
              && (r.Err? <==> !HoldCount.IsHeldExclusively(s.Hold(), current))
              && (r.Err? ==> r.failure == IllegalMonitorState)
              && (r.Ok? ==> (r.value <==> Survivors(condition.Waiters, s.nodes) != []))
  {
    if !Owns(s, condition) {
      return Err(NotOwner);
    }
    r := condition.HasWaiters(current);
  }

  /** `getWaitQueueLength(condition)` of the synchronizer `s` by the
      thread `current`: refused for a condition of another synchronizer. */
  method GetWaitQueueLengthOn(s: Aqs.Synchronizer, condition: ConditionObject, current: ThreadId) returns (r: Result<int>)
    requires condition.Valid()
    ensures !Owns(s, condition) ==> r == Err(NotOwner)
    ensures Owns(s, condition) ==>
              && (r.Err? <==> !HoldCount.IsHeldExclusively(s.Hold(), current))
              && (r.Err? ==> r.failure == IllegalMonitorState)
              && (r.Ok? ==> r.value == |Survivors(condition.Waiters, s.nodes)|)
  {
    if !Owns(s, condition) {
      return Err(NotOwner);
    }
    r := condition.GetWaitQueueLength(current);
  }
}
