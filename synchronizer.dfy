/** NyaAbstractQueuedSynchronized in exclusive mode, with the tryAcquire /
    tryRelease hooks of NyaReentrantLock's Sync, FairSync and NonfairSync
    (selected by `fair`). Nodes live in the arena `nodes`; `Queue` is the
    sync queue that the `prev` links spell out, from the head to the tail.
    Every method is one atomic step of a single thread, so a
    compare-and-set succeeds exactly when the field holds the expected value. */
module Aqs {
  import opened Base
  import opened WaitQueue
  import HoldCount

  /** How a run of `acquireQueued` ends: the lock is held, the thread parks
      behind a SIGNAL predecessor, or `tryAcquire` threw (`woken` is the
      node whose thread `cancelAcquire` then unparked, if any). */
  datatype Outcome =
    | Acquired
    | Parked(node: NodeId)
    | Failed(failure: Failure, woken: Option<NodeId>)

  /** Where a thread that joined the queue `q0` (over `n0`) ends up when it
      takes the lock from the queue: its node `|n0|` is the only node, a
      blank head, because every old waiter had cancelled; besides it only
      the old head and the old tail changed. */
  ghost predicate AcquiredAfterJoin(q0: seq<NodeId>, n0: seq<Node>, q: seq<NodeId>, n: seq<Node>) {
    && q == [|n0|] && |n0| < |n| && n[|n0|] == NewNode(None, 0)
    && (forall j :: 1 <= j < |q0| ==> q0[j] < |n0| && n0[q0[j]].waitStatus > 0)
    && KeptOutside(HeadPart(q0) + TailPart(q0), n0, n)
  }

  /** Where a thread `t` that joined the queue `q0` (over `n0`) as `x` ends
      up when it parks: after a prefix of `q0` (of the fresh sentinel
      `|n0| + 1` when `q0` was empty), the rest of `q0` having cancelled; its
      node links back to its new predecessor, and besides the two only the
      old tail changed. */
  ghost predicate ParkedAfterJoin(q0: seq<NodeId>, n0: seq<Node>, q: seq<NodeId>, n: seq<Node>, x: NodeId, t: Option<ThreadId>) {
    var base := if q0 == [] then [|n0| + 1] else q0;
    && 2 <= |q| <= |base| + 1 && q == base[..|q| - 1] + [x]
    && (forall j :: |q| - 1 <= j < |q0| ==> q0[j] < |n0| && n0[q0[j]].waitStatus > 0)
    && x < |n| && n[x] == NewNode(t, 0).(prev := Some(q[|q| - 2]))
    && KeptOutside(TailPart(q0) + [q[|q| - 2]], n0, n)
  }

  class Synchronizer {
    /** FairSync (true) or NonfairSync (false). */
    const fair: bool
    var state: int
    /** The exclusive owner thread kept by AbstractOwnableSynchronizer. */
    var owner: Option<ThreadId>
    var head: Option<NodeId>
    var tail: Option<NodeId>
    var nodes: seq<Node>
    ghost var Queue: seq<NodeId>

    ghost predicate Valid()
      reads this
    {
      IsInt(state) && SyncOk(Queue, nodes, head, tail)
    }

    /** The lock word that the hooks read and write. */
    function Hold(): HoldCount.Hold
      reads this
    {
      HoldCount.Hold(state, owner)
    }

    /** A free synchronizer with no queue and no nodes. */
    constructor (fair: bool)
      ensures Valid() && this.fair == fair
      ensures Hold() == HoldCount.Free && head.None? && tail.None? && nodes == [] && Queue == []
    {
      this.fair := fair;
      state := 0;
      owner := None;
      head := None;
      tail := None;
      nodes := [];
      Queue := [];
    }

    /** `compareAndSetState(expect, update)`. */
    method CompareAndSetState(expected: int, update: int) returns (ok: bool)
      requires Valid() && IsInt(update)
      modifies this`state
      ensures Valid()
      ensures ok <==> old(state) == expected
      ensures state == if ok then update else old(state)
    {
      ok := state == expected;
      if ok {
        state := update;
      }
    }

    /** `Sync.nonfairTryAcquire(acquires)`: the lock word moves as the
        `HoldCount.NonfairTryAcquire` state machine says. */
    method NonfairTryAcquire(current: ThreadId, acquires: int) returns (r: Result<bool>)
      requires Valid() && IsInt(acquires)
      modifies this`state, this`owner
      ensures Valid()
      ensures var s := HoldCount.NonfairTryAcquire(old(Hold()), current, acquires);
              r == s.result && Hold() == s.after
    {
      var c := state;
      if c == 0 {
        var ok := CompareAndSetState(0, acquires);
        if ok {
          owner := Some(current);
          return Ok(true);
        }
      } else if owner == Some(current) {
        var nextc := Wrap(c + acquires);
        if nextc < 0 {
          return Err(MaximumLockCountExceeded);
        }
        state := nextc;
        return Ok(true);
      }
      return Ok(false);
    }

    /** `FairSync.tryAcquire(acquires)`: like the non-fair hook, except that a
        free lock is refused while `hasQueuedPredecessors()` holds. */
    method FairTryAcquire(current: ThreadId, acquires: int) returns (r: Result<bool>)
      requires Valid() && IsInt(acquires)
      modifies this`state, this`owner
      ensures Valid()
      ensures var s := HoldCount.FairTryAcquire(old(Hold()), current, acquires, HasQueuedPredecessors(current));
              r == s.result && Hold() == s.after
    {
      var c := state;
      if c == 0 {
        if !HasQueuedPredecessors(current) {
          var ok := CompareAndSetState(0, acquires);
          if ok {
            owner := Some(current);
            return Ok(true);
          }
        }
      } else if owner == Some(current) {
        var nextc := Wrap(c + acquires);
        if nextc < 0 {
          return Err(MaximumLockCountExceeded);
        }
        state := nextc;
        return Ok(true);
      }
      return Ok(false);
    }

    /** What `tryAcquire(arg)` by `current` does to the lock word under
        this synchronizer's policy. */
    ghost function TryAcquireStep(current: ThreadId, arg: int): HoldCount.Step
      requires Valid() && IsInt(arg)
      reads this
    {
      if fair then HoldCount.FairTryAcquire(Hold(), current, arg, HasQueuedPredecessors(current))
      else HoldCount.NonfairTryAcquire(Hold(), current, arg)
    }

    /** `tryAcquire(arg)` as overridden by FairSync or NonfairSync. */
    method TryAcquire(current: ThreadId, arg: int) returns (r: Result<bool>)
      requires Valid() && IsInt(arg)
      modifies this`state, this`owner
      ensures Valid()
      ensures r == old(TryAcquireStep(current, arg)).result && Hold() == old(TryAcquireStep(current, arg)).after
      // the caller owns the lock after a success; a refusal or a throw changes nothing,
      // and only the owner's reentrant acquire can throw
      ensures r == Ok(true) ==> owner == Some(current)
      ensures r != Ok(true) ==> Hold() == old(Hold())
      ensures r.Err? ==> r.failure == MaximumLockCountExceeded && old(owner) == Some(current) && old(state) != 0
    {
      if fair {
        r := FairTryAcquire(current, arg);
      } else {
        r := NonfairTryAcquire(current, arg);
      }
    }

    /** `Sync.tryRelease(releases)`. */
    method TryRelease(current: ThreadId, releases: int) returns (r: Result<bool>)
      requires Valid() && IsInt(releases)
      modifies this`state, this`owner
      ensures Valid()
      ensures var s := HoldCount.TryRelease(old(Hold()), current, releases);
              r == s.result && Hold() == s.after
    {
      var c := Wrap(state - releases);
      if owner != Some(current) {
        return Err(IllegalMonitorState);
      }
      var free := false;
      if c == 0 {
        free := true;
        owner := None;
      }
      state := c;
      return Ok(free);
    }

    /** `hasQueuedThreads()`: some node waits behind the head. */
    function HasQueuedThreads(): (r: bool)
      requires Valid()
      reads this
      ensures r <==> |Queue| >= 2
    {
      head != tail
    }

    /** `hasQueuedPredecessors()` asked by `current`: the queue holds more
        than the head and the head's `next` is unknown or another thread's. */
    function HasQueuedPredecessors(current: ThreadId): (r: bool)
      requires Valid()
      reads this
      ensures |Queue| <= 1 ==> !r
    {
      head != tail &&
      var s := nodes[head.value].next;
      s.None? || nodes[s.value].thread != Some(current)
    }

    /** Fairness: when `hasQueuedPredecessors()` is false, no waiter of
        another thread is ahead of `current` — the first waiter that has not
        cancelled, if any, is `current`'s own node. */
    lemma NoPredecessorAhead(current: ThreadId)
      requires Valid() && !HasQueuedPredecessors(current)
      ensures Queue != [] ==>
                var first := FirstLive(Queue, nodes, 1);
                first.None? || nodes[first.value].thread == Some(current)
    {
      if |Queue| >= 2 {
        var s := nodes[Queue[0]].next;
        assert NextOk(Queue, nodes, 0);
        assert s.Some? && nodes[s.value].thread == Some(current);
        assert !Dead(nodes, s.value);
        var j :| 0 < j < |Queue| && Queue[j] == s.value && CancelledBetween(Queue, nodes, 1, j);
        assert nodes[Queue[j]].waitStatus <= 0;
        FirstLiveIndexUnique(Queue, nodes, 1, j);
      }
    }
  
    /** `compareAndSetWaitStatus(node, expected, update)`, for a change of
        status that the queue invariant allows. */
    method CompareAndSetWaitStatus(node: NodeId, expected: int, update: int) returns (ok: bool)
      requires Valid() && node < |nodes|
      requires nodes[node].waitStatus == expected ==>
                 UpdateOk(Queue, nodes, node, nodes[node].(waitStatus := update), 0)
      modifies this`nodes
      ensures Valid()
      ensures ok <==> old(nodes)[node].waitStatus == expected
      ensures nodes == if ok then old(nodes)[node := old(nodes)[node].(waitStatus := update)] else old(nodes)
    {
      ok := nodes[node].waitStatus == expected;
      if ok {
        UpdateKeeps(Queue, nodes, head, tail, node, nodes[node].(waitStatus := update), 0);
        nodes := nodes[node := nodes[node].(waitStatus := update)];
      }
    }

    /** A node that `enq` can link after the tail: allocated, off the sync
        queue, with status 0, a waiting thread and no `next`. */
    ghost predicate Enqueueable(node: NodeId)
      reads this
    {
      node < |nodes| && node !in Queue &&
      nodes[node].waitStatus == 0 && nodes[node].thread.Some? && nodes[node].next.None?
    }

    /** The step that `addWaiter` and `enq` share once a tail exists:
        `node.prev = t; compareAndSetTail(t, node)`, and on success
        `t.next = node`. Returns the old tail. */
    method LinkAfterTail(node: NodeId) returns (pred: NodeId)
      requires Valid() && Enqueueable(node) && tail.Some?
      modifies this`tail, this`nodes, this`Queue
      ensures Valid()
      ensures Queue == old(Queue) + [node] && Some(pred) == old(tail) && tail == Some(node)
      ensures nodes == Appended(old(Queue), old(nodes), node)
      ensures OthersKept(old(Queue), old(nodes), nodes, node)
    {
      var t := tail;
      ghost var nodes0 := nodes;
      nodes := nodes[node := nodes[node].(prev := t)];
      if tail == t {
        // compareAndSetTail(t, node) succeeded
        tail := Some(node);
        nodes := nodes[t.value := nodes[t.value].(next := Some(node))];
        AppendKeeps(Queue, nodes0, head, t, node);
        Queue := Queue + [node];
      }
      pred := t.value;
    }

    /** `enq(node)`: on an empty queue first installs a fresh sentinel as
        head and tail, then links `node` after the tail. Returns the node's
        predecessor (the old tail, or the new sentinel). */
    method Enq(node: NodeId) returns (pred: NodeId)
      requires Valid() && Enqueueable(node)
      modifies this`head, this`tail, this`nodes, this`Queue
      ensures Valid()
      ensures Queue == (if old(Queue) == [] then [pred] else old(Queue)) + [node]
      ensures tail == Some(node) && head == Some(Queue[0])
      ensures |Queue| >= 2 && Queue[|Queue| - 2] == pred && Queue[|Queue| - 1] == node
      ensures |nodes| >= |old(nodes)| && nodes[node] == old(nodes)[node].(prev := Some(pred))
      ensures old(Queue) != [] ==> Some(pred) == old(tail) && nodes == Appended(old(Queue), old(nodes), node)
      ensures old(Queue) == [] ==>
                pred == |old(nodes)| && nodes == Appended([pred], old(nodes) + [NewNode(None, 0)], node)
      ensures OthersKept(old(Queue), old(nodes), nodes, node)
    {
      while true
        invariant Valid() && Enqueueable(node)
        invariant old(Queue) != [] ==> Queue == old(Queue) && nodes == old(nodes)
        invariant old(Queue) == [] && tail.None? ==> Queue == [] && nodes == old(nodes)
        invariant old(Queue) == [] && tail.Some? ==>
                    Queue == [|old(nodes)|] && nodes == old(nodes) + [NewNode(None, 0)]
        decreases if tail.None? then 1 else 0
      {
        var t := tail;
        if t.None? {
          InstallHead();
        } else {
          pred := LinkAfterTail(node);
          return;
        }
      }
    }

    /** The round of `enq` that finds no tail: `compareAndSetHead(new Node())`,
        which succeeds because the head is null whenever the tail is, then
        `tail = head`. */
    method InstallHead()
      requires Valid() && tail.None?
      modifies this`head, this`tail, this`nodes, this`Queue
      ensures Valid()
      ensures Queue == [|old(nodes)|] && nodes == old(nodes) + [NewNode(None, 0)] && tail.Some?
      ensures forall n :: 0 <= n < |old(nodes)| ==> nodes[n] == old(nodes)[n]
    {
      var h := |nodes|;
      InitKeeps(nodes);
      nodes := nodes + [NewNode(None, 0)];
      head := Some(h);
      tail := head;
      Queue := [h];
    }

    /** `addWaiter(Node.EXCLUSIVE)` by `current`: a fresh node for the
        caller, linked after the tail (through `enq` when there is no tail). */
    method AddWaiter(current: ThreadId) returns (node: NodeId)
      requires Valid()
      modifies this`head, this`tail, this`nodes, this`Queue
      ensures Valid()
      ensures node == |old(nodes)| && node < |nodes|
      ensures nodes[node].thread == Some(current) && nodes[node].waitStatus == 0
      ensures Queue == (if old(Queue) == [] then [node + 1] else old(Queue)) + [node]
      ensures tail == Some(node) && nodes[node].prev == Some(Queue[|Queue| - 2])
      ensures nodes[Queue[|Queue| - 2]].next == Some(node)
      ensures old(Queue) != [] ==> nodes == Appended(old(Queue), old(nodes) + [NewNode(Some(current), 0)], node)
      ensures old(Queue) == [] ==>
                nodes == Appended([node + 1], old(nodes) + [NewNode(Some(current), 0)] + [NewNode(None, 0)], node)
    {
      node := |nodes|;
      AllocKeeps(Queue, nodes, head, tail, NewNode(Some(current), 0));
      nodes := nodes + [NewNode(Some(current), 0)];
      var pred := tail;
      ghost var q1, n1 := Queue, nodes;
      if pred.Some? {
        var p := LinkAfterTail(node);
        assert Queue[|Queue| - 2] == p == q1[|q1| - 1] && node != p;
        assert nodes[p].next == Some(node) && nodes[node].prev == Some(p);
      } else {
        var p := Enq(node);
        assert nodes[p].next == Some(node) && nodes[node] == n1[node].(prev := Some(p));
      }
    }

    /** `unparkSuccessor(node)`: clears a negative status of `node` and
        returns the thread's node to wake, the first live node after `node`. */
    method UnparkSuccessor(node: NodeId) returns (s: Option<NodeId>)
      requires Valid() && node in Queue
      modifies this`nodes
      ensures Valid()
      ensures var ws := old(nodes)[node].waitStatus;
              nodes == old(nodes)[node := old(nodes)[node].(waitStatus := if ws < 0 then 0 else ws)]
      ensures s == FirstLive(Queue, nodes, IndexOf(Queue, node) + 1)
    {
      var ws := nodes[node].waitStatus;
      if ws < 0 {
        var _ := CompareAndSetWaitStatus(node, ws, 0);
      } else {
        assert nodes == nodes[node := nodes[node].(waitStatus := ws)];
      }
      s := Successor(node);
    }

    /** The thread search of `unparkSuccessor`: `node.next` when that is not
        cancelled, otherwise the live node nearest to `node` found walking
        `prev` back from the tail. Either way it is the first live node
        after `node`. */
    method Successor(node: NodeId) returns (s: Option<NodeId>)
      requires Valid() && node in Queue
      ensures s == FirstLive(Queue, nodes, IndexOf(Queue, node) + 1)
    {
      s := nodes[node].next;
      if s.None? || nodes[s.value].waitStatus > 0 {
        s := ScanFromTail(Queue, nodes, tail, node);
      } else {
        NextIsFirstLive(Queue, nodes, IndexOf(Queue, node));
      }
    }

    /** `setHead(node)` for the first waiter: it becomes the sentinel head,
        losing its thread and its `prev` link; the old head leaves the queue. */
    method SetHead(node: NodeId)
      requires Valid() && |Queue| >= 2 && Queue[1] == node && nodes[node].waitStatus <= 0
      modifies this`head, this`nodes, this`Queue
      ensures Valid()
      ensures Queue == old(Queue)[1..] && head == Some(node)
      ensures nodes == old(nodes)[node := old(nodes)[node].(thread := None, prev := None)]
    {
      SetHeadKeeps(Queue, nodes, head, tail);
      head := Some(node);
      nodes := nodes[node := nodes[node].(thread := None, prev := None)];
      Queue := Queue[1..];
    }

    /** The loop `node.prev = pred = pred.prev` that walks `node`'s `prev`
        link past cancelled predecessors, shared by `cancelAcquire` and
        `shouldParkAfterFailedAcquire`. Each step drops one cancelled node
        from the queue; the walk stops at the nearest live predecessor. */
    method SkipCancelledPredecessors(node: NodeId, ghost i: nat) returns (pred: NodeId, ghost j: nat)
      requires Valid() && 1 <= i < |Queue| && Queue[i] == node
      modifies this`nodes, this`Queue
      ensures Valid()
      ensures j < i && pred == old(Queue)[j] && old(nodes)[pred].waitStatus <= 0
      ensures CancelledBetween(old(Queue), old(nodes), j + 1, i)
      ensures Queue == old(Queue)[..j + 1] + old(Queue)[i..] && Queue[j] == pred && Queue[j + 1] == node
      ensures nodes == old(nodes)[node := old(nodes)[node].(prev := Some(pred))]
    {
      ghost var q0 := Queue;
      var ns;
      pred, ns, j := WalkBack(Queue, nodes, node, i);
      SkipKeeps(q0, nodes, head, tail, j, i);
      nodes := ns;
      Queue := q0[..j + 1] + q0[i..];
      assert Queue[j + 1] == node;
    }

    /** An unconditional write `n.next = v`, for a link the queue invariant
        allows (`j` is the queue position it names, when it names a live node). */
    method SetNext(n: NodeId, v: Option<NodeId>, ghost j: int)
      requires Valid() && n < |nodes| && UpdateOk(Queue, nodes, n, nodes[n].(next := v), j)
      modifies this`nodes
      ensures Valid()
      ensures nodes == old(nodes)[n := old(nodes)[n].(next := v)]
    {
      UpdateKeeps(Queue, nodes, head, tail, n, nodes[n].(next := v), j);
      nodes := nodes[n := nodes[n].(next := v)];
    }

    /** The cancelled-predecessor branch of `shouldParkAfterFailedAcquire`:
        `node.prev = pred = pred.prev` while `pred` is cancelled, then
        `pred.next = node`. Returns the node's new position. */
    method SkipAndRelink(node: NodeId, ghost i: nat) returns (ghost i': nat)
      requires Valid() && 1 <= i < |Queue| && Queue[i] == node
      modifies this`nodes, this`Queue
      ensures Valid()
      ensures 1 <= i' <= i < |old(Queue)| && i' < |Queue| && Queue[i'] == node && Queue == old(Queue)[..i'] + old(Queue)[i..]
      ensures old(nodes)[Queue[i' - 1]].waitStatus <= 0 && CancelledBetween(old(Queue), old(nodes), i', i)
      ensures var p := Queue[i' - 1];
              nodes == old(nodes)[node := old(nodes)[node].(prev := Some(p))][p := old(nodes)[p].(next := Some(node))]
      ensures Spliced(Queue, old(Queue), i', i) && NoCancellations(old(nodes), nodes)
      ensures nodes[Queue[i' - 1]].waitStatus <= 0 && nodes[node].thread == old(nodes)[node].thread
      ensures Rank(nodes[Queue[i' - 1]].waitStatus) < Rank(CANCELLED)
    {
      var p, ns, j := WalkBack(Queue, nodes, node, i);
      SkipRelinkKeeps(Queue, nodes, head, tail, j, i);
      nodes := ns[p := ns[p].(next := Some(node))];
      Queue := Queue[..j + 1] + Queue[i..];
      i' := j + 1;
      SplicedOf(Queue, old(Queue), i', i);
    }

    /** `shouldParkAfterFailedAcquire(pred, node)` for the waiter `node` at
        queue position `i`, whose predecessor is `pred`: parks exactly behind
        a SIGNAL predecessor; otherwise it skips cancelled predecessors
        (linking the live one forward to `node`) or asks a live predecessor
        for a signal. `i'` is the node's position afterwards. */
    method ShouldParkAfterFailedAcquire(pred: NodeId, node: NodeId, ghost i: nat) returns (park: bool, ghost i': nat)
      requires Valid() && 1 <= i < |Queue| && Queue[i] == node && Queue[i - 1] == pred
      modifies this`nodes, this`Queue
      ensures Valid()
      ensures park <==> old(nodes)[pred].waitStatus == SIGNAL
      ensures 1 <= i' <= i < |old(Queue)| && i' < |Queue| && Queue[i'] == node && Spliced(Queue, old(Queue), i', i)
      ensures old(nodes)[pred].waitStatus <= 0 ==> i' == i && Queue == old(Queue)
      ensures NoCancellations(old(nodes), nodes) && nodes[node].thread == old(nodes)[node].thread
      ensures park ==> nodes[Queue[i' - 1]].waitStatus == SIGNAL
      ensures !park ==> Rank(nodes[Queue[i' - 1]].waitStatus) < Rank(old(nodes)[pred].waitStatus)
      ensures CancelledBetween(old(Queue), old(nodes), i', i)
      ensures park ==> nodes == old(nodes) && WaitsForSignal(node)
      ensures var ws := old(nodes)[pred].waitStatus;
              ws <= 0 && ws != SIGNAL ==> nodes == old(nodes)[pred := old(nodes)[pred].(waitStatus := SIGNAL)]
      ensures old(nodes)[pred].waitStatus > 0 ==>
                var p := Queue[i' - 1];
                old(nodes)[p].waitStatus <= 0 && CancelledBetween(old(Queue), old(nodes), i', i) &&
                nodes == old(nodes)[node := old(nodes)[node].(prev := Some(p))][p := old(nodes)[p].(next := Some(node))]
    {
      i' := i;
      var ws := nodes[pred].waitStatus;
      if ws == SIGNAL {
        BehindSignal(pred, node, i);
        return true, i';
      }
      if ws > 0 {
        i' := SkipAndRelink(node, i);
      } else {
        AskForSignal(pred, node, i);
      }
      return false, i';
    }

    /** The first branch of `shouldParkAfterFailedAcquire`: behind a SIGNAL
        predecessor the node may park, and nothing changes. */
    method BehindSignal(pred: NodeId, node: NodeId, ghost i: nat)
      requires Valid() && 1 <= i < |Queue| && Queue[i] == node && Queue[i - 1] == pred
      requires nodes[pred].waitStatus == SIGNAL
      ensures WaitsForSignal(node) && Spliced(Queue, Queue, i, i)
    {
      SplicedOf(Queue, Queue, i, i);
      PrevLink(Queue, nodes, head, tail, i);
    }

    /** The last branch of `shouldParkAfterFailedAcquire`: a live predecessor
        that has not promised a signal yet is CASed to SIGNAL. */
    method AskForSignal(pred: NodeId, node: NodeId, ghost i: nat)
      requires Valid() && 1 <= i < |Queue| && Queue[i] == node && Queue[i - 1] == pred
      requires nodes[pred].waitStatus <= 0 && nodes[pred].waitStatus != SIGNAL
      modifies this`nodes
      ensures Valid()
      ensures nodes == old(nodes)[pred := old(nodes)[pred].(waitStatus := SIGNAL)]
      ensures NoCancellations(old(nodes), nodes) && nodes[node].thread == old(nodes)[node].thread
      ensures Rank(nodes[Queue[i - 1]].waitStatus) < Rank(old(nodes)[pred].waitStatus)
      ensures Spliced(Queue, old(Queue), i, i) && CancelledBetween(old(Queue), old(nodes), i, i)
    {
      SplicedOf(Queue, Queue, i, i);
      IndexOfUnique(Queue, i);
      var _ := CompareAndSetWaitStatus(pred, nodes[pred].waitStatus, SIGNAL);
    }

    /** `cancelAcquire(node)` for the waiter at position `i` (nothing when
        `node` is null): the node is marked CANCELLED without a thread, its
        `prev` skips to the nearest live predecessor (position `j`), and
        then either a dead tail leaves the queue, or the successor is handed
        a SIGNAL predecessor or woken. */
    method CancelAcquire(node: Option<NodeId>, ghost i: nat) returns (woken: Option<NodeId>, ghost j: nat)
      requires Valid() && (node.Some? ==> 1 <= i < |Queue| && Queue[i] == node.value)
      modifies this`tail, this`nodes, this`Queue
      ensures Valid()
      ensures node.None? ==> woken.None? && nodes == old(nodes) && Queue == old(Queue) && tail == old(tail)
      ensures node.Some? ==>
                && j < i && j < |Queue| && Queue[j] == old(Queue)[j]
                && old(nodes)[Queue[j]].waitStatus <= 0 && CancelledBetween(old(Queue), old(nodes), j + 1, i)
                && |nodes| == |old(nodes)| && nodes[node.value].waitStatus == CANCELLED && nodes[node.value].thread.None?
      ensures node.Some? && old(tail) == node ==>
                Queue == old(Queue)[..j + 1] && tail == Some(Queue[j]) && nodes[Queue[j]].next.None? && woken.None?
      ensures node.Some? && old(tail) != node ==>
                && Queue == old(Queue)[..j + 1] + old(Queue)[i..] && nodes[node.value].next == node
                && (if Some(Queue[j]) != head then woken.None? && nodes[Queue[j]].waitStatus == SIGNAL
                    else woken == FirstLive(Queue, nodes, j + 2))
      ensures node.Some? ==>
                var x, p := node.value, Queue[j];
                var n1 := old(nodes)[x := old(nodes)[x].(prev := Some(p))];
                nodes == if old(tail) == node then CancelledTail(n1, x, p)
                         else CancelledInner(n1, x, p, Some(p) != head)
    {
      if node.None? {
        return None, 0;
      }
      var pred;
      pred, j := SkipCancelledPredecessors(node.value, i);
      assert Queue[..j + 1] == old(Queue)[..j + 1];
      woken := Unsplice(node.value, pred, j);
    }

    /** The rest of `cancelAcquire` once the waiter `node` at position
        `j + 1` has been relinked to its live predecessor `pred`: read
        `predNext`, mark the node CANCELLED (clearing its thread), then
        unlink a tail node (`compareAndSetTail(node, pred)` and
        `compareAndSetNext(pred, predNext, null)`) or hand its successor over. */
    method Unsplice(node: NodeId, pred: NodeId, ghost j: nat) returns (woken: Option<NodeId>)
      requires Valid() && j + 1 < |Queue| && Queue[j] == pred && Queue[j + 1] == node
      requires nodes[pred].waitStatus <= 0
      modifies this`tail, this`nodes, this`Queue
      ensures Valid()
      ensures |nodes| == |old(nodes)| && nodes[node].waitStatus == CANCELLED && nodes[node].thread.None?
      ensures old(tail) == Some(node) ==>
                Queue == old(Queue)[..j + 1] && tail == Some(pred) && nodes[pred].next.None? && woken.None?
      ensures old(tail) != Some(node) ==>
                && Queue == old(Queue) && nodes[node].next == Some(node)
                && (if Some(pred) != head then woken.None? && nodes[pred].waitStatus == SIGNAL
                    else woken == FirstLive(Queue, nodes, j + 2))
      ensures old(tail) == Some(node) ==> nodes == CancelledTail(old(nodes), node, pred)
      ensures old(tail) != Some(node) ==> nodes == CancelledInner(old(nodes), node, pred, Some(pred) != head)
    {
      IndexOfUnique(Queue, j);
      IndexOfUnique(Queue, j + 1);
      var predNext := nodes[pred].next;
      var ns := nodes[node := nodes[node].(waitStatus := CANCELLED, thread := None)];
      if tail == Some(node) {
        IndexOfUnique(Queue, |Queue| - 1);
        CancelTailKeeps(Queue, nodes, head, tail, j);
        tail := Some(pred);
        Queue := Queue[..j + 1];
        if ns[pred].next == predNext {
          ns := ns[pred := ns[pred].(next := None)];
        }
        nodes := ns;
        woken := None;
      } else {
        CancelKeeps(Queue, nodes, head, tail, j + 1);
        nodes := ns;
        woken := HandOff(node, pred, predNext, j);
        if Some(pred) == head {
          FirstLiveLinks(Queue, ns, node, Some(node), j + 2);
        }
      }
    }

    /** The branch of `cancelAcquire` for a dead `node` that is not the
        tail, relinked to its live predecessor `pred` at position `j`: a
        predecessor other than the head is made SIGNAL
        (`compareAndSetWaitStatus(pred, ws, SIGNAL)`) and takes over `node`'s
        live successor as `next` (`compareAndSetNext(pred, predNext, next)`);
        from the head, the successor is woken instead. Finally
        `node.next = node`. */
    method HandOff(node: NodeId, pred: NodeId, predNext: Option<NodeId>, ghost j: nat) returns (woken: Option<NodeId>)
      requires Valid() && j + 1 < |Queue| && Queue[j] == pred && Queue[j + 1] == node && Dead(nodes, node)
      requires nodes[pred].waitStatus <= 0
      modifies this`nodes
      ensures Valid()
      ensures var p, x := old(nodes)[pred], old(nodes)[node].next;
              var link := x.Some? && old(nodes)[x.value].waitStatus <= 0 && p.next == predNext;
              nodes == (if Some(pred) == head then old(nodes)
                        else old(nodes)[pred := p.(waitStatus := SIGNAL, next := if link then x else p.next)])
                       [node := old(nodes)[node].(next := Some(node))]
      ensures Some(pred) != head ==> woken.None?
      ensures Some(pred) == head ==> woken == FirstLive(Queue, old(nodes), j + 2)
    {
      IndexOfUnique(Queue, 0);
      IndexOfUnique(Queue, j);
      IndexOfUnique(Queue, j + 1);
      var p := nodes[pred];
      if Some(pred) != head {
        // `ws == SIGNAL`, or `ws <= 0` and the compare-and-set succeeds
        if p.waitStatus != SIGNAL {
          p := p.(waitStatus := SIGNAL);
        }
        // a live waiter other than the head still carries its thread
        assert 1 <= j && p.thread.Some?;
        var next := nodes[node].next;
        var link := next.Some? && nodes[next.value].waitStatus <= 0 && p.next == predNext;
        if link {
          p := p.(next := next);
        }
        SignalHandOffKeeps(Queue, nodes, head, tail, j, link);
        woken := None;
        nodes := nodes[pred := p];
      } else {
        ghost var n0 := nodes;
        assert IndexOf(Queue, node) + 1 == j + 2;
        woken := Successor(node);
        assert woken == FirstLive(Queue, n0, j + 2);
        SelfLinkKeeps(Queue, nodes, head, tail, j + 1);
      }
      nodes := nodes[node := nodes[node].(next := Some(node))];
    }

    /** `node`, owned by `current`, waits at position `k` of the queue that
        was `q0` (over `n0`, with lock word `h0`) when it stood at position
        `i`: the waiters between were cancelled ones that have been dropped,
        and only `node` and its predecessor have changed (`Touched`). */
    ghost predicate Waiting(q0: seq<NodeId>, n0: seq<Node>, h0: HoldCount.Hold, i: nat, k: nat, node: NodeId, current: ThreadId)
      reads this
    {
      && Valid() && |nodes| == |n0| && Hold() == h0
      && 1 <= k <= i && k < |Queue| && Queue[k] == node && nodes[node].thread == Some(current)
      && InArena(q0, n0) && Spliced(Queue, q0, k, i) && CancelledBetween(q0, n0, k, i)
      && NoCancellations(n0, nodes) && Touched(n0, nodes, node, Queue[k - 1])
    }

    /** `node` is queued and its predecessor has promised to wake it. */
    ghost predicate WaitsForSignal(node: NodeId)
      reads this
    {
      && node in Queue && node < |nodes|
      && nodes[node].prev.Some? && nodes[node].prev.value < |nodes|
      && nodes[nodes[node].prev.value].waitStatus == SIGNAL
    }

    /** `node` waits as in `Waiting`, behind a predecessor that will signal it. */
    ghost predicate ParkedBehind(q0: seq<NodeId>, n0: seq<Node>, h0: HoldCount.Hold, i: nat, k: nat, node: NodeId, current: ThreadId)
      reads this
    {
      && Waiting(q0, n0, h0, i, k, node, current)
      && Queue == q0[..k] + q0[i..] && nodes[Queue[k - 1]].waitStatus == SIGNAL
    }

    /** The rank of `node`'s predecessor, which each round that neither
        parks nor returns lowers. */
    ghost function PredRank(k: nat): nat
      requires Valid() && 1 <= k <= |Queue|
      reads this
    {
      Rank(nodes[Queue[k - 1]].waitStatus)
    }

    /** The front of an `acquireQueued` round, for a node whose predecessor
        is the head: `tryAcquire`, and on success `node` becomes the head;
        `None` when the lock was refused, which changes nothing. */
    method TryFront(node: NodeId, current: ThreadId, arg: int, ghost q0: seq<NodeId>, ghost n0: seq<Node>,
                    ghost h0: HoldCount.Hold, ghost i: nat, ghost k: nat) returns (r: Option<Outcome>)
      requires IsInt(arg) && Waiting(q0, n0, h0, i, k, node, current) && head == Some(Queue[k - 1])
      modifies this`state, this`owner, this`head, this`tail, this`nodes, this`Queue
      ensures Valid() && |nodes| == |n0|
      ensures r.None? ==> Waiting(q0, n0, h0, i, k, node, current) && nodes == old(nodes) && Queue == old(Queue)
      ensures r == Some(Acquired) ==>
                && HoldCount.NonfairTryAcquire(h0, current, arg) == HoldCount.Step(Ok(true), Hold())
                && owner == Some(current) && head == Some(node) && Queue == q0[i..]
                && CancelledBetween(q0, n0, 1, i)
                && var p := old(Queue)[0];
                   nodes == HeadTaken(old(nodes), node, p)
      ensures r.Some? ==> r.value.Acquired? || r.value.Failed?
      ensures r.Some? && r.value.Failed? ==>
                && r.value.failure == MaximumLockCountExceeded && Hold() == h0 && h0.owner == Some(current) && h0.state != 0
                && nodes[node].waitStatus == CANCELLED && nodes[node].thread.None?
                && Queue == (if old(tail) == Some(node) then old(Queue)[..1] else old(Queue))
                && (old(tail) == Some(node) ==> nodes == CancelledTail(old(nodes), node, old(Queue)[0]))
                && (old(tail) != Some(node) ==> nodes == CancelledInner(old(nodes), node, old(Queue)[0], false))
                && r.value.woken == FirstLive(Queue, nodes, 1)
    {
      var acquired := TryAcquireWaiting(node, current, arg, q0, n0, h0, i, k);
      if acquired.Ok? {
        if acquired.value {
          TakeFront(node, current, q0, n0, Hold(), i, k);
          return Some(Acquired);
        }
        return None;
      }
      var failed := FailFront(node, current, acquired.failure, q0, n0, h0, i, k);
      r := Some(failed);
    }

    /** `TryFront`, with its exits measured against the arena `n0` that the
        loop started from. */
    method FrontRound(node: NodeId, current: ThreadId, arg: int, ghost q0: seq<NodeId>, ghost n0: seq<Node>,
                      ghost h0: HoldCount.Hold, ghost i: nat, ghost k: nat) returns (r: Option<Outcome>)
      requires IsInt(arg) && Waiting(q0, n0, h0, i, k, node, current) && head == Some(Queue[k - 1])
      modifies this`state, this`owner, this`head, this`tail, this`nodes, this`Queue
      ensures Valid() && |nodes| == |n0|
      ensures r.None? ==> Waiting(q0, n0, h0, i, k, node, current) && nodes == old(nodes) && Queue == old(Queue)
      ensures r == Some(Acquired) ==>
                && HoldCount.NonfairTryAcquire(h0, current, arg) == HoldCount.Step(Ok(true), Hold())
                && owner == Some(current) && head == Some(node) && Queue == q0[i..]
                && CancelledBetween(q0, n0, 1, i)
                && KeptOutside([node, q0[0]], n0, nodes) && nodes[node] == n0[node].(thread := None, prev := None)
                && nodes[q0[0]].next.None?
      ensures r.Some? ==> r.value.Acquired? || r.value.Failed?
      ensures r.Some? && r.value.Failed? ==>
                && r.value.failure == MaximumLockCountExceeded && Hold() == h0 && h0.owner == Some(current) && h0.state != 0
                && nodes[node].waitStatus == CANCELLED && nodes[node].thread.None?
                && Queue != [] && r.value.woken == FirstLive(Queue, nodes, 1)
                && KeptOutside([node, q0[0]], n0, nodes)
    {
      FrontIsFirst(node, current, q0, n0, h0, i, k);
      ghost var n1 := nodes;
      r := TryFront(node, current, arg, q0, n0, h0, i, k);
      if r == Some(Acquired) {
        TouchedTakeHead(n0, n1, node, q0[0]);
      } else if r.Some? {
        TouchedGiveUp(n0, n1, nodes, node, q0[0]);
      }
    }

    /** The `tryAcquire(arg)` of a queued waiter: a refusal or a throw
        leaves it waiting as it was. */
    method TryAcquireWaiting(node: NodeId, current: ThreadId, arg: int, ghost q0: seq<NodeId>, ghost n0: seq<Node>,
                             ghost h0: HoldCount.Hold, ghost i: nat, ghost k: nat) returns (acquired: Result<bool>)
      requires IsInt(arg) && Waiting(q0, n0, h0, i, k, node, current)
      modifies this`state, this`owner
      ensures Valid() && |nodes| == |n0|
      ensures acquired != Ok(true) ==> Waiting(q0, n0, h0, i, k, node, current)
      ensures Waiting(q0, n0, Hold(), i, k, node, current)
      ensures acquired == Ok(true) ==> HoldCount.NonfairTryAcquire(h0, current, arg) == HoldCount.Step(Ok(true), Hold())
      ensures acquired.Err? ==>
                acquired.failure == MaximumLockCountExceeded && h0.owner == Some(current) && h0.state != 0
    {
      acquired := TryAcquire(current, arg);
    }

    /** A waiter whose predecessor is the head stands first in the queue. */
    lemma FrontIsFirst(node: NodeId, current: ThreadId, q0: seq<NodeId>, n0: seq<Node>,
                       h0: HoldCount.Hold, i: nat, k: nat)
      requires Waiting(q0, n0, h0, i, k, node, current) && head == Some(Queue[k - 1])
      ensures k == 1 && 2 <= |Queue| && Queue[1] == node && nodes[node].thread.Some? && |nodes| == |n0|
      ensures InArena(q0, n0) && 1 <= i && Spliced(Queue, q0, 1, i) && CancelledBetween(q0, n0, 1, i)
      ensures Queue[0] == q0[0] != node && Touched(n0, nodes, node, q0[0])
    {
      assert At(Queue, 0) == At(q0, 0);
      IndexOfUnique(Queue, 0);
      IndexOfUnique(Queue, k - 1);
    }

    /** The front of an `acquireQueued` round when `tryAcquire` threw: the
        node gives up, and the round fails with that failure. */
    method FailFront(node: NodeId, current: ThreadId, failure: Failure, ghost q0: seq<NodeId>, ghost n0: seq<Node>,
                     ghost h0: HoldCount.Hold, ghost i: nat, ghost k: nat) returns (r: Outcome)
      requires Waiting(q0, n0, h0, i, k, node, current) && head == Some(Queue[k - 1])
      requires failure == MaximumLockCountExceeded && h0.owner == Some(current) && h0.state != 0
      modifies this`tail, this`nodes, this`Queue
      ensures Valid() && |nodes| == |n0| && Hold() == h0
      ensures r.Failed? && r.failure == failure
      ensures nodes[node].waitStatus == CANCELLED && nodes[node].thread.None?
      ensures Queue == (if old(tail) == Some(node) then old(Queue)[..1] else old(Queue))
      ensures old(tail) == Some(node) ==> nodes == CancelledTail(old(nodes), node, old(Queue)[0])
      ensures old(tail) != Some(node) ==> nodes == CancelledInner(old(nodes), node, old(Queue)[0], false)
      ensures r.woken == FirstLive(Queue, nodes, 1)
    {
      FrontIsFirst(node, current, q0, n0, h0, i, k);
      var woken := GiveUp(node);
      r := Failed(failure, woken);
    }

    /** The `finally` block of `acquireQueued` after the hook threw, for
        the first waiter `node`: `cancelAcquire(node)`. Its predecessor is
        the head, so a tail `node` leaves the queue, and otherwise it stays,
        linked to itself, while the first live waiter behind it is woken. */
    method GiveUp(node: NodeId) returns (woken: Option<NodeId>)
      requires Valid() && 2 <= |Queue| && Queue[1] == node
      modifies this`tail, this`nodes, this`Queue
      ensures Valid() && |nodes| == |old(nodes)|
      ensures nodes[node].waitStatus == CANCELLED && nodes[node].thread.None?
      ensures old(tail) == Some(node) ==>
                Queue == old(Queue)[..1] && tail == head && nodes == CancelledTail(old(nodes), node, Queue[0])
      ensures old(tail) != Some(node) ==>
                Queue == old(Queue) && nodes == CancelledInner(old(nodes), node, Queue[0], false)
      ensures Queue == (if old(tail) == Some(node) then old(Queue)[..1] else old(Queue))
      ensures Queue != [] && woken == FirstLive(Queue, nodes, 1)
    {
      IndexOfUnique(Queue, 0);
      PrevLink(Queue, nodes, head, tail, 1);
      assert nodes[node := nodes[node].(prev := Some(Queue[0]))] == nodes;
      ghost var j;
      woken, j := CancelAcquire(Some(node), 1);
      assert j == 0;
    }

    /** The first waiter `node`, whose predecessors in `q0` up to position
        `i` have all cancelled, becomes the head. */
    method TakeFront(node: NodeId, ghost current: ThreadId, ghost q0: seq<NodeId>, ghost n0: seq<Node>,
                     ghost h: HoldCount.Hold, ghost i: nat, ghost k: nat)
      requires Waiting(q0, n0, h, i, k, node, current) && head == Some(Queue[k - 1])
      modifies this`head, this`nodes, this`Queue
      ensures Valid() && |nodes| == |n0| && Hold() == h && head == Some(node) && Queue == q0[i..]
      ensures CancelledBetween(q0, n0, 1, i)
      ensures var p := old(Queue)[0];
              nodes == HeadTaken(old(nodes), node, p)
    {
      FrontIsFirst(node, current, q0, n0, h, i, k);
      SplicedIs(Queue, q0, 1, i);
      assert Queue[1..] == q0[i..];
      TakeHead(node);
    }

    /** The rest of an `acquireQueued` round: `shouldParkAfterFailedAcquire`
        for the predecessor `p`, after which the node is at `k'`; unless it
        parks, the predecessor's rank has gone down. */
    method ParkRound(p: NodeId, node: NodeId, ghost current: ThreadId, ghost q0: seq<NodeId>, ghost n0: seq<Node>,
                     ghost h0: HoldCount.Hold, ghost i: nat, ghost k: nat) returns (park: bool, ghost k': nat)
      requires Waiting(q0, n0, h0, i, k, node, current) && Queue[k - 1] == p
      modifies this`nodes, this`Queue
      ensures Waiting(q0, n0, h0, i, k', node, current)
      ensures park <==> old(nodes)[p].waitStatus == SIGNAL
      ensures park ==> nodes == old(nodes) && nodes[Queue[k' - 1]].waitStatus == SIGNAL && WaitsForSignal(node)
      ensures !park ==> PredRank(k') < old(PredRank(k))
      // a live predecessor is asked for a signal; a cancelled run before the node is skipped and relinked
      ensures var ws := old(nodes)[p].waitStatus;
              ws <= 0 && ws != SIGNAL ==> Queue == old(Queue) && nodes == old(nodes)[p := old(nodes)[p].(waitStatus := SIGNAL)]
      ensures old(nodes)[p].waitStatus > 0 ==>
                var p' := Queue[k' - 1];
                nodes == old(nodes)[node := old(nodes)[node].(prev := Some(p'))][p' := old(nodes)[p'].(next := Some(node))]
    {
      ghost var q1, n1 := Queue, nodes;
      park, k' := ShouldParkAfterFailedAcquire(p, node, k);
      RoundJoin(q0, n0, q1, n1, Queue, nodes, i, k, k');
      if n1[p].waitStatus > 0 {
        TouchedRelink(n0, n1, node, p, Queue[k' - 1]);
      } else if n1[p].waitStatus != SIGNAL {
        TouchedSignal(n0, n1, node, p);
      }
    }

    /** One round of the `acquireQueued` loop: `None` when the loop goes
        on, with the node now at `k'`, otherwise what the call returns. */
    method AcquireRound(node: NodeId, current: ThreadId, arg: int, ghost q0: seq<NodeId>, ghost n0: seq<Node>,
                        ghost h0: HoldCount.Hold, ghost i: nat, ghost k: nat) returns (r: Option<Outcome>, ghost k': nat)
      requires IsInt(arg) && Waiting(q0, n0, h0, i, k, node, current)
      modifies this`state, this`owner, this`head, this`tail, this`nodes, this`Queue
      ensures Valid() && |nodes| == |n0|
      ensures r.None? ==> Waiting(q0, n0, h0, i, k', node, current) && PredRank(k') < old(PredRank(k))
      ensures r == Some(Acquired) ==>
                && HoldCount.NonfairTryAcquire(h0, current, arg) == HoldCount.Step(Ok(true), Hold())
                && owner == Some(current) && head == Some(node) && Queue == q0[i..]
                && CancelledBetween(q0, n0, 1, i)
                && KeptOutside([node, q0[0]], n0, nodes) && nodes[node] == n0[node].(thread := None, prev := None)
                && nodes[q0[0]].next.None?
      ensures r.Some? && r.value.Parked? ==>
                && r.value.node == node && Hold() == h0 && nodes[node].thread == Some(current) && WaitsForSignal(node)
                && ParkedBehind(q0, n0, h0, i, k', node, current)
      ensures r.Some? && r.value.Failed? ==>
                && r.value.failure == MaximumLockCountExceeded && Hold() == h0 && h0.owner == Some(current) && h0.state != 0
                && nodes[node].waitStatus == CANCELLED && nodes[node].thread.None?
                && Queue != [] && r.value.woken == FirstLive(Queue, nodes, 1)
                && KeptOutside([node, q0[0]], n0, nodes)
    {
      PrevLink(Queue, nodes, head, tail, k);
      var p := nodes[node].prev.value;
      if Some(p) == head {
        r := FrontRound(node, current, arg, q0, n0, h0, i, k);
        if r.Some? {
          return r, k;
        }
      }
      var park;
      park, k' := ParkRound(p, node, current, q0, n0, h0, i, k);
      if park {
        SplicedIs(Queue, q0, k', i);
        return Some(Parked(node)), k';
      }
      r := None;
    }

    /** `acquireQueued(node, arg)` by `current`, for its node at position
        `i`, run until the thread holds the lock, would park, or
        `tryAcquire` throws. A round tries the lock when the predecessor is
        the head and otherwise lets `shouldParkAfterFailedAcquire` tidy the
        predecessor; a SIGNAL predecessor sends the thread to park. On a
        throw the node is cancelled (the `finally` clause). */
    method AcquireQueued(node: NodeId, current: ThreadId, arg: int, ghost i: nat) returns (r: Outcome, ghost k: nat)
      requires Valid() && IsInt(arg) && 1 <= i < |Queue| && Queue[i] == node && nodes[node].thread == Some(current)
      modifies this`state, this`owner, this`head, this`tail, this`nodes, this`Queue
      ensures Valid() && |nodes| == |old(nodes)|
      // the lock is taken only at the front: every waiter ahead of `node` had cancelled
      ensures r == Acquired ==>
                && HoldCount.NonfairTryAcquire(old(Hold()), current, arg) == HoldCount.Step(Ok(true), Hold())
                && owner == Some(current) && head == Some(node) && Queue == old(Queue)[i..]
                && CancelledBetween(old(Queue), old(nodes), 1, i)
      // only `node` and the old head change: `node` is the new sentinel and the old head lets go of it
      ensures r == Acquired ==>
                && KeptOutside([node, old(Queue)[0]], old(nodes), nodes)
                && nodes[node] == old(nodes)[node].(thread := None, prev := None) && nodes[old(Queue)[0]].next.None?
      ensures r.Parked? ==>
                && r.node == node && Hold() == old(Hold()) && nodes[node].thread == Some(current) && WaitsForSignal(node)
                && ParkedBehind(old(Queue), old(nodes), old(Hold()), i, k, node, current)
      ensures r.Failed? ==>
                && r.failure == MaximumLockCountExceeded && Hold() == old(Hold()) && old(owner) == Some(current) && old(state) != 0
                && nodes[node].waitStatus == CANCELLED && nodes[node].thread.None?
                && Queue != [] && r.woken == FirstLive(Queue, nodes, 1)
                && KeptOutside([node, old(Queue)[0]], old(nodes), nodes)
    {
      ghost var q0, n0, h0 := Queue, nodes, Hold();
      k := i;
      while true
        invariant Waiting(q0, n0, h0, i, k, node, current)
        decreases PredRank(k)
      {
        var round;
        round, k := AcquireRound(node, current, arg, q0, n0, h0, i, k);
        if round.Some? {
          return round.value, k;
        }
      }
    }

    /** The success path of `acquireQueued` for the first waiter `node`:
        `setHead(node)`, then the old head's `next` is cleared as it leaves. */
    method TakeHead(node: NodeId)
      requires Valid() && |Queue| >= 2 && Queue[1] == node && nodes[node].waitStatus <= 0
      modifies this`head, this`nodes, this`Queue
      ensures Valid() && Queue == old(Queue)[1..] && head == Some(node)
      ensures var p := old(Queue)[0];
              nodes == HeadTaken(old(nodes), node, p)
    {
      var p := head.value;
      SetHead(node);
      assert p !in Queue by {
        IndexOfUnique(old(Queue), 0);
      }
      SetNext(p, None, 0);
    }

    /** `acquire(arg)` by `current`: `tryAcquire`, and when that fails, a
        fresh node from `addWaiter` runs `acquireQueued`. */
    method Acquire(current: ThreadId, arg: int) returns (r: Outcome)
      requires Valid() && IsInt(arg)
      modifies this`state, this`owner, this`head, this`tail, this`nodes, this`Queue
      ensures Valid()
      // a successful `tryAcquire` ends the call without touching the queue
      ensures old(TryAcquireStep(current, arg)).result == Ok(true) ==>
                && r == Acquired && Hold() == old(TryAcquireStep(current, arg)).after
                && nodes == old(nodes) && Queue == old(Queue) && head == old(head) && tail == old(tail)
      ensures r == Acquired ==> owner == Some(current)
      ensures r.Failed? ==> r.failure == MaximumLockCountExceeded && Hold() == old(Hold()) && old(owner) == Some(current)
      // only the first `tryAcquire` can throw: the queued attempts are refused
      ensures r.Failed? ==> r.woken.None? && nodes == old(nodes) && Queue == old(Queue)
      // the queued thread that takes the lock gets what `tryAcquire` grants a free lock
      ensures r == Acquired ==> HoldCount.NonfairTryAcquire(old(Hold()), current, arg) == HoldCount.Step(Ok(true), Hold())
      ensures r == Acquired && old(TryAcquireStep(current, arg)).result != Ok(true) ==>
                head == Some(|old(nodes)|) && AcquiredAfterJoin(old(Queue), old(nodes), Queue, nodes)
      ensures r.Parked? ==>
                && Hold() == old(Hold()) && r.node == |old(nodes)| && WaitsForSignal(r.node)
                && ParkedAfterJoin(old(Queue), old(nodes), Queue, nodes, r.node, Some(current))
    {
      var acquired := TryAcquire(current, arg);
      if acquired.Err? {
        return Failed(acquired.failure, None);
      }
      if acquired == Ok(true) {
        return Acquired;
      }
      r := QueueAndAcquire(current, arg);
    }

    /** `lock()` by `current`: NonfairSync first barges in with
        `compareAndSetState(0, 1)` and falls back to `acquire(1)`; FairSync
        always goes through `acquire(1)`. */
    method Lock(current: ThreadId) returns (r: Outcome)
      requires Valid()
      modifies this`state, this`owner, this`head, this`tail, this`nodes, this`Queue
      ensures Valid()
      // a free lock is taken at once by the non-fair policy, whoever is queued
      ensures !fair && old(state) == 0 ==>
                r == Acquired && Hold() == HoldCount.Hold(1, Some(current)) && nodes == old(nodes) && Queue == old(Queue)
      ensures old(TryAcquireStep(current, 1)).result == Ok(true) ==>
                && r == Acquired && Hold() == old(TryAcquireStep(current, 1)).after
                && nodes == old(nodes) && Queue == old(Queue)
      ensures r == Acquired ==> owner == Some(current)
      ensures r.Failed? ==> r.failure == MaximumLockCountExceeded && Hold() == old(Hold()) && old(owner) == Some(current)
      ensures r.Failed? ==> r.woken.None? && nodes == old(nodes) && Queue == old(Queue)
      // the queued thread that takes the lock gets what `tryAcquire` grants a free lock
      ensures r == Acquired ==> HoldCount.NonfairTryAcquire(old(Hold()), current, 1) == HoldCount.Step(Ok(true), Hold())
      ensures r == Acquired && old(TryAcquireStep(current, 1)).result != Ok(true) ==>
                head == Some(|old(nodes)|) && AcquiredAfterJoin(old(Queue), old(nodes), Queue, nodes)
      ensures r.Parked? ==>
                && Hold() == old(Hold()) && r.node == |old(nodes)| && WaitsForSignal(r.node)
                && ParkedAfterJoin(old(Queue), old(nodes), Queue, nodes, r.node, Some(current))
    {
      if !fair {
        var ok := CompareAndSetState(0, 1);
        if ok {
          owner := Some(current);
          return Acquired;
        }
      }
      r := Acquire(current, 1);
    }

    /** `acquireQueued(addWaiter(Node.EXCLUSIVE), arg)`: the caller joins the
        queue as its last node and then runs the acquire loop. */
    method QueueAndAcquire(current: ThreadId, arg: int) returns (r: Outcome)
      requires Valid() && IsInt(arg)
      modifies this`state, this`owner, this`head, this`tail, this`nodes, this`Queue
      ensures Valid()
      ensures r == Acquired ==> owner == Some(current)
      ensures r == Acquired ==> HoldCount.NonfairTryAcquire(old(Hold()), current, arg) == HoldCount.Step(Ok(true), Hold())
      ensures r == Acquired ==> head == Some(|old(nodes)|) && AcquiredAfterJoin(old(Queue), old(nodes), Queue, nodes)
      ensures r.Failed? ==> KeptOutside(HeadPart(old(Queue)) + TailPart(old(Queue)), old(nodes), nodes)
      ensures r.Failed? ==> r.failure == MaximumLockCountExceeded && Hold() == old(Hold()) && old(owner) == Some(current)
      ensures r.Failed? ==> old(state) != 0 && Queue != [] && r.woken == FirstLive(Queue, nodes, 1)
      ensures r.Parked? ==>
                && Hold() == old(Hold()) && r.node == |old(nodes)| && WaitsForSignal(r.node)
                && ParkedAfterJoin(old(Queue), old(nodes), Queue, nodes, r.node, Some(current))
    {
      ghost var q0, n0 := Queue, nodes;
      var node, i := JoinQueue(current);
      ghost var q1, n1 := Queue, nodes;
      ghost var k;
      r, k := AcquireQueued(node, current, arg, i);
      if r == Acquired {
        JoinAcquired(q0, n0, q1, n1, Queue, nodes, node, i, Some(current));
      } else if r.Failed? {
        JoinFailed(q0, n0, q1, n1, nodes, node);
      } else {
        PrevLink(Queue, nodes, head, tail, k);
        JoinParked(q0, n0, q1, n1, Queue, nodes, node, i, k, Some(current));
      }
    }

    /** The `addWaiter(Node.EXCLUSIVE)` of `acquire`: the caller's fresh
        node is now the last of the queue, at position `i`. */
    method JoinQueue(current: ThreadId) returns (node: NodeId, ghost i: nat)
      requires Valid()
      modifies this`head, this`tail, this`nodes, this`Queue
      ensures Valid() && node == |old(nodes)| && i == |Queue| - 1 && 1 <= i && Queue[i] == node
      ensures nodes[node].thread == Some(current)
      ensures Queue == (if old(Queue) == [] then [node + 1] else old(Queue)) + [node]
      ensures nodes[node] == NewNode(Some(current), 0).(prev := Some(Queue[i - 1]))
      ensures KeptOutside(TailPart(old(Queue)), old(nodes), nodes)
      ensures old(Queue) != [] ==> nodes[Queue[i - 1]] == old(nodes)[Queue[i - 1]].(next := Some(node))
    {
      node := AddWaiter(current);
      i := |Queue| - 1;
    }

    /** `release(arg)` by `current`: `tryRelease`, and when that frees the
        lock, a head with a non-zero status has its successor woken. */
    method Release(current: ThreadId, arg: int) returns (r: Result<bool>, woken: Option<NodeId>)
      requires Valid() && IsInt(arg)
      modifies this`state, this`owner, this`nodes
      ensures Valid()
      ensures var s := HoldCount.TryRelease(old(Hold()), current, arg);
              r == s.result && Hold() == s.after
      ensures var wake := r == Ok(true) && head.Some? && old(nodes)[head.value].waitStatus != 0;
              && (wake ==> woken == FirstLive(Queue, nodes, 1) &&
                           nodes == old(nodes)[head.value := old(nodes)[head.value].(waitStatus := 0)])
              && (!wake ==> woken.None? && nodes == old(nodes))
    {
      woken := None;
      r := TryRelease(current, arg);
      if r == Ok(true) {
        var h := head;
        if h.Some? && nodes[h.value].waitStatus != 0 {
          IndexOfUnique(Queue, 0);
          woken := UnparkSuccessor(h.value);
        }
      }
    }

    /** `fullyRelease(node)` by `current` for its condition node: `release`
        of every hold, returning the saved count; when `current` does not
        own the lock the release throws and the node is cancelled. */
    method FullyRelease(current: ThreadId, node: NodeId) returns (r: Result<int>, woken: Option<NodeId>)
      requires Valid() && node < |nodes| && node !in Queue && nodes[node].waitStatus == CONDITION
      modifies this`state, this`owner, this`nodes
      ensures Valid()
      ensures r.Ok? <==> old(owner) == Some(current)
      ensures r.Ok? ==>
                && r.value == old(state) && Hold() == HoldCount.Free
                && var wake := head.Some? && old(nodes)[head.value].waitStatus != 0;
                && (wake ==> woken == FirstLive(Queue, nodes, 1) &&
                             nodes == old(nodes)[head.value := old(nodes)[head.value].(waitStatus := 0)])
                && (!wake ==> woken.None? && nodes == old(nodes))
      ensures r.Err? ==>
                && r.failure == IllegalMonitorState && Hold() == old(Hold()) && woken.None?
                && nodes == old(nodes)[node := old(nodes)[node].(waitStatus := CANCELLED)]
    {
      var savedState := state;
      var released;
      released, woken := Release(current, savedState);
      if released == Ok(true) {
        return Ok(savedState), woken;
      }
      // `release` returned false or threw: the `finally` clause cancels the node
      UpdateKeeps(Queue, nodes, head, tail, node, nodes[node].(waitStatus := CANCELLED), 0);
      nodes := nodes[node := nodes[node].(waitStatus := CANCELLED)];
      return Err(IllegalMonitorState), None;
    }

    /** `getQueueLength()`: the number of queued threads. */
    method GetQueueLength() returns (n: nat)
      requires Valid()
      ensures n == ThreadCount(Queue, nodes)
      ensures Queue != [] ==> n == LiveCount(Queue[1..], nodes)
    {
      n := CountThreads(Queue, nodes, tail);
      if Queue != [] {
        QueuedThreads(Queue, nodes, head, tail);
      }
    }

    /** `isQueued(thread)`: some node on the queue carries `thread`; a null
        `thread` throws NullPointerException. */
    method IsQueued(thread: Option<ThreadId>) returns (r: Result<bool>)
      requires Valid()
      ensures thread.None? <==> r == Err(NullArgument)
      ensures thread.Some? <==> r.Ok?
      ensures r.Ok? ==> (r.value <==> exists k :: 1 <= k < |Queue| && nodes[Queue[k]].thread == thread)
    {
      if thread.None? {
        return Err(NullArgument);
      }
      var found := FindThread(Queue, nodes, tail, thread.value);
      r := Ok(found);
    }

    /** `isOnSyncQueue(node)`: false for a condition node or one without a
        `prev`; true when it has a `next`; otherwise the answer of the
        search from the tail. For a node that has not cancelled it says
        exactly whether the node waits behind the head. */
    method IsOnSyncQueue(node: NodeId) returns (r: bool)
      requires Valid() && node < |nodes|
      ensures r <==> (node in Queue && node != Queue[0]) ||
                     (node !in Queue && nodes[node].prev.Some? && nodes[node].next.Some?)
      ensures nodes[node].waitStatus <= 0 ==> (r <==> node in Queue && node != Queue[0])
    {
      if nodes[node].waitStatus == CONDITION || nodes[node].prev.None? {
        if node in Queue {
          PrevLink(Queue, nodes, head, tail, IndexOf(Queue, node));
        }
        return false;
      }
      if nodes[node].next.Some? {
        if node in Queue {
          IndexOfUnique(Queue, 0);
        }
        return true;
      }
      r := FindNodeFromTail(node);
      if node in Queue {
        PrevLink(Queue, nodes, head, tail, IndexOf(Queue, node));
        IndexOfUnique(Queue, 0);
      }
    }

    /** `findNodeFromTail(node)`: walks `prev` from the tail looking for `node`. */
    method FindNodeFromTail(node: NodeId) returns (r: bool)
      requires Valid()
      ensures r <==> node in Queue
    {
      r := FindFromTail(Queue, nodes, tail, node);
    }

    /** `transferForSignal(node)`: a node still waiting on a condition gets
        status 0 and is enqueued; its predecessor is made SIGNAL, or, when
        that predecessor has cancelled, the node's thread is woken to resync.
        A node that is no longer CONDITION is left alone. */
    method TransferForSignal(node: NodeId) returns (r: bool, woken: Option<NodeId>)
      requires Valid() && node < |nodes|
      modifies this`head, this`tail, this`nodes, this`Queue
      ensures Valid() && |nodes| >= |old(nodes)|
      ensures r <==> old(nodes)[node].waitStatus == CONDITION
      ensures !r ==> woken.None? && nodes == old(nodes) && Queue == old(Queue) && head == old(head) && tail == old(tail)
      ensures r ==>
                && |Queue| >= 2 && Queue[..|Queue| - 1] == (if old(Queue) == [] then [|old(nodes)|] else old(Queue))
                && Queue[|Queue| - 1] == node && tail == Some(node)
                && nodes[node] == old(nodes)[node].(waitStatus := 0, prev := Some(Queue[|Queue| - 2]))
                && nodes == SignalledArena(old(Queue), old(nodes), node)
      ensures woken == if r && TailCancelled(old(Queue), old(nodes)) then Some(node) else None
      ensures OthersKept(old(Queue), old(nodes), nodes, node)
    {
      ghost var q0, n0 := Queue, nodes;
      if nodes[node].waitStatus == CONDITION {
        assert node !in Queue;
      }
      var ok := CompareAndSetWaitStatus(node, CONDITION, 0);
      if !ok {
        OthersKeptUpdate(q0, n0, node, n0[node]);
        return false, None;
      }
      ghost var pred;
      woken, pred := EnqSignalled(node, n0);
      return true, woken;
    }

    /** `transferAfterCancelledWait(node)` for a condition waiter whose wait
        was interrupted: a node still waiting on the condition moves to the
        sync queue with status 0, and the answer is true (the wait was
        cancelled before any signal); otherwise a signal has already taken
        the node off the condition and the answer is false. */
    method TransferAfterCancelledWait(node: NodeId) returns (r: bool)
      requires Valid() && node < |nodes|
      modifies this`head, this`tail, this`nodes, this`Queue
      ensures Valid() && |nodes| >= |old(nodes)|
      ensures r <==> old(nodes)[node].waitStatus == CONDITION
      ensures !r ==> nodes == old(nodes) && Queue == old(Queue) && head == old(head) && tail == old(tail)
      ensures r ==>
                && |Queue| >= 2 && Queue[..|Queue| - 1] == (if old(Queue) == [] then [|old(nodes)|] else old(Queue))
                && Queue[|Queue| - 1] == node && tail == Some(node)
                && nodes[node] == old(nodes)[node].(waitStatus := 0, prev := Some(Queue[|Queue| - 2]))
                && nodes == EnqueuedArena(old(Queue), old(nodes), node)
      ensures OthersKept(old(Queue), old(nodes), nodes, node)
    {
      ghost var q0, n0 := Queue, nodes;
      if nodes[node].waitStatus == CONDITION {
        assert node !in Queue;
      }
      var ok := CompareAndSetWaitStatus(node, CONDITION, 0);
      if !ok {
        OthersKeptUpdate(q0, n0, node, n0[node]);
        return false;
      }
      var _ := EnqLast(node, n0);
      return true;
    }

    /** `enq(node)` for a condition node whose status was just reset from
        CONDITION to 0 (`n0` is the arena before the reset): it ends up
        last on the queue, after the old tail or a fresh sentinel, which
        is returned as `pred`. */
    method EnqLast(node: NodeId, ghost n0: seq<Node>) returns (pred: NodeId)
      requires Valid() && Enqueueable(node) && node < |n0| && nodes == n0[node := n0[node].(waitStatus := 0)]
      modifies this`head, this`tail, this`nodes, this`Queue
      ensures Valid() && |nodes| >= |n0|
      ensures && |Queue| >= 2 && Queue[..|Queue| - 1] == (if old(Queue) == [] then [|n0|] else old(Queue))
              && Queue[|Queue| - 1] == node && tail == Some(node) && Queue[|Queue| - 2] == pred
              && nodes[node] == n0[node].(waitStatus := 0, prev := Some(pred))
      ensures pred == TailOrSentinel(old(Queue), |n0|) && nodes == EnqueuedArena(old(Queue), n0, node)
      ensures OthersKept(old(Queue), n0, nodes, node)
    {
      ghost var q0, n1 := Queue, nodes;
      pred := Enq(node);
      assert Queue[|Queue| - 2] == pred && nodes[node] == n1[node].(prev := Some(pred));
      ResetThenEnqueued(q0, n0, n1, Queue, nodes, node);
      OthersKeptUpdate(q0, n0, node, n1[node]);
      OthersKeptTrans(q0, n0, n1, nodes, q0, node);
    }

    /** `new Node(current, Node.CONDITION)` in `addConditionWaiter`: a fresh
        node in the arena, off the sync queue. */
    method NewConditionNode(current: ThreadId) returns (node: NodeId)
      requires Valid()
      modifies this`nodes
      ensures Valid()
      ensures node == |old(nodes)| && nodes == old(nodes) + [NewNode(Some(current), CONDITION)]
    {
      node := |nodes|;
      AllocKeeps(Queue, nodes, head, tail, NewNode(Some(current), CONDITION));
      nodes := nodes + [NewNode(Some(current), CONDITION)];
    }

    /** The rest of `transferForSignal` once the node's status is reset
        from CONDITION to 0 (`n0` is the arena before the reset): `enq` it,
        then ask its predecessor for a signal; when the predecessor is
        cancelled (or refuses the CAS) the node's thread is woken instead. */
    method EnqSignalled(node: NodeId, ghost n0: seq<Node>) returns (woken: Option<NodeId>, ghost pred: NodeId)
      requires Valid() && Enqueueable(node) && node < |n0| && nodes == n0[node := n0[node].(waitStatus := 0)]
      modifies this`head, this`tail, this`nodes, this`Queue
      ensures Valid() && |nodes| >= |n0|
      ensures && |Queue| >= 2 && Queue[..|Queue| - 1] == (if old(Queue) == [] then [|n0|] else old(Queue))
              && Queue[|Queue| - 1] == node && tail == Some(node) && Queue[|Queue| - 2] == pred
              && nodes[node] == n0[node].(waitStatus := 0, prev := Some(pred))
      ensures nodes == SignalledArena(old(Queue), n0, node)
      ensures woken == if TailCancelled(old(Queue), n0) then Some(node) else None
      ensures OthersKept(old(Queue), n0, nodes, node)
    {
      ghost var q0 := Queue;
      var p := EnqLast(node, n0);
      pred := p;
      ghost var n1 := nodes;
      woken := SignalOrWake(p, node);
      OthersKeptThroughEnq(q0, n0, n1, nodes, Queue, node);
      SignalledArenaIs(q0, n0, node);
    }

    /** The end of `transferForSignal`: the new last node `node` asks its
        predecessor `p` for a signal, and is woken itself when `p` has
        cancelled or refuses the CAS. */
    method SignalOrWake(p: NodeId, node: NodeId) returns (woken: Option<NodeId>)
      requires Valid() && |Queue| >= 2 && Queue[|Queue| - 2] == p && Queue[|Queue| - 1] == node
      modifies this`nodes
      ensures Valid() && |nodes| == |old(nodes)| && nodes[node] == old(nodes)[node]
      ensures nodes == if old(nodes)[p].waitStatus <= 0 then old(nodes)[p := old(nodes)[p].(waitStatus := SIGNAL)] else old(nodes)
      ensures woken == if nodes[p].waitStatus == SIGNAL then None else Some(node)
      ensures woken.Some? ==> nodes[p].waitStatus > 0
      ensures OthersKept(Queue, old(nodes), nodes, node)
    {
      var ws := nodes[p].waitStatus;
      var signalled := false;
      if ws <= 0 {
        IndexOfUnique(Queue, |Queue| - 2);
        signalled := CompareAndSetWaitStatus(p, ws, SIGNAL);
      }
      woken := if signalled then None else Some(node);
    }
  }

  /** `addWaiter` from `q0` and `n0`, then a successful `acquireQueued` of
      its node `x` at position `i`: `x` is the only node, a blank head,
      which requires every old waiter to have cancelled. */
  lemma JoinAcquired(q0: seq<NodeId>, n0: seq<Node>, q1: seq<NodeId>, n1: seq<Node>, q: seq<NodeId>, n: seq<Node>,
                     x: NodeId, i: nat, t: Option<ThreadId>)
    requires InArena(q0, n0) && x == |n0| && 1 <= i == |q1| - 1 && q1 == (if q0 == [] then [x + 1] else q0) + [x]
    requires InArena(q1, n1) && x < |n1| && n1[x] == NewNode(t, 0).(prev := Some(q1[i - 1]))
    requires KeptOutside(TailPart(q0), n0, n1) && (q0 != [] ==> n1[q1[i - 1]] == n0[q1[i - 1]].(next := Some(x)))
    requires q == q1[i..] && CancelledBetween(q1, n1, 1, i)
    requires KeptOutside([x, q1[0]], n1, n) && n[x] == n1[x].(thread := None, prev := None)
    ensures AcquiredAfterJoin(q0, n0, q, n)
  {
    assert q == [q1[i]] && q1[i] == x;
    JoinedWaitersCancelled(q0, n0, q1, n1, x, i, 1);
    KeptAcross(TailPart(q0), [x, q1[0]], HeadPart(q0) + TailPart(q0), n0, n1, n);
  }

  /** The old waiters from position `a` on that a node joining behind them
      finds cancelled had already cancelled before it joined: joining only
      relinks the old tail. */
  lemma JoinedWaitersCancelled(q0: seq<NodeId>, n0: seq<Node>, q1: seq<NodeId>, n1: seq<Node>, x: NodeId, i: nat, a: nat)
    requires InArena(q0, n0) && x == |n0| && 1 <= i == |q1| - 1 && q1 == (if q0 == [] then [x + 1] else q0) + [x]
    requires InArena(q1, n1) && KeptOutside(TailPart(q0), n0, n1)
    requires q0 != [] ==> n1[q1[i - 1]] == n0[q1[i - 1]].(next := Some(x))
    requires CancelledBetween(q1, n1, a, i)
    ensures forall j :: a <= j < |q0| ==> q0[j] < |n0| && n0[q0[j]].waitStatus > 0
  {
    forall j | a <= j < |q0|
      ensures q0[j] < |n0| && n0[q0[j]].waitStatus > 0
    {
      assert q1[j] == q0[j] && n1[q1[j]].waitStatus > 0;
      if q0[j] == q1[i - 1] {
        assert n1[q0[j]] == n0[q0[j]].(next := Some(x));
      } else {
        assert q0[j] !in TailPart(q0);
      }
    }
  }

  /** `addWaiter` from `q0` and `n0`, then an `acquireQueued` of its node
      `x` that threw: only the old head and the old tail may have changed. */
  lemma JoinFailed(q0: seq<NodeId>, n0: seq<Node>, q1: seq<NodeId>, n1: seq<Node>, n: seq<Node>, x: NodeId)
    requires x == |n0| && q1 == (if q0 == [] then [x + 1] else q0) + [x]
    requires KeptOutside(TailPart(q0), n0, n1) && KeptOutside([x, q1[0]], n1, n)
    ensures KeptOutside(HeadPart(q0) + TailPart(q0), n0, n)
  {
    KeptAcross(TailPart(q0), [x, q1[0]], HeadPart(q0) + TailPart(q0), n0, n1, n);
  }

  /** `addWaiter` from `q0` and `n0`, then an `acquireQueued` of its node
      `x` (at position `i`) that parks at position `k`. */
  lemma JoinParked(q0: seq<NodeId>, n0: seq<Node>, q1: seq<NodeId>, n1: seq<Node>, q: seq<NodeId>, n: seq<Node>,
                   x: NodeId, i: nat, k: nat, t: Option<ThreadId>)
    requires InArena(q0, n0) && x == |n0| && 1 <= i == |q1| - 1 && q1 == (if q0 == [] then [x + 1] else q0) + [x]
    requires InArena(q1, n1) && x < |n1| && n1[x] == NewNode(t, 0).(prev := Some(q1[i - 1]))
    requires KeptOutside(TailPart(q0), n0, n1) && (q0 != [] ==> n1[q1[i - 1]] == n0[q1[i - 1]].(next := Some(x)))
    requires 1 <= k <= i && q == q1[..k] + q1[i..] && CancelledBetween(q1, n1, k, i)
    requires Touched(n1, n, x, q[k - 1]) && n[x].prev == Some(q[k - 1])
    ensures ParkedAfterJoin(q0, n0, q, n, x, t)
  {
    assert q == q1[..k] + [x] && q[k - 1] == q1[k - 1];
    JoinedWaitersCancelled(q0, n0, q1, n1, x, i, k);
    KeptAcross(TailPart(q0), [x, q[k - 1]], TailPart(q0) + [q[|q| - 2]], n0, n1, n);
  }

  /** The loop `node.prev = pred = pred.prev` of `cancelAcquire` and
      `shouldParkAfterFailedAcquire`, on the waiter at position `i`: it stops
      at the nearest live predecessor `pred`, at position `j`, having
      stepped over only cancelled nodes; `ns` is the arena afterwards. */
  method WalkBack(ghost q: seq<NodeId>, nodes: seq<Node>, node: NodeId, ghost i: nat)
    returns (pred: NodeId, ns: seq<Node>, ghost j: nat)
    requires InArena(q, nodes) && Distinct(q) && PrevChain(q, nodes) && 1 <= i < |q| && q[i] == node
    requires nodes[q[0]].waitStatus <= 0
    ensures j < i && pred == q[j] && nodes[pred].waitStatus <= 0
    ensures CancelledBetween(q, nodes, j + 1, i)
    ensures ns == nodes[node := nodes[node].(prev := Some(pred))]
  {
    ns := nodes;
    assert LinkedBack(q, nodes, i);
    pred := ns[node].prev.value;
    j := i - 1;
    while ns[pred].waitStatus > 0
      invariant 0 <= j < i && pred == q[j]
      invariant ns == nodes[node := nodes[node].(prev := Some(pred))]
      invariant CancelledBetween(q, nodes, j + 1, i)
      decreases j
    {
      assert IndexOf(q, q[j]) == j && IndexOf(q, q[i]) == i;
      assert j > 0 && ns[pred] == nodes[q[j]] && LinkedBack(q, nodes, j);
      var p := ns[pred].prev.value;
      ns := ns[node := ns[node].(prev := Some(p))];
      pred := p;
      j := j - 1;
    }
  }

  /** The backward scan of `unparkSuccessor`: walking `prev` from the tail
      down to `node`, the last node seen that has not cancelled is the first
      live node after `node`. */
  method ScanFromTail(ghost q: seq<NodeId>, nodes: seq<Node>, tail: Option<NodeId>, node: NodeId) returns (s: Option<NodeId>)
    requires InArena(q, nodes) && Distinct(q) && PrevChain(q, nodes)
    requires node in q && tail == Some(q[|q| - 1])
    ensures s == FirstLive(q, nodes, IndexOf(q, node) + 1)
  {
    ghost var i := IndexOf(q, node);
    s := None;
    var t := tail;
    ghost var k := |q| - 1;
    while t.Some? && t.value != node
      invariant i <= k < |q| && t == Some(q[k])
      invariant s == FirstLive(q, nodes, k + 1)
      decreases k
    {
      if nodes[t.value].waitStatus <= 0 {
        s := t;
      }
      assert LinkedBack(q, nodes, k);
      t := nodes[t.value].prev;
      k := k - 1;
    }
  }

  /** How far `acquireQueued` is from parking: a cancelled predecessor is
      skipped, a live one is made SIGNAL, and a SIGNAL one parks. */
  function Rank(ws: int): nat {
    if ws > 0 then 2 else if ws == SIGNAL then 0 else 1
  }

  /** The loop of `getQueueLength`: walking `prev` from the tail, it counts
      the nodes that carry a thread. */
  method CountThreads(ghost q: seq<NodeId>, nodes: seq<Node>, tail: Option<NodeId>) returns (n: nat)
    requires InArena(q, nodes) && PrevChain(q, nodes)
    requires if q == [] then tail.None? else tail == Some(q[|q| - 1]) && nodes[q[0]].prev.None?
    ensures n == ThreadCount(q, nodes)
  {
    n := 0;
    var p := tail;
    ghost var k := |q|;
    while p.Some?
      invariant 0 <= k <= |q| && p == (if k == 0 then None else Some(q[k - 1]))
      invariant n == ThreadCount(q[k..], nodes)
      decreases k
    {
      assert q[k - 1..][1..] == q[k..];
      if nodes[p.value].thread.Some? {
        n := n + 1;
      }
      if k > 1 {
        assert LinkedBack(q, nodes, k - 1);
      }
      p := nodes[p.value].prev;
      k := k - 1;
    }
  }

  /** The loop of `isQueued(thread)`: walking `prev` from the tail, it looks
      for a node that carries `thread`. */
  method FindThread(ghost q: seq<NodeId>, nodes: seq<Node>, tail: Option<NodeId>, thread: ThreadId) returns (r: bool)
    requires InArena(q, nodes) && PrevChain(q, nodes)
    requires if q == [] then tail.None? else tail == Some(q[|q| - 1]) && nodes[q[0]].prev.None? && nodes[q[0]].thread.None?
    ensures r <==> exists k :: 1 <= k < |q| && nodes[q[k]].thread == Some(thread)
  {
    var p := tail;
    ghost var k := |q|;
    while p.Some?
      invariant 0 <= k <= |q| && p == (if k == 0 then None else Some(q[k - 1]))
      invariant forall m :: k <= m < |q| ==> nodes[q[m]].thread != Some(thread)
      decreases k
    {
      if nodes[p.value].thread == Some(thread) {
        return true;
      }
      if k > 1 {
        assert LinkedBack(q, nodes, k - 1);
      }
      p := nodes[p.value].prev;
      k := k - 1;
    }
    return false;
  }

  /** The loop of `findNodeFromTail(node)`: walking `prev` from the tail, it
      stops at `node` or after the head. */
  method FindFromTail(ghost q: seq<NodeId>, nodes: seq<Node>, tail: Option<NodeId>, node: NodeId) returns (r: bool)
    requires InArena(q, nodes) && PrevChain(q, nodes)
    requires if q == [] then tail.None? else tail == Some(q[|q| - 1]) && nodes[q[0]].prev.None?
    ensures r <==> node in q
  {
    var t := tail;
    ghost var k := |q|;
    while true
      invariant 0 <= k <= |q| && t == (if k == 0 then None else Some(q[k - 1]))
      invariant node !in q[k..]
      decreases k
    {
      if t == Some(node) {
        return true;
      }
      if t.None? {
        return false;
      }
      assert q[k - 1..] == [q[k - 1]] + q[k..];
      if k > 1 {
        assert LinkedBack(q, nodes, k - 1);
      }
      t := nodes[t.value].prev;
      k := k - 1;
    }
  }
}
