/** NyaReentrantLock: a reentrant mutual-exclusion lock whose work is done
    by an `Aqs.Synchronizer` running the fair or the non-fair policy. Every
    entry point delegates to that synchronizer; the contracts restate what
    the delegate guarantees in the lock's own terms. */
module ReentrantLock {
  import opened Base
  import opened WaitQueue
  import HoldCount
  import Aqs
  import Condition

  class NyaReentrantLock {
    /** The synchronizer that provides all implementation mechanics. */
    const sync: Aqs.Synchronizer

    ghost predicate Valid()
      reads sync
    {
      sync.Valid()
    }

    /** `NyaReentrantLock()`: a non-fair lock, free, with nobody queued. */
    constructor ()
      ensures Valid() && fresh(sync) && !IsFair()
      ensures sync.Hold() == HoldCount.Free && sync.Queue == [] && sync.nodes == []
    {
      sync := new Aqs.Synchronizer(false);
    }

    /** `NyaReentrantLock(fair)`: a lock with the given fairness policy. */
    constructor WithPolicy(fair: bool)
      ensures Valid() && fresh(sync) && IsFair() == fair
      ensures sync.Hold() == HoldCount.Free && sync.Queue == [] && sync.nodes == []
    {
      sync := new Aqs.Synchronizer(fair);
    }

    /** `isFair()`. */
    predicate IsFair() {
      sync.fair
    }

    /** What `isFair()` answers decides how a free lock is handed out: only
        the fair policy refuses it, and only to a thread with a queued
        predecessor. */
    lemma FairPolicy(current: ThreadId)
      requires Valid() && sync.state == 0
      ensures sync.TryAcquireStep(current, 1).result == Ok(true) <==> !IsFair() || !sync.HasQueuedPredecessors(current)
      ensures sync.TryAcquireStep(current, 1).result != Ok(true) ==> sync.TryAcquireStep(current, 1).result == Ok(false)
    {
    }

    /** `lock()` by `current`: taken at once when free (and, under the fair
        policy, nobody waits ahead), one more hold when reentrant, otherwise
        the caller is parked on the queue. */
    method Lock(current: ThreadId) returns (r: Aqs.Outcome)
      requires Valid()
      modifies sync`state, sync`owner, sync`head, sync`tail, sync`nodes, sync`Queue
      ensures Valid()
      ensures !IsFair() && old(sync.state) == 0 ==>
                r == Aqs.Acquired && sync.Hold() == HoldCount.Hold(1, Some(current))
      ensures old(sync.TryAcquireStep(current, 1)).result == Ok(true) ==>
                && r == Aqs.Acquired && sync.Hold() == old(sync.TryAcquireStep(current, 1)).after
                && sync.nodes == old(sync.nodes) && sync.Queue == old(sync.Queue)
      ensures r == Aqs.Acquired ==> IsHeldByCurrentThread(current)
      ensures r.Failed? ==>
                && r.failure == MaximumLockCountExceeded && sync.Hold() == old(sync.Hold())
                && r.woken.None? && sync.nodes == old(sync.nodes) && sync.Queue == old(sync.Queue)
      // however it is taken, the lock ends as `tryAcquire(1)` leaves it: a free lock is held once
      ensures r == Aqs.Acquired ==> HoldCount.NonfairTryAcquire(old(sync.Hold()), current, 1) == HoldCount.Step(Ok(true), sync.Hold())
      ensures r == Aqs.Acquired && old(sync.state) == 0 ==> GetHoldCount(current) == 1
      ensures r == Aqs.Acquired && old(sync.TryAcquireStep(current, 1)).result != Ok(true) ==>
                sync.head == Some(|old(sync.nodes)|) && Aqs.AcquiredAfterJoin(old(sync.Queue), old(sync.nodes), sync.Queue, sync.nodes)
      ensures r.Parked? ==>
                && sync.Hold() == old(sync.Hold()) && r.node == |old(sync.nodes)| && sync.WaitsForSignal(r.node)
                && Aqs.ParkedAfterJoin(old(sync.Queue), old(sync.nodes), sync.Queue, sync.nodes, r.node, Some(current))
    {
      r := sync.Lock(current);
    }

    /** `tryLock()` by `current`: always the non-fair attempt, so a free
        lock is taken even by a fair lock with threads queued. */
    method TryLock(current: ThreadId) returns (r: Result<bool>)
      requires Valid()
      modifies sync`state, sync`owner
      ensures Valid()
      ensures var s := HoldCount.NonfairTryAcquire(old(sync.Hold()), current, 1);
              r == s.result && sync.Hold() == s.after
      ensures old(sync.state) == 0 ==> r == Ok(true) && IsHeldByCurrentThread(current) && GetHoldCount(current) == 1
    {
      r := sync.NonfairTryAcquire(current, 1);
    }

    /** `unlock()` by `current`: one hold released; the lock is freed when
        the count reaches zero, and then the first live waiter is woken. */
    method Unlock(current: ThreadId) returns (r: Result<()>, woken: Option<NodeId>)
      requires Valid()
      modifies sync`state, sync`owner, sync`nodes
      ensures Valid()
      ensures r.Err? <==> old(sync.owner) != Some(current)
      ensures r.Err? ==> r.failure == IllegalMonitorState && sync.Hold() == old(sync.Hold())
      ensures sync.Hold() == HoldCount.TryRelease(old(sync.Hold()), current, 1).after
      ensures woken.Some? ==> !IsLocked() && sync.Queue != [] && woken == FirstLive(sync.Queue, sync.nodes, 1)
      // the successor is woken exactly when the lock was freed and the head's status was not 0,
      // which is then reset; otherwise no node changes
      ensures var freed := HoldCount.TryRelease(old(sync.Hold()), current, 1).result == Ok(true);
              var h := sync.head;
              var wake := freed && h.Some? && old(sync.nodes)[h.value].waitStatus != 0;
              && (wake ==> woken == FirstLive(sync.Queue, sync.nodes, 1) &&
                           sync.nodes == old(sync.nodes)[h.value := old(sync.nodes)[h.value].(waitStatus := 0)])
              && (!wake ==> woken.None? && sync.nodes == old(sync.nodes))
    {
      var released;
      released, woken := sync.Release(current, 1);
      if released.Err? {
        return Err(released.failure), woken;
      }
      r := Ok(());
    }

    /** `newCondition()`: a fresh, empty condition bound to this lock. */
    method NewCondition() returns (c: Condition.ConditionObject)
      requires Valid()
      ensures fresh(c) && c.Valid() && c.sync == sync && c.Waiters == []
      ensures Condition.Owns(sync, c)
    {
      c := new Condition.ConditionObject(sync);
    }

    /** `getHoldCount()` asked by `current`. */
    function GetHoldCount(current: ThreadId): (r: int)
      reads sync
      ensures r != 0 ==> IsHeldByCurrentThread(current) && r == sync.state
      ensures HoldCount.Consistent(sync.Hold()) ==> (r > 0 <==> IsHeldByCurrentThread(current))
    {
      HoldCount.GetHoldCount(sync.Hold(), current)
    }

    /** `isHeldByCurrentThread()` asked by `current`: on a consistent word
        the holder holds a locked lock, with a positive hold count. */
    predicate IsHeldByCurrentThread(current: ThreadId)
      reads sync
      ensures IsHeldByCurrentThread(current) && HoldCount.Consistent(sync.Hold()) ==> IsLocked() && sync.state > 0
    {
      HoldCount.IsHeldExclusively(sync.Hold(), current)
    }

    /** `isLocked()`: on a consistent word, locked exactly when some thread
        owns the lock. */
    predicate IsLocked()
      reads sync
      ensures HoldCount.Consistent(sync.Hold()) ==> (IsLocked() <==> sync.owner.Some?)
    {
      HoldCount.IsLocked(sync.Hold())
    }

    /** `getOwner()`: the owner, reported only while the lock is locked. */
    function GetOwner(): (r: Option<ThreadId>)
      reads sync
      ensures r.Some? ==> IsLocked() && r == sync.owner
      ensures HoldCount.Consistent(sync.Hold()) ==> (r.Some? <==> IsLocked())
    {
      HoldCount.GetOwner(sync.Hold())
    }

    /** `hasQueuedThreads()`. */
    function HasQueuedThreads(): (r: bool)
      requires Valid()
      reads sync
      ensures r <==> |sync.Queue| >= 2
    {
      sync.HasQueuedThreads()
    }

    /** `hasQueuedThread(thread)`: `isQueued(thread)`, so a null `thread` throws. */
    method HasQueuedThread(thread: Option<ThreadId>) returns (r: Result<bool>)
      requires Valid()
      ensures thread.None? <==> r == Err(NullArgument)
      ensures thread.Some? <==> r.Ok?
      ensures r.Ok? ==> (r.value <==> exists k :: 1 <= k < |sync.Queue| && sync.nodes[sync.Queue[k]].thread == thread)
    {
      r := sync.IsQueued(thread);
    }

    /** `getQueueLength()`: the threads waiting behind the head. */
    method GetQueueLength() returns (n: nat)
      requires Valid()
      ensures n == ThreadCount(sync.Queue, sync.nodes)
      ensures sync.Queue != [] ==> n == LiveCount(sync.Queue[1..], sync.nodes)
    {
      n := sync.GetQueueLength();
    }

    /** `hasWaiters(condition)` asked by `current`. */
    method HasWaiters(condition: Condition.ConditionObject?, current: ThreadId) returns (r: Result<bool>)
      requires condition != null ==> condition.Valid()
      ensures condition == null ==> r == Err(NullArgument)
      ensures condition != null && !Condition.Owns(sync, condition) ==> r == Err(NotOwner)
      ensures condition != null && Condition.Owns(sync, condition) ==>
                && (r.Err? <==> !IsHeldByCurrentThread(current))
                && (r.Err? ==> r.failure == IllegalMonitorState)
                && (r.Ok? ==> (r.value <==> Condition.Survivors(condition.Waiters, sync.nodes) != []))
    {
      if condition == null {
        return Err(NullArgument);
      }
      r := Condition.HasWaitersOn(sync, condition, current);
    }

    /** `getWaitQueueLength(condition)` asked by `current`. */
    method GetWaitQueueLength(condition: Condition.ConditionObject?, current: ThreadId) returns (r: Result<int>)
      requires condition != null ==> condition.Valid()
      ensures condition == null ==> r == Err(NullArgument)
      ensures condition != null && !Condition.Owns(sync, condition) ==> r == Err(NotOwner)
      ensures condition != null && Condition.Owns(sync, condition) ==>
                && (r.Err? <==> !IsHeldByCurrentThread(current))
                && (r.Err? ==> r.failure == IllegalMonitorState)
                && (r.Ok? ==> r.value == |Condition.Survivors(condition.Waiters, sync.nodes)|)
    {
      if condition == null {
        return Err(NullArgument);
      }
      r := Condition.GetWaitQueueLengthOn(sync, condition, current);
    }
  }
}
