# NyaReentrantLock and its queued synchronizer, modelled in Dafny

This project models the sequential core of `NyaAbstractQueuedSynchronized` (a copy of the JDK's
AbstractQueuedSynchronizer) and of `NyaReentrantLock` built on it. Every operation is one atomic
step of a single thread. A compare-and-set therefore succeeds exactly when the field holds the
expected value.

- `base.dfy` (module `Base`): `Option`, `Result` with the exceptions the code throws, thread ids,
  and Java `int` wrap-around (`Wrap`).
- `hold_count.dfy` (module `HoldCount`): the lock word (`state` plus the exclusive owner) as a
  state machine. It holds the `tryAcquire`/`tryRelease` hooks of `Sync`, `FairSync` and
  `NonfairSync`, the queries, and the lemmas about runs of acquires and releases.
- `wait_queue.dfy` (module `WaitQueue`): wait nodes in an arena `seq<Node>`, a node being named
  by its index. `SyncOk` is the sync-queue invariant over the ghost list `q` of queued node ids
  from head to tail. `prev` is the authoritative link: every waiter's `prev` names the node
  before it. The head has no thread and no `prev`, and a waiter has its thread exactly until it
  cancels. `next` is a cache that may skip only cancelled nodes. No queued node is in CONDITION
  status. The module also has the spec functions `FirstLive` (the successor `unparkSuccessor`
  must choose) and `ThreadCount`/`LiveCount`, with lemmas that each queue rewrite keeps `SyncOk`.
- `synchronizer.dfy` (module `Aqs`): class `Synchronizer` with fields `state`, `owner`, `head`,
  `tail` and `nodes`, and the ghost `Queue`. Its methods update them in place, the `for(;;)` and
  `while` loops of the source becoming loops with invariants. The policy constant `fair` selects
  between FairSync and NonfairSync.
- `condition.dfy` (module `Condition`): class `ConditionObject` with `firstWaiter`, `lastWaiter`
  and the `nextWaiter` links (a map from node to node), over the synchronizer's arena. The ghost
  list `Waiters` is what the links spell out. `Survivors`, `SignalledFirst` and `SignalledAll`
  specify purging and signalling.
- `reentrant_lock.dfy` (module `ReentrantLock`): class `NyaReentrantLock`, which delegates to its
  synchronizer.

## Model

Paths below are relative to the repository root.

| member | source | states |
|---|---|---|
| Base.Wrap | spring-nya/src/main/java/com/spring/nya/jdk/NyaReentrantLock.java:53-58 | the result is the Java `int` value of the sum: in range, and equal to it modulo 2^32 |
| HoldCount.NonfairTryAcquire | spring-nya/src/main/java/com/spring/nya/jdk/NyaReentrantLock.java:44-61 | a free lock is taken with `acquires` holds and the caller as owner; it is refused, unchanged, exactly when another thread holds it; the owner's reentrant acquire adds to the count and throws MaximumLockCountExceeded exactly when the count leaves the int range, for a non-negative `acquires`; a result other than true leaves the word unchanged |
| HoldCount.FairTryAcquire | spring-nya/src/main/java/com/spring/nya/jdk/NyaReentrantLock.java:148-175 | identical to the non-fair attempt, except that a free lock is refused while `hasQueuedPredecessors()` holds |
| HoldCount.TryRelease | spring-nya/src/main/java/com/spring/nya/jdk/NyaReentrantLock.java:63-74 | a non-owner gets IllegalMonitorState and nothing changes; otherwise the count drops by `releases`, and the result is true exactly when it reaches 0, the owner being cleared exactly then |
| HoldCount.ConsistentQueries | spring-nya/src/main/java/com/spring/nya/jdk/NyaReentrantLock.java:76-98 | on a consistent word, `getOwner` is the owner, `isLocked` holds exactly when an owner is reported, and the hold count is positive exactly for the owner and never exceeds `state` |
| HoldCount.IsHeldExclusively | spring-nya/src/main/java/com/spring/nya/jdk/NyaReentrantLock.java:76-80 | the caller holds the lock when it is the owner; on a consistent word the lock is then locked |
| HoldCount.SingleHolder | spring-nya/src/main/java/com/spring/nya/jdk/NyaReentrantLock.java:76-80 | exclusivity: no two threads hold the lock at once |
| HoldCount.GetOwner | spring-nya/src/main/java/com/spring/nya/jdk/NyaReentrantLock.java:88-90 | an owner is reported only while the lock is locked, and it is the thread holding it; on a consistent word it is exactly the owner field |
| HoldCount.GetHoldCount | spring-nya/src/main/java/com/spring/nya/jdk/NyaReentrantLock.java:92-94 | a non-zero count is reported only to the holder and is then `state`; anyone else gets 0; on a consistent word the count is positive exactly for the holder |
| HoldCount.IsLocked | spring-nya/src/main/java/com/spring/nya/jdk/NyaReentrantLock.java:96-98 | on a consistent word, locked exactly when some thread owns the lock |
| HoldCount.OtherOwnerExcluded | spring-nya/src/main/java/com/spring/nya/jdk/NyaReentrantLock.java:44-74 | while one thread holds the lock, another's acquire (either policy) returns false and its release throws IllegalMonitorState, all leaving the word unchanged |
| HoldCount.ReentrantIgnoresQueue | spring-nya/src/main/java/com/spring/nya/jdk/NyaReentrantLock.java:164-172 | the owner's reentrant acquire gives the same step under both policies, whatever the queue holds |
| HoldCount.StepsKeepConsistent | spring-nya/src/main/java/com/spring/nya/jdk/NyaReentrantLock.java:44-74 | acquiring one hold (either policy), releasing one, and releasing the whole count all keep the word consistent (count in range, owner set exactly when the count is positive) |
| HoldCount.AcquiresByOwner | spring-nya/src/main/java/com/spring/nya/jdk/NyaReentrantLock.java:44-61 | from a free lock or one held by `t`, `n` acquires by `t` all return true and add `n` holds, while the count stays in range |
| HoldCount.PartialReleases | spring-nya/src/main/java/com/spring/nya/jdk/NyaReentrantLock.java:63-74 | from `k` holds, `n < k` releases all return false and leave `k - n` holds with the same owner |
| HoldCount.ReentrancyRoundTrip | spring-nya/src/main/java/com/spring/nya/jdk/NyaReentrantLock.java:44-74 | `n` acquires by one thread from free give `n` holds (hold count `n`); `n` releases then return false `n - 1` times, then true, and leave the lock free |
| Aqs.Synchronizer.constructor | spring-nya/src/main/java/com/spring/nya/jdk/NyaAbstractQueuedSynchronized.java:48 | a new synchronizer is free, with no queue and no nodes |
| Aqs.Synchronizer.CompareAndSetState | spring-nya/src/main/java/com/spring/nya/jdk/NyaAbstractQueuedSynchronized.java:313-316 | succeeds exactly when `state` is the expected value, and then writes the update |
| Aqs.Synchronizer.NonfairTryAcquire | spring-nya/src/main/java/com/spring/nya/jdk/NyaReentrantLock.java:44-61 | the result and the new lock word are those of `HoldCount.NonfairTryAcquire` |
| Aqs.Synchronizer.FairTryAcquire | spring-nya/src/main/java/com/spring/nya/jdk/NyaReentrantLock.java:148-175 | the result and the new word are those of `HoldCount.FairTryAcquire`, with the live answer of `hasQueuedPredecessors` |
| Aqs.Synchronizer.TryAcquire | spring-nya/src/main/java/com/spring/nya/jdk/NyaReentrantLock.java:128-130 | runs the hook of the synchronizer's policy; success leaves the caller as owner, and any other result leaves the word unchanged; only the owner can see the overflow error |
| Aqs.Synchronizer.TryRelease | spring-nya/src/main/java/com/spring/nya/jdk/NyaReentrantLock.java:63-74 | the result and the new word are those of `HoldCount.TryRelease` |
| Aqs.Synchronizer.HasQueuedThreads | spring-nya/src/main/java/com/spring/nya/jdk/NyaAbstractQueuedSynchronized.java:1187-1189 | true exactly when a node is queued behind the head |
| Aqs.Synchronizer.HasQueuedPredecessors | spring-nya/src/main/java/com/spring/nya/jdk/NyaAbstractQueuedSynchronized.java:1338-1431 | false for an empty or head-only queue |
| Aqs.Synchronizer.NoPredecessorAhead | spring-nya/src/main/java/com/spring/nya/jdk/NyaAbstractQueuedSynchronized.java:1429-1430 | when the answer is false, the first live waiter, if any, is the caller's own node |
| Aqs.Synchronizer.CompareAndSetWaitStatus | spring-nya/src/main/java/com/spring/nya/jdk/NyaAbstractQueuedSynchronized.java:2210-2215 | succeeds exactly when the node's status is the expected value, and then writes only that status; the queue invariant is kept |
| Aqs.Synchronizer.Enq | spring-nya/src/main/java/com/spring/nya/jdk/NyaAbstractQueuedSynchronized.java:332-364 | on an empty queue, first installs a fresh sentinel as head and tail; then appends the node after the old tail (node.prev and tail.next set, tail = node) and returns the old tail; no other node changes |
| Aqs.Synchronizer.InstallHead | spring-nya/src/main/java/com/spring/nya/jdk/NyaAbstractQueuedSynchronized.java:338-346 | the queue becomes the single new sentinel, appended to the arena, with head == tail |
| Aqs.Synchronizer.LinkAfterTail | spring-nya/src/main/java/com/spring/nya/jdk/NyaAbstractQueuedSynchronized.java:382-390 | the node goes after the current tail with both links set; the old tail is returned |
| Aqs.Synchronizer.AddWaiter | spring-nya/src/main/java/com/spring/nya/jdk/NyaAbstractQueuedSynchronized.java:372-395 | a new node with the caller's thread and status 0 becomes the tail, linked both ways to its predecessor; a sentinel is created first on an empty queue; the arena is exactly the old one with the new node (and sentinel) appended and the old tail's `next` set, nothing else changing |
| Aqs.Synchronizer.SetHead | spring-nya/src/main/java/com/spring/nya/jdk/NyaAbstractQueuedSynchronized.java:404-408 | the first waiter becomes head with its thread and prev cleared; the old head leaves the queue |
| Aqs.Synchronizer.UnparkSuccessor | spring-nya/src/main/java/com/spring/nya/jdk/NyaAbstractQueuedSynchronized.java:415-440 | a negative status of the node is reset to 0, and the thread woken is that of the first non-cancelled node after it (`FirstLive`), whether it was found through `next` or by the scan from the tail |
| Aqs.Synchronizer.Successor | spring-nya/src/main/java/com/spring/nya/jdk/NyaAbstractQueuedSynchronized.java:431-437 | the successor choice alone is `FirstLive` after the node |
| Aqs.ScanFromTail | spring-nya/src/main/java/com/spring/nya/jdk/NyaAbstractQueuedSynchronized.java:434-436 | the backward scan from the tail finds the non-cancelled node nearest after the given node, or none |
| WaitQueue.NextIsFirstLive | spring-nya/src/main/java/com/spring/nya/jdk/NyaAbstractQueuedSynchronized.java:431-432 | a non-null, non-cancelled `next` is exactly the node the backward scan would find |
| Aqs.Synchronizer.ShouldParkAfterFailedAcquire | spring-nya/src/main/java/com/spring/nya/jdk/NyaAbstractQueuedSynchronized.java:572-598 | returns true exactly when pred is SIGNAL, changing nothing; a cancelled pred is skipped back to the nearest live predecessor, which is linked both ways with the node, the skipped run leaving the queue; otherwise pred is set to SIGNAL; a false result strictly lowers the predecessor's rank (cancelled, other, SIGNAL) |
| Aqs.Synchronizer.BehindSignal | spring-nya/src/main/java/com/spring/nya/jdk/NyaAbstractQueuedSynchronized.java:573-579 | behind a SIGNAL predecessor the node waits for a signal and the queue is unchanged |
| Aqs.Synchronizer.SkipAndRelink | spring-nya/src/main/java/com/spring/nya/jdk/NyaAbstractQueuedSynchronized.java:580-588 | node.prev moves to the nearest live predecessor, every node skipped is cancelled, that predecessor's `next` becomes the node, and the skipped run leaves the queue |
| Aqs.Synchronizer.AskForSignal | spring-nya/src/main/java/com/spring/nya/jdk/NyaAbstractQueuedSynchronized.java:589-596 | a live, non-SIGNAL predecessor is set to SIGNAL and nothing else changes |
| Aqs.WalkBack | spring-nya/src/main/java/com/spring/nya/jdk/NyaAbstractQueuedSynchronized.java:527-529 | the loop `node.prev = pred = pred.prev` stops at the nearest non-cancelled predecessor, having passed only cancelled nodes |
| Aqs.Synchronizer.SkipCancelledPredecessors | spring-nya/src/main/java/com/spring/nya/jdk/NyaAbstractQueuedSynchronized.java:527-529 | node.prev names the nearest live predecessor and the cancelled run between them leaves the queue |
| Aqs.Synchronizer.CancelAcquire | spring-nya/src/main/java/com/spring/nya/jdk/NyaAbstractQueuedSynchronized.java:519-561 | a null node is a no-op; otherwise the node ends CANCELLED with no thread and prev past the cancelled predecessors; if it was the tail, the tail retracts to that predecessor, whose `next` becomes null; otherwise the node links to itself, and either the predecessor (not the head) is left as SIGNAL or, behind the head, the first live successor is woken; the whole new arena is given (`CancelledTail` or `CancelledInner`), so no other node changes |
| Aqs.Synchronizer.Unsplice | spring-nya/src/main/java/com/spring/nya/jdk/NyaAbstractQueuedSynchronized.java:539-560 | the tail case and the middle case of `cancelAcquire` after the predecessor walk, with the same outcome and the exact new arena (`CancelledTail`, `CancelledInner`) |
| Aqs.Synchronizer.HandOff | spring-nya/src/main/java/com/spring/nya/jdk/NyaAbstractQueuedSynchronized.java:547-559 | a predecessor other than the head becomes SIGNAL and takes over the node's live `next` when its own `next` still names the node; behind the head the first live successor is woken instead; the node's `next` becomes itself |
| Aqs.Synchronizer.SetNext | spring-nya/src/main/java/com/spring/nya/jdk/NyaAbstractQueuedSynchronized.java:2220-2224 | writes only the node's `next` field, keeping the queue invariant |
| Aqs.Synchronizer.AcquireQueued | spring-nya/src/main/java/com/spring/nya/jdk/NyaAbstractQueuedSynchronized.java:642-696 | the loop ends in one of three ways. Acquired happens only at the front, when every waiter ahead had cancelled. The word is then what `tryAcquire` grants (`NonfairTryAcquire(old word) == Step(Ok(true), word)`), the node is head, and the queue is the old one from the node on. Only the node (thread and prev cleared) and the old head (`next` cleared) change in the arena. Parked leaves the word unchanged, with the node waiting behind a SIGNAL predecessor. Only the node's `prev` and that predecessor (`next`, and a status `<= 0`) changed, and the queue is the old one minus a cancelled run before the node. Failed is the owner's overflow error: the node ends cancelled with no thread, the first live waiter is reported woken, and only the node and the old head changed |
| Aqs.Synchronizer.FrontRound | spring-nya/src/main/java/com/spring/nya/jdk/NyaAbstractQueuedSynchronized.java:663-675 | `TryFront` measured against the arena the loop started from: on success only the node and the first old node change, the node losing thread and prev and the old head its `next`; on a throw only those two nodes change |
| Aqs.Synchronizer.AcquireRound | spring-nya/src/main/java/com/spring/nya/jdk/NyaAbstractQueuedSynchronized.java:651-690 | one iteration, measured against the arena the loop started from. It ends in the same three outcomes, with the same word, queue and arena frames, or it starts another round, still waiting with a strictly smaller predecessor rank (the termination measure) |
| Aqs.Synchronizer.TryFront | spring-nya/src/main/java/com/spring/nya/jdk/NyaAbstractQueuedSynchronized.java:663-675 | behind the head, a successful `tryAcquire` leaves the word `tryAcquire` grants and makes the node head. The new arena is exactly `HeadTaken`: the node without thread and prev, the old head without `next`. A throw cancels the node (the overflow of the owner's count). The new arena is then exactly `CancelledTail` or `CancelledInner`, and the first live waiter is reported woken by that cancellation. A refusal changes nothing |
| Aqs.Synchronizer.TryAcquireWaiting | spring-nya/src/main/java/com/spring/nya/jdk/NyaAbstractQueuedSynchronized.java:663 | the `tryAcquire(arg)` of a queued waiter: a success leaves the word `tryAcquire` grants; a refusal or a throw (only the owner's overflow) leaves the waiter waiting with the word unchanged |
| Aqs.Synchronizer.FailFront | spring-nya/src/main/java/com/spring/nya/jdk/NyaAbstractQueuedSynchronized.java:663-694 | when the first waiter's `tryAcquire` throws, the node is cancelled through `cancelAcquire` and the word is unchanged. The queue loses the node only if it was the tail, and the new arena is exactly `CancelledTail` (tail) or `CancelledInner` (otherwise). The round fails, reporting the first live waiter as woken |
| Aqs.Synchronizer.TakeHead | spring-nya/src/main/java/com/spring/nya/jdk/NyaAbstractQueuedSynchronized.java:670-671 | `setHead(node)` and `p.next = null`: the node is head with thread and prev cleared, and the old head's `next` is null |
| Aqs.Synchronizer.TakeFront | spring-nya/src/main/java/com/spring/nya/jdk/NyaAbstractQueuedSynchronized.java:670-671 | the first waiter, all of whose predecessors up to the head had cancelled, becomes the head; the word is unchanged, the queue is the original queue from the node onwards, and the new arena is exactly `HeadTaken` of the old one |
| Aqs.Synchronizer.GiveUp | spring-nya/src/main/java/com/spring/nya/jdk/NyaAbstractQueuedSynchronized.java:692-694 | the first waiter is cancelled with its thread cleared; a tail node leaves the queue, any other stays, linked to itself; the new arena is exact, and the node woken is the first live waiter behind the head |
| Aqs.Synchronizer.ParkRound | spring-nya/src/main/java/com/spring/nya/jdk/NyaAbstractQueuedSynchronized.java:687-690 | after `shouldParkAfterFailedAcquire` the node still waits. It parks exactly when the predecessor was SIGNAL, and then nothing changed. A live predecessor that was not SIGNAL becomes SIGNAL and nothing else changes. A cancelled one is skipped: the node's `prev` and the new predecessor's `next` are relinked, and no other node changes. Without a park the predecessor's rank strictly drops |
| Aqs.Synchronizer.Acquire | spring-nya/src/main/java/com/spring/nya/jdk/NyaAbstractQueuedSynchronized.java:1016-1027 | a successful first `tryAcquire` returns Acquired with that hook's new word, the queue untouched. A failure can only be that first `tryAcquire` throwing, which queues nothing and wakes nobody. Any success leaves the word `tryAcquire` grants (`NonfairTryAcquire(old word)`). Otherwise the caller is queued with a new node, and there are two outcomes. It acquires only when every old waiter had cancelled, leaving its node the only one, a blank head (`AcquiredAfterJoin`). Or it parks behind the last live old waiter, only that waiter and the old tail having changed (`ParkedAfterJoin`) |
| Aqs.Synchronizer.JoinQueue | spring-nya/src/main/java/com/spring/nya/jdk/NyaAbstractQueuedSynchronized.java:372-395 | the `addWaiter(EXCLUSIVE)` of `acquire`: the queue is the old one (or a fresh sentinel) followed by the caller's new node, which links back to the old tail; no old node but the old tail changed, and that one only in its `next` |
| Aqs.Synchronizer.QueueAndAcquire | spring-nya/src/main/java/com/spring/nya/jdk/NyaAbstractQueuedSynchronized.java:1025 | `acquireQueued(addWaiter(EXCLUSIVE), arg)`. An acquire leaves the word `tryAcquire` grants, with the new node the only node, a blank head, every old waiter having cancelled (`AcquiredAfterJoin`). A park leaves the queue as the old one cut after its last live node, then the new node. The new node is linked back to that predecessor, and no other old node but the old tail changed (`ParkedAfterJoin`). A failure keeps the word, wakes the first live waiter, and changes only the old head and tail |
| Aqs.Synchronizer.Lock | spring-nya/src/main/java/com/spring/nya/jdk/NyaReentrantLock.java:121-126 | non-fair: a free lock is taken at once with one hold, whoever is queued. Both policies (the fair one being `acquire(1)`, lines 140-142) then behave as `acquire(1)`: the word after any success is what `tryAcquire(1)` grants, the queued exits are `AcquiredAfterJoin` and `ParkedAfterJoin`, and a failure leaves queue and arena untouched |
| Aqs.Synchronizer.Release | spring-nya/src/main/java/com/spring/nya/jdk/NyaAbstractQueuedSynchronized.java:1086-1094 | returns exactly `tryRelease`'s result and word; a successor is woken exactly when the lock became free and the head exists with a non-zero status; then the head's status is reset to 0 and the thread woken is the first live waiter, and otherwise no node changes |
| Aqs.Synchronizer.FullyRelease | spring-nya/src/main/java/com/spring/nya/jdk/NyaAbstractQueuedSynchronized.java:1629-1643 | the owner gets back the count it held, and the lock is free (waking as `release` does); anyone else gets IllegalMonitorState, with the word unchanged and the condition node CANCELLED |
| Aqs.Synchronizer.GetQueueLength | spring-nya/src/main/java/com/spring/nya/jdk/NyaAbstractQueuedSynchronized.java:1446-1453 | the number of queued nodes with a thread, which is the number of non-cancelled waiters behind the head |
| Aqs.CountThreads | spring-nya/src/main/java/com/spring/nya/jdk/NyaAbstractQueuedSynchronized.java:1448-1451 | the loop over `prev` from the tail counts exactly the queued nodes with a thread |
| WaitQueue.QueuedThreads | spring-nya/src/main/java/com/spring/nya/jdk/NyaAbstractQueuedSynchronized.java:1446-1453 | on a valid queue, the nodes with a thread are exactly the live waiters behind the head |
| Aqs.Synchronizer.IsQueued | spring-nya/src/main/java/com/spring/nya/jdk/NyaAbstractQueuedSynchronized.java:1269-1276 | a null thread throws NullPointerException, and only then; otherwise true exactly when some waiter behind the head carries the thread |
| Aqs.FindThread | spring-nya/src/main/java/com/spring/nya/jdk/NyaAbstractQueuedSynchronized.java:1272-1275 | the loop over `prev` from the tail finds the thread exactly when a waiter carries it |
| Aqs.Synchronizer.IsOnSyncQueue | spring-nya/src/main/java/com/spring/nya/jdk/NyaAbstractQueuedSynchronized.java:1541-1555 | true exactly for a queued node other than the head, or an off-queue node still holding both links (a cancelled leftover); for a live node, exactly when it waits on the sync queue |
| Aqs.Synchronizer.FindNodeFromTail | spring-nya/src/main/java/com/spring/nya/jdk/NyaAbstractQueuedSynchronized.java:1562-1571 | true exactly when the node is on the queue |
| Aqs.FindFromTail | spring-nya/src/main/java/com/spring/nya/jdk/NyaAbstractQueuedSynchronized.java:1564-1570 | the loop over `prev` from the tail reaches the node exactly when it is queued |
| Aqs.Synchronizer.TransferForSignal | spring-nya/src/main/java/com/spring/nya/jdk/NyaAbstractQueuedSynchronized.java:1580-1598 | fails, changing nothing, exactly when the node is not CONDITION. Otherwise the node gets status 0 and is enqueued at the tail, and its predecessor is set to SIGNAL unless it has cancelled. The new arena is exactly `SignalledArena`, and the node's own thread is woken exactly when that predecessor has cancelled |
| Aqs.Synchronizer.EnqSignalled | spring-nya/src/main/java/com/spring/nya/jdk/NyaAbstractQueuedSynchronized.java:1593-1596 | the enqueue-then-signal half of `transferForSignal`: the arena becomes exactly `SignalledArena` of the one before the reset, and the node is woken exactly when the old tail has cancelled |
| Aqs.Synchronizer.EnqLast | spring-nya/src/main/java/com/spring/nya/jdk/NyaAbstractQueuedSynchronized.java:1593 | `enq` of a node just reset from CONDITION, stated against the arena before the reset: the node is last, behind the returned old tail (or new sentinel), and the arena is exactly `EnqueuedArena` |
| Aqs.Synchronizer.SignalOrWake | spring-nya/src/main/java/com/spring/nya/jdk/NyaAbstractQueuedSynchronized.java:1594-1596 | a live predecessor is CASed to SIGNAL and nothing is woken; a cancelled one is left alone and the node itself is woken |
| WaitQueue.EnqueuedArenaIs | spring-nya/src/main/java/com/spring/nya/jdk/NyaAbstractQueuedSynchronized.java:1593 | `enq` of an off-queue node changes exactly two old nodes: the node (status 0, prev the old tail) and the old tail or sentinel (`next` the node) |
| WaitQueue.SignalledArenaIs | spring-nya/src/main/java/com/spring/nya/jdk/NyaAbstractQueuedSynchronized.java:1593-1596 | after `transferForSignal` the predecessor is SIGNAL exactly when the old tail had not cancelled, and no other old node but the node and its predecessor changed |
| Aqs.Synchronizer.TransferAfterCancelledWait | spring-nya/src/main/java/com/spring/nya/jdk/NyaAbstractQueuedSynchronized.java:1607-1621 | true exactly when the node was still CONDITION, in which case it is enqueued with status 0 and the arena becomes exactly `EnqueuedArena`; false changes nothing |
| Aqs.Synchronizer.NewConditionNode | spring-nya/src/main/java/com/spring/nya/jdk/NyaAbstractQueuedSynchronized.java:1765 | a new CONDITION node carrying the caller's thread is appended to the arena |
| WaitQueue.AppendKeeps | spring-nya/src/main/java/com/spring/nya/jdk/NyaAbstractQueuedSynchronized.java:352-360 | appending a node after the tail keeps the queue invariant |
| WaitQueue.InitKeeps | spring-nya/src/main/java/com/spring/nya/jdk/NyaAbstractQueuedSynchronized.java:338-346 | a fresh sentinel as head and tail forms a valid queue |
| WaitQueue.SetHeadKeeps | spring-nya/src/main/java/com/spring/nya/jdk/NyaAbstractQueuedSynchronized.java:404-408 | making a live first waiter head, with thread and prev cleared, keeps the invariant |
| WaitQueue.SkipRelinkKeeps | spring-nya/src/main/java/com/spring/nya/jdk/NyaAbstractQueuedSynchronized.java:585-588 | dropping a run of cancelled nodes and linking the two sides both ways keeps the invariant |
| WaitQueue.CancelKeeps | spring-nya/src/main/java/com/spring/nya/jdk/NyaAbstractQueuedSynchronized.java:524-539 | cancelling a waiter and clearing its thread keeps the invariant |
| WaitQueue.CancelTailKeeps | spring-nya/src/main/java/com/spring/nya/jdk/NyaAbstractQueuedSynchronized.java:542-543 | retracting the tail past a cancelled last node, with a null `next` on the new tail, keeps the invariant |
| WaitQueue.SignalHandOffKeeps | spring-nya/src/main/java/com/spring/nya/jdk/NyaAbstractQueuedSynchronized.java:548-559 | a SIGNAL predecessor taking over a cancelled node's live `next`, followed by the self-link, keeps the invariant |
| WaitQueue.SelfLinkKeeps | spring-nya/src/main/java/com/spring/nya/jdk/NyaAbstractQueuedSynchronized.java:559 | a dead node's self-link keeps the invariant and does not change any successor choice |
| WaitQueue.ThreadCountIsLiveCount | spring-nya/src/main/java/com/spring/nya/jdk/NyaAbstractQueuedSynchronized.java:1446-1453 | where a thread is present exactly on non-cancelled nodes, counting threads equals counting live nodes |
| Condition.ConditionObject.constructor | spring-nya/src/main/java/com/spring/nya/jdk/NyaAbstractQueuedSynchronized.java:1750 | a new condition is empty and bound to its synchronizer |
| Condition.ConditionObject.AddConditionWaiter | spring-nya/src/main/java/com/spring/nya/jdk/NyaAbstractQueuedSynchronized.java:1758-1772 | if the last waiter is no longer CONDITION, the list is purged first; a new CONDITION node with the caller's thread is then appended as `lastWaiter`; the still-waiting nodes are the old ones followed by the new node |
| Condition.ConditionObject.LinkWaiter | spring-nya/src/main/java/com/spring/nya/jdk/NyaAbstractQueuedSynchronized.java:1766-1770 | the node is appended to the list, becoming `firstWaiter` if the list was empty |
| Condition.ConditionObject.UnlinkCancelledWaiters | spring-nya/src/main/java/com/spring/nya/jdk/NyaAbstractQueuedSynchronized.java:1817-1835 | the list becomes exactly its still-CONDITION nodes, in order, and `lastWaiter` is the last of them (null if none) |
| Condition.ConditionObject.Unlink | spring-nya/src/main/java/com/spring/nya/jdk/NyaAbstractQueuedSynchronized.java:1822-1829 | removes one non-CONDITION node from the list, keeping the set of waiting nodes and the links around it |
| Condition.SurvivorsIdempotent | spring-nya/src/main/java/com/spring/nya/jdk/NyaAbstractQueuedSynchronized.java:1817-1835 | purging twice is purging once |
| Condition.SurvivorsMembers | spring-nya/src/main/java/com/spring/nya/jdk/NyaAbstractQueuedSynchronized.java:1817-1835 | a node survives the purge exactly when it is on the list and still CONDITION |
| Condition.SurvivorsAppend | spring-nya/src/main/java/com/spring/nya/jdk/NyaAbstractQueuedSynchronized.java:1758-1772 | the survivors of a list plus one node are the old survivors, plus that node if it is waiting |
| Condition.AddedSurvivors | spring-nya/src/main/java/com/spring/nya/jdk/NyaAbstractQueuedSynchronized.java:1758-1772 | whether or not the list was purged first, the waiting nodes after the append are the old ones plus the new node |
| Condition.SignalIndex | spring-nya/src/main/java/com/spring/nya/jdk/NyaAbstractQueuedSynchronized.java:1780-1787 | the position of the first waiter still CONDITION: every waiter before it is not, and it is (or the list length) |
| Condition.SignalIndexIsFirstSurvivor | spring-nya/src/main/java/com/spring/nya/jdk/NyaAbstractQueuedSynchronized.java:1780-1787 | `doSignal` finds a node exactly when some waiter survives, and the node it finds is the first survivor |
| Condition.ConditionObject.DoSignal | spring-nya/src/main/java/com/spring/nya/jdk/NyaAbstractQueuedSynchronized.java:1780-1787 | waiters are popped from the front up to and including the first one whose transfer succeeds (`SignalIndex`). That one alone is enqueued on the sync queue, and the new arena is exactly `SignalledArena` for it. The node woken is that one exactly when the old tail had cancelled |
| Condition.ConditionObject.SignalRound | spring-nya/src/main/java/com/spring/nya/jdk/NyaAbstractQueuedSynchronized.java:1781-1786 | one pop and transfer attempt, ending the loop exactly on success or an empty list; on success the waiter is the first survivor and is woken exactly when the old tail had cancelled |
| Condition.ConditionObject.TransferFirst | spring-nya/src/main/java/com/spring/nya/jdk/NyaAbstractQueuedSynchronized.java:1785 | the `transferForSignal(first)` of a round: succeeds exactly when the waiter still waits, and then `doSignal` is done with the result `SignalledFirst`; otherwise nothing changes |
| Condition.ConditionObject.PopWaiter | spring-nya/src/main/java/com/spring/nya/jdk/NyaAbstractQueuedSynchronized.java:1782-1784 | the first waiter leaves the list, `lastWaiter` becoming null when the list empties |
| Condition.ConditionObject.DoSignalAll | spring-nya/src/main/java/com/spring/nya/jdk/NyaAbstractQueuedSynchronized.java:1793-1801 | the list becomes empty, and every waiter still CONDITION is enqueued on the sync queue in list order; the new arena is exactly the fold `SignalledAllArena` of those transfers, so no node but them and the old tail changes, and no node of the list is left CONDITION |
| Condition.ConditionObject.ClearList | spring-nya/src/main/java/com/spring/nya/jdk/NyaAbstractQueuedSynchronized.java:1794 | `lastWaiter = firstWaiter = null`: the list is emptied, and the nodes it held stay threaded through `nextWaiter`, distinct and in the arena, for the transfer loop |
| Condition.ConditionObject.SignalAllRound | spring-nya/src/main/java/com/spring/nya/jdk/NyaAbstractQueuedSynchronized.java:1796-1800 | one pass of the loop: the next waiter is detached and transferred, and after the last one the whole list is signalled (`SignalledAll`) |
| Condition.SignalledAllKeeps | spring-nya/src/main/java/com/spring/nya/jdk/NyaAbstractQueuedSynchronized.java:1793-1801 | transferring a run of waiters changes no old node of the arena but those waiters and the old tail of the sync queue |
| Condition.SignalledAllSnoc | spring-nya/src/main/java/com/spring/nya/jdk/NyaAbstractQueuedSynchronized.java:1798 | transferring one more waiter, or skipping one that no longer waits, extends the arena fold `SignalledAllArena` by exactly that step |
| Condition.ConditionObject.TransferRound | spring-nya/src/main/java/com/spring/nya/jdk/NyaAbstractQueuedSynchronized.java:1798 | one loop step: the waiter is transferred if it still waits, extending the enqueued prefix and its arena fold by one |
| Condition.ConditionObject.Detach | spring-nya/src/main/java/com/spring/nya/jdk/NyaAbstractQueuedSynchronized.java:1796-1797 | reads `next` and clears the node's `nextWaiter`, leaving the rest of the list linked |
| Condition.QueuedNotWaiting | spring-nya/src/main/java/com/spring/nya/jdk/NyaAbstractQueuedSynchronized.java:1541-1543 | on a valid sync queue, no queued node is CONDITION, so a node waiting on a condition is never on the sync queue |
| Condition.ConditionObject.Signal | spring-nya/src/main/java/com/spring/nya/jdk/NyaAbstractQueuedSynchronized.java:1847-1853 | throws IllegalMonitorState, changing nothing, exactly when the caller does not hold the lock; otherwise behaves as `doSignal` on the list (nothing on an empty one), transferring the first survivor, whose thread is reported woken exactly when the old tail had cancelled |
| Condition.ConditionObject.SignalAll | spring-nya/src/main/java/com/spring/nya/jdk/NyaAbstractQueuedSynchronized.java:1862-1868 | throws IllegalMonitorState, changing nothing, exactly when the caller does not hold the lock; otherwise behaves as `doSignalAll` |
| Condition.ConditionObject.HasWaiters | spring-nya/src/main/java/com/spring/nya/jdk/NyaAbstractQueuedSynchronized.java:2107-2115 | IllegalMonitorState exactly when the caller does not hold the lock; otherwise true exactly when some waiter is still CONDITION |
| Condition.ConditionObject.GetWaitQueueLength | spring-nya/src/main/java/com/spring/nya/jdk/NyaAbstractQueuedSynchronized.java:2126-2135 | IllegalMonitorState exactly when the caller does not hold the lock; otherwise the number of waiters still CONDITION |
| Condition.InterruptMode | spring-nya/src/main/java/com/spring/nya/jdk/NyaAbstractQueuedSynchronized.java:1911-1915 | 0 exactly when not interrupted; THROW_IE exactly when interrupted and cancelled before a signal; REINTERRUPT exactly when interrupted after a signal |
| Condition.ConditionObject.CheckInterruptWhileWaiting | spring-nya/src/main/java/com/spring/nya/jdk/NyaAbstractQueuedSynchronized.java:1911-1915 | the mode is `InterruptMode` of the interrupt flag and of whether the node was still CONDITION; only THROW_IE moves the node to the sync queue, the arena becoming exactly `EnqueuedArena`; otherwise nothing changes |
| Condition.HasWaitersOn | spring-nya/src/main/java/com/spring/nya/jdk/NyaAbstractQueuedSynchronized.java:1675-1679 | a condition of another synchronizer is refused with "not owner"; otherwise it answers as the condition's `hasWaiters` |
| Condition.OwnerUnique | spring-nya/src/main/java/com/spring/nya/jdk/NyaAbstractQueuedSynchronized.java:1655-1657 | `owns(condition)` holds for the synchronizer the condition belongs to, and for no two different synchronizers |
| Condition.ConditionObject.OwnedOnlyBySync | spring-nya/src/main/java/com/spring/nya/jdk/NyaAbstractQueuedSynchronized.java:2095-2097 | `isOwnedBy(s)` holds for the synchronizer that made the condition and is false for every other |
| Condition.GetWaitQueueLengthOn | spring-nya/src/main/java/com/spring/nya/jdk/NyaAbstractQueuedSynchronized.java:1697-1701 | a condition of another synchronizer is refused with "not owner"; otherwise it answers as the condition's `getWaitQueueLength` |
| ReentrantLock.NyaReentrantLock.constructor | spring-nya/src/main/java/com/spring/nya/jdk/NyaReentrantLock.java:182-184 | the default lock is non-fair, free and has nobody queued |
| ReentrantLock.NyaReentrantLock.WithPolicy | spring-nya/src/main/java/com/spring/nya/jdk/NyaReentrantLock.java:192-194 | `isFair()` is the policy chosen |
| ReentrantLock.NyaReentrantLock.FairPolicy | spring-nya/src/main/java/com/spring/nya/jdk/NyaReentrantLock.java:524-526 | what `isFair()` answers (the policy `WithPolicy` sets) decides how a free lock is handed out: it is refused only under the fair policy and only to a thread with a queued predecessor, and the refusal is a plain false |
| ReentrantLock.NyaReentrantLock.Lock | spring-nya/src/main/java/com/spring/nya/jdk/NyaReentrantLock.java:196-212 | as `Sync.lock`: a non-fair lock takes a free lock at once, and a successful try yields the hook's new word with the queue untouched. Any success means the caller holds the lock with the word `tryAcquire(1)` grants, so a lock that was free is held once. A queued success leaves the new node as the only one (`AcquiredAfterJoin`). Otherwise the caller parks behind the last live waiter (`ParkedAfterJoin`), or it gets the overflow error with word, queue and arena unchanged and nobody woken |
| ReentrantLock.NyaReentrantLock.TryLock | spring-nya/src/main/java/com/spring/nya/jdk/NyaReentrantLock.java:290-292 | always the non-fair attempt, even on a fair lock: a free lock is always taken, with hold count 1 |
| ReentrantLock.NyaReentrantLock.Unlock | spring-nya/src/main/java/com/spring/nya/jdk/NyaReentrantLock.java:382-384 | a non-owner gets IllegalMonitorState and nothing changes; otherwise one hold is released; a thread is woken exactly when the lock became free and the head's status was non-zero, that status is reset to 0 and the thread is the first live waiter; otherwise no node changes |
| ReentrantLock.NyaReentrantLock.NewCondition | spring-nya/src/main/java/com/spring/nya/jdk/NyaReentrantLock.java:425-427 | a fresh, empty condition owned by this lock's synchronizer |
| ReentrantLock.NyaReentrantLock.GetHoldCount | spring-nya/src/main/java/com/spring/nya/jdk/NyaReentrantLock.java:458-460 | non-zero only for the owner, and then the count; on a consistent word, positive exactly for the owner |
| ReentrantLock.NyaReentrantLock.GetOwner | spring-nya/src/main/java/com/spring/nya/jdk/NyaReentrantLock.java:541-543 | an owner is reported only while locked; on a consistent word, exactly while locked |
| ReentrantLock.NyaReentrantLock.IsHeldByCurrentThread | spring-nya/src/main/java/com/spring/nya/jdk/NyaReentrantLock.java:503-505 | `sync.isHeldExclusively()` for the caller; on a consistent word the holder holds a locked lock with a positive count (the success exits of `Lock` and `TryLock` establish it) |
| ReentrantLock.NyaReentrantLock.IsLocked | spring-nya/src/main/java/com/spring/nya/jdk/NyaReentrantLock.java:515-517 | `sync.isLocked()`; on a consistent word, locked exactly when some thread owns the lock |
| ReentrantLock.NyaReentrantLock.HasQueuedThreads | spring-nya/src/main/java/com/spring/nya/jdk/NyaReentrantLock.java:555-557 | true exactly when a node is queued behind the head |
| ReentrantLock.NyaReentrantLock.HasQueuedThread | spring-nya/src/main/java/com/spring/nya/jdk/NyaReentrantLock.java:570-572 | a null thread throws NullPointerException, and only then; otherwise true exactly when a waiter behind the head carries the thread |
| ReentrantLock.NyaReentrantLock.GetQueueLength | spring-nya/src/main/java/com/spring/nya/jdk/NyaReentrantLock.java:584-586 | the number of live waiters behind the head |
| ReentrantLock.NyaReentrantLock.HasWaiters | spring-nya/src/main/java/com/spring/nya/jdk/NyaReentrantLock.java:618-624 | a null condition throws NullPointerException; otherwise it answers as the synchronizer's `hasWaiters(condition)` |
| ReentrantLock.NyaReentrantLock.GetWaitQueueLength | spring-nya/src/main/java/com/spring/nya/jdk/NyaReentrantLock.java:641-647 | a null condition throws NullPointerException; otherwise it answers as the synchronizer's `getWaitQueueLength(condition)` |

## Left out

- Concurrency: interleavings, lost CAS races and the lock-free linearizability argument. Every
  method is one atomic step of one thread, so each CAS retry loop runs at most once per branch.
- Blocking: `LockSupport.park`/`unpark`. A park ends the model's run, as the outcome `Parked`
  with the node waiting behind a SIGNAL predecessor. A wake-up is returned as the node whose
  thread would be unparked.
- Interrupts and time: `Thread.interrupted` is an input of `CheckInterruptWhileWaiting`. Also left
  out: `selfInterrupt`, `lockInterruptibly`, `tryLock(timeout)`, `acquireInterruptibly`,
  `tryAcquireNanos`, `doAcquireInterruptibly`, `doAcquireNanos`, and the `await` family. Only
  `checkInterruptWhileWaiting` and the steps `await` is built from (`addConditionWaiter`,
  `fullyRelease`, `isOnSyncQueue`, `transferAfterCancelledWait`) are modelled.
- Aqs.Synchronizer.TransferAfterCancelledWait: when the CAS fails, the source spins with
  `Thread.yield` until a concurrent signal finishes the enqueue. In a single thread the transfer is
  already complete, so the model returns false at once.
- Shared mode (`acquireShared`, `releaseShared`, `setHeadAndPropagate`, `doReleaseShared`) and
  PROPAGATE: the lock uses exclusive mode only.
- `Unsafe` offsets and the static initialiser, serialization (`readObject`), `toString`,
  `hasContended`, `getFirstQueuedThread`, and the thread collections (`getQueuedThreads`,
  `getWaitingThreads` and relatives), which only report state.
- The owner field of `AbstractOwnableSynchronizer` is not part of the repository. It is the plain
  field `owner`.
- ReentrantLock.NyaReentrantLock.HasWaiters: the `instanceof ConditionObject` check is not
  modelled, since every condition in the model is a `ConditionObject`. Likewise for
  ReentrantLock.NyaReentrantLock.GetWaitQueueLength.
- Condition.ConditionObject.GetWaitQueueLength: the count is a mathematical integer. The source's
  `int` counter could only overflow with more than 2^31 waiters.
- Aqs.Synchronizer.HasQueuedPredecessors: its contract states only the empty or head-only case.
  The other direction is `NoPredecessorAhead` (a false answer means the first live waiter is the
  caller). The exact `head.next` test is its body.
- ReentrantLock.NyaReentrantLock.GetHoldCount: stated on consistent lock words. The lock does not
  carry `HoldCount.Consistent` as a class invariant; `HoldCount.StepsKeepConsistent` shows that
  every step keeps it.
- Condition.ConditionObject.DoSignalAll: the contract does not say which threads are woken, only
  the queue and list effects.
- `nextWaiter` is kept in a map owned by each condition rather than in the node. Only that
  condition reads or writes it.
- The rule "every node is in exactly one of the condition list or the sync queue" is stated as
  "no CONDITION node is on the sync queue" (`QueuedNotWaiting`). `ConditionObject.Valid` keeps
  the list inside the arena, but it is not shown to survive synchronizer operations made through
  other objects.
