/** The reentrant hold-count state machine behind NyaReentrantLock: the
    synchronizer's `state` word read as a hold count, together with the
    exclusive owner thread. These functions specify the hooks that
    `Aqs.Synchronizer` runs in place on its fields. */
module HoldCount {
  import opened Base

  /** The lock word: `state` (0 = free, N = held N times) and the owner. */
  datatype Hold = Hold(state: int, owner: Option<ThreadId>)

  const Free: Hold := Hold(0, None)

  /** What a hook returns (or throws) and the lock word it leaves behind. */
  datatype Step = Step(result: Result<bool>, after: Hold)

  /** A lock word reachable through the lock's own entry points: a
      non-negative count, owned exactly when it is positive. */
  predicate Consistent(h: Hold) {
    0 <= h.state <= INT_MAX && (h.state == 0 <==> h.owner.None?)
  }

  /** `Sync.nonfairTryAcquire(acquires)` called by `current`. */
  function NonfairTryAcquire(h: Hold, current: ThreadId, acquires: int): (s: Step)
    requires IsInt(h.state) && IsInt(acquires)
    ensures IsInt(s.after.state)
    // success leaves the caller as owner; anything else leaves the word alone
    ensures s.result == Ok(true) ==> s.after.owner == Some(current)
    ensures s.result != Ok(true) ==> s.after == h
    // a free lock is always taken, with `acquires` holds
    ensures h.state == 0 ==> s.result == Ok(true) && s.after.state == acquires
    // it refuses exactly when another thread holds it
    ensures s.result == Ok(false) <==> h.state != 0 && h.owner != Some(current)
    // a reentrant acquire adds to the count, unless the count leaves the int range
    ensures h.state > 0 && h.owner == Some(current) && acquires >= 0 ==>
              (s.result.Err? <==> h.state + acquires > INT_MAX)
    ensures s.result.Err? ==> s.result.failure == MaximumLockCountExceeded
    ensures h.state != 0 && s.result == Ok(true) ==> s.after.state == Wrap(h.state + acquires)
  {
    if h.state == 0 then
      Step(Ok(true), Hold(acquires, Some(current)))
    else if h.owner == Some(current) then
      var nextc := Wrap(h.state + acquires);
      if nextc < 0 then Step(Err(MaximumLockCountExceeded), h)
      else Step(Ok(true), Hold(nextc, h.owner))
    else
      Step(Ok(false), h)
  }

  /** `FairSync.tryAcquire(acquires)` called by `current`, where `queued`
      is what `hasQueuedPredecessors()` answered. */
  function FairTryAcquire(h: Hold, current: ThreadId, acquires: int, queued: bool): (s: Step)
    requires IsInt(h.state) && IsInt(acquires)
    // the fair policy differs from the non-fair one only by refusing a free
    // lock while other threads are queued ahead of the caller
    ensures s == if h.state == 0 && queued then Step(Ok(false), h)
                 else NonfairTryAcquire(h, current, acquires)
  {
    if h.state == 0 then
      if !queued then Step(Ok(true), Hold(acquires, Some(current)))
      else Step(Ok(false), h)
    else if h.owner == Some(current) then
      var nextc := Wrap(h.state + acquires);
      if nextc < 0 then Step(Err(MaximumLockCountExceeded), h)
      else Step(Ok(true), Hold(nextc, h.owner))
    else
      Step(Ok(false), h)
  }

  /** `Sync.tryRelease(releases)` called by `current`. */
  function TryRelease(h: Hold, current: ThreadId, releases: int): (s: Step)
    requires IsInt(h.state) && IsInt(releases)
    ensures IsInt(s.after.state)
    // only the owner may release; a refused release changes nothing
    ensures s.result == Err(IllegalMonitorState) <==> h.owner != Some(current)
    ensures s.result.Err? ==> s.after == h
    ensures s.result.Ok? ==> s.after.state == Wrap(h.state - releases)
    // the result says whether the lock is now free, and the owner is cleared exactly then
    ensures s.result.Ok? ==> (s.result.value <==> s.after.state == 0)
    ensures s.result.Ok? ==> (s.after.owner.None? <==> s.result.value)
    ensures s.result == Ok(false) ==> s.after.owner == h.owner
  {
    var c := Wrap(h.state - releases);
    if h.owner != Some(current) then
      Step(Err(IllegalMonitorState), h)
    else if c == 0 then
      Step(Ok(true), Hold(c, None))
    else
      Step(Ok(false), Hold(c, h.owner))
  }

  /** `Sync.isLocked()`: on a consistent word, locked exactly when owned. */
  predicate IsLocked(h: Hold)
    ensures Consistent(h) ==> (IsLocked(h) <==> h.owner.Some?)
  {
    h.state != 0
  }

  /** `Sync.isHeldExclusively()` asked by `current`: on a consistent word
      the holder holds a locked lock. */
  predicate IsHeldExclusively(h: Hold, current: ThreadId)
    ensures IsHeldExclusively(h, current) && Consistent(h) ==> IsLocked(h)
  {
    h.owner == Some(current)
  }

  /** At most one thread holds the lock exclusively. */
  lemma SingleHolder(h: Hold, t: ThreadId, u: ThreadId)
    requires IsHeldExclusively(h, t) && IsHeldExclusively(h, u)
    ensures t == u
  {
  }

  /** `Sync.getOwner()`: an owner is reported only while locked, and it is
      the thread that holds the lock. */
  function GetOwner(h: Hold): (r: Option<ThreadId>)
    ensures r.Some? ==> IsLocked(h) && IsHeldExclusively(h, r.value)
    ensures Consistent(h) ==> r == h.owner
  {
    if h.state == 0 then None else h.owner
  }

  /** `Sync.getHoldCount()` asked by `current`: the count of the holder,
      0 for anyone else. */
  function GetHoldCount(h: Hold, current: ThreadId): (r: int)
    ensures r != 0 ==> IsHeldExclusively(h, current) && r == h.state
    ensures !IsHeldExclusively(h, current) ==> r == 0
    ensures Consistent(h) ==> (r > 0 <==> IsHeldExclusively(h, current))
  {
    if IsHeldExclusively(h, current) then h.state else 0
  }

  /** On a consistent lock word the queries agree with each other: the
      owner is reported exactly when the lock is locked, and a thread has a
      positive hold count exactly when it holds the lock. */
  lemma ConsistentQueries(h: Hold, t: ThreadId)
    requires Consistent(h)
    ensures GetOwner(h) == h.owner
    ensures IsLocked(h) <==> GetOwner(h).Some?
    ensures GetHoldCount(h, t) > 0 <==> IsHeldExclusively(h, t)
    ensures 0 <= GetHoldCount(h, t) <= h.state
  {
  }

  /** Mutual exclusion: while one thread holds the lock, no other thread's
      acquire succeeds, under either policy, and its release is refused. */
  lemma OtherOwnerExcluded(h: Hold, t: ThreadId, n: int, queued: bool)
    requires Consistent(h) && IsInt(n)
    requires h.owner.Some? && h.owner != Some(t)
    ensures NonfairTryAcquire(h, t, n) == Step(Ok(false), h)
    ensures FairTryAcquire(h, t, n, queued) == Step(Ok(false), h)
    ensures TryRelease(h, t, n) == Step(Err(IllegalMonitorState), h)
  {
  }

  /** Reentrant acquires by the owner succeed whatever the queue holds. */
  lemma ReentrantIgnoresQueue(h: Hold, t: ThreadId, n: int, queued: bool)
    requires IsInt(h.state) && IsInt(n)
    requires h.state != 0 && h.owner == Some(t)
    ensures FairTryAcquire(h, t, n, queued) == NonfairTryAcquire(h, t, n)
  {
  }

  /** The entry points keep the lock word consistent: `lock()`/`tryLock()`
      acquire one hold, `unlock()` releases one, and `fullyRelease` releases
      the whole count. */
  lemma StepsKeepConsistent(h: Hold, t: ThreadId, queued: bool)
    requires Consistent(h)
    ensures Consistent(NonfairTryAcquire(h, t, 1).after)
    ensures Consistent(FairTryAcquire(h, t, 1, queued).after)
    ensures Consistent(TryRelease(h, t, 1).after)
    ensures Consistent(TryRelease(h, t, h.state).after)
  {
  }

  /** The results of a series of hook calls and the final lock word. */
  datatype Run = Run(results: seq<Result<bool>>, after: Hold)

  /** `n` successive `tryLock()` calls by `t`. */
  function Acquires(h: Hold, t: ThreadId, n: nat): (r: Run)
    requires IsInt(h.state)
    ensures |r.results| == n && IsInt(r.after.state)
    decreases n
  {
    if n == 0 then Run([], h)
    else
      var s := NonfairTryAcquire(h, t, 1);
      var rest := Acquires(s.after, t, n - 1);
      Run([s.result] + rest.results, rest.after)
  }

  /** `n` successive `unlock()` calls by `t`. */
  function Releases(h: Hold, t: ThreadId, n: nat): (r: Run)
    requires IsInt(h.state)
    ensures |r.results| == n && IsInt(r.after.state)
    decreases n
  {
    if n == 0 then Run([], h)
    else
      var s := TryRelease(h, t, 1);
      var rest := Releases(s.after, t, n - 1);
      Run([s.result] + rest.results, rest.after)
  }

  /** `n` copies of the same result. */
  function Repeat(x: Result<bool>, n: nat): (r: seq<Result<bool>>)
    ensures |r| == n && forall i :: 0 <= i < n ==> r[i] == x
  {
    if n == 0 then [] else [x] + Repeat(x, n - 1)
  }

  /** Starting free or held by `t`, each of `n` acquires by `t` succeeds
      and adds one hold, as long as the count stays in the int range. */
  lemma {:induction false} AcquiresByOwner(h: Hold, t: ThreadId, n: nat)
    requires Consistent(h) && (h.owner.None? || h.owner == Some(t))
    requires h.state + n <= INT_MAX
    ensures Acquires(h, t, n).results == Repeat(Ok(true), n)
    ensures Acquires(h, t, n).after == if n == 0 then h else Hold(h.state + n, Some(t))
    decreases n
  {
    if n > 0 {
      var s := NonfairTryAcquire(h, t, 1);
      assert s.after == Hold(h.state + 1, Some(t));
      AcquiresByOwner(s.after, t, n - 1);
    }
  }

  /** From `k` holds by `t`, `n < k` releases all return false and leave
      `k - n` holds. */
  lemma {:induction false} PartialReleases(t: ThreadId, k: int, n: nat)
    requires n < k <= INT_MAX
    ensures Releases(Hold(k, Some(t)), t, n) == Run(Repeat(Ok(false), n), Hold(k - n, Some(t)))
    decreases n
  {
    if n > 0 {
      var s := TryRelease(Hold(k, Some(t)), t, 1);
      assert s == Step(Ok(false), Hold(k - 1, Some(t)));
      PartialReleases(t, k - 1, n - 1);
    }
  }

  /** Reentrancy: `n` acquisitions by one thread from a free lock followed by
      `n` releases restore the free lock; the hold count tracks the number
      of acquisitions and only the last release reports the lock free. */
  lemma {:induction false} ReentrancyRoundTrip(t: ThreadId, n: nat)
    requires 1 <= n <= INT_MAX
    ensures Acquires(Free, t, n) == Run(Repeat(Ok(true), n), Hold(n, Some(t)))
    ensures GetHoldCount(Acquires(Free, t, n).after, t) == n
    ensures Releases(Hold(n, Some(t)), t, n) == Run(Repeat(Ok(false), n - 1) + [Ok(true)], Free)
  {
    AcquiresByOwner(Free, t, n);
    ReleasesSplit(Hold(n, Some(t)), t, n - 1);
    PartialReleases(t, n, n - 1);
    var last := TryRelease(Hold(1, Some(t)), t, 1);
    assert last == Step(Ok(true), Free);
    assert Releases(Hold(1, Some(t)), t, 1) == Run([Ok(true)], Free);
  }

  /** `n + 1` releases are `n` releases followed by one more. */
  lemma {:induction false} ReleasesSplit(h: Hold, t: ThreadId, n: nat)
    requires IsInt(h.state)
    ensures Releases(h, t, n + 1).results ==
            Releases(h, t, n).results + Releases(Releases(h, t, n).after, t, 1).results
    ensures Releases(h, t, n + 1).after == Releases(Releases(h, t, n).after, t, 1).after
    decreases n
  {
    if n > 0 {
      var s := TryRelease(h, t, 1);
      ReleasesSplit(s.after, t, n - 1);
    }
  }
}
