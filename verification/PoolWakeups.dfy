/**
  Wake-ups: with one limit that counts, no run loses one, although newcomers may
  take the slot first and losers queue again in front. With a per-host limit
  below the total limit a wake-up can be lost, and LostWakeup builds the run.
  The total limit itself is exceeded by reuse, and only by reuse.
 */
module PoolWakeups {
  import opened Options
  import opened PoolModel
  import opened PoolOwnership

  predicate NoDupWaiters(s: seq<Waiter>) {
    forall i, j :: 0 <= i < j < |s| ==> s[i] != s[j]
  }

  /** Queued futures belong to parked coroutines of the key, are queued once and are not yet woken. */
  ghost predicate WaitersOk(s: World) {
    && (forall k, w :: w in Queue(s.pool, k) ==> w in s.parked && s.parked[w] == k && w !in s.pool.woken)
    && (forall k :: NoDupWaiters(Queue(s.pool, k)))
    && (forall w :: w in s.pool.woken ==> w in s.parked)
  }

  ghost predicate Starving(p: Pool) {
    exists k :: Queue(p, k) != []
  }

  /** Free slots, as far as the total limit goes. */
  function Free(p: Pool): int {
    p.limit - |p.acquired|
  }

  /** Nobody waits while a slot is free and nobody is on the way to take it. */
  ghost predicate NoLostWakeup(s: World) {
    forall k :: Queue(s.pool, k) != [] ==> Available(s.pool, k) <= |s.pool.woken|
  }

  /** Limits under which a slot that is free is free for every key. */
  predicate OneLimitCounts(limit: nat, limitPerHost: nat) {
    limitPerHost == 0 || (limit != 0 && limit <= limitPerHost)
  }

  ghost predicate WakeInv(s: World) {
    && Inv(s) && WaitersOk(s)
    && (if s.pool.limit == 0 then !Starving(s.pool)
        else Starving(s.pool) ==> Free(s.pool) <= |s.pool.woken|)
  }

  // ---------------------------------------------------------------------
  // Availability.
  // ---------------------------------------------------------------------

  lemma AvailableIsFree(s: World, k: Key)
    requires Inv(s) && OneLimitCounts(s.pool.limit, s.pool.limitPerHost)
    ensures Available(s.pool, k) == if s.pool.limit == 0 then 1 else Free(s.pool)
  {
    if s.pool.limitPerHost != 0 {
      assert KeyOk(s, k);
      SubsetSize(HostSet(s.pool, k), s.pool.acquired);
    }
  }

  lemma GetKeeps(p: Pool, key: Key, usable: set<Handle>)
    ensures var (r, p') := Get(p, key, usable);
            && p'.waiters == p.waiters && p'.woken == p.woken && p'.limit == p.limit
            && p'.limitPerHost == p.limitPerHost
            && (r.None? ==> p'.acquired == p.acquired && p'.acquiredPerHost == p.acquiredPerHost)
            && (r.Some? ==> p'.acquired == p.acquired + {r.value} && r.value in Idle(p, key))
  {
  }

  lemma {:induction false} ReleaseWaiterWakesOne(p: Pool, order: seq<Key>)
    ensures var p' := ReleaseWaiter(p, order);
            && p'.acquired == p.acquired && p'.limit == p.limit
            && (p' == p || exists k :: WakesFirst(p, p', k))
            && (p' == p ==> forall k :: k in order ==> Available(p, k) < 1 || Queue(p, k) == [])
  {
    if order != [] {
      if Available(p, order[0]) < 1 || Queue(p, order[0]) == [] {
        ReleaseWaiterWakesOne(p, order[1..]);
      } else {
        assert WakesFirst(p, ReleaseWaiter(p, order), order[0]);
      }
    }
  }

  /** The first waiter of the key, and nobody else, has been woken. */
  predicate WakesFirst(p: Pool, p': Pool, k: Key) {
    && Available(p, k) >= 1 && Queue(p, k) != []
    && p' == p.(waiters := p.waiters[k := Queue(p, k)[1..]], woken := p.woken + {Queue(p, k)[0]})
  }

  // ---------------------------------------------------------------------
  // WaitersOk is kept.
  // ---------------------------------------------------------------------

  lemma WakingKeepsWaiters(s: World, p': Pool, k: Key)
    requires WaitersOk(s) && WakesFirst(s.pool, p', k)
    ensures WaitersOk(s.(pool := p')) && |p'.woken| == |s.pool.woken| + 1
    ensures Starving(p') ==> Starving(s.pool)
  {
    var q := Queue(s.pool, k);
    assert NoDupWaiters(q) && q[0] in q;
    assert forall w :: w in q[1..] ==> w in q && w != q[0];
    forall j
      ensures Queue(p', j) == if j == k then q[1..] else Queue(s.pool, j)
      ensures NoDupWaiters(Queue(p', j))
      ensures q[0] !in Queue(p', j)
    {
      assert NoDupWaiters(Queue(s.pool, j));
      assert q[0] in Queue(s.pool, j) ==> j == k;
    }
  }

  /** Enqueueing a new future, at either end. */
  lemma QueueingKeepsWaiters(s: World, k: Key, w: Waiter, front: bool)
    requires WaitersOk(s) && w !in s.parked
    ensures var q := Queue(s.pool, k);
            WaitersOk(s.(pool := s.pool.(waiters := s.pool.waiters[k := if front then [w] + q else q + [w]]),
                         parked := s.parked[w := k]))
  {
    var q := Queue(s.pool, k);
    var q' := if front then [w] + q else q + [w];
    var s' := s.(pool := s.pool.(waiters := s.pool.waiters[k := q']), parked := s.parked[w := k]);
    assert NoDupWaiters(q) && w !in q;
    assert forall x :: x in q' <==> x == w || x in q;
    forall j
      ensures NoDupWaiters(Queue(s'.pool, j))
      ensures forall x :: x in Queue(s'.pool, j) ==> x in s'.parked && s'.parked[x] == j && x !in s'.pool.woken
    {
      assert NoDupWaiters(Queue(s.pool, j));
      assert j != k ==> Queue(s'.pool, j) == Queue(s.pool, j);
    }
  }

  /** A pool with the same queues and wake-ups. */
  lemma SameWaiters(s: World, s': World)
    requires WaitersOk(s) && s'.parked == s.parked
    requires s'.pool.waiters == s.pool.waiters && s'.pool.woken == s.pool.woken
    ensures WaitersOk(s') && (Starving(s'.pool) <==> Starving(s.pool))
  {
    forall k
      ensures Queue(s'.pool, k) == Queue(s.pool, k)
    {
    }
    assert forall k :: NoDupWaiters(Queue(s.pool, k)) ==> NoDupWaiters(Queue(s'.pool, k));
  }

  /** A resumed coroutine is no longer parked; an empty queue may be dropped. */
  lemma ResumingKeepsWaiters(s: World, w: Waiter)
    requires WaitersOk(s) && w in s.pool.woken && w in s.parked
    ensures var s0 := Resumed(s, w);
            && WaitersOk(s0) && (Starving(s0.pool) <==> Starving(s.pool))
            && |s0.pool.woken| == |s.pool.woken| - 1
  {
    var s0 := Resumed(s, w);
    forall k
      ensures Queue(s0.pool, k) == Queue(s.pool, k) && w !in Queue(s.pool, k)
      ensures NoDupWaiters(Queue(s0.pool, k))
    {
      assert NoDupWaiters(Queue(s.pool, k));
    }
  }

  // ---------------------------------------------------------------------
  // The steps.
  // ---------------------------------------------------------------------

  /** A stretch that may take a slot, after the possible decrease of the wake-ups by its own. */
  lemma TakingKeepsWake(s: World, key: Key, usable: set<Handle>, w: Waiter, placeholder: Handle)
    requires Inv(s) && WaitersOk(s) && w !in s.parked && placeholder.Placeholder? && placeholder !in s.creating
    requires OneLimitCounts(s.pool.limit, s.pool.limitPerHost)
    requires if s.pool.limit == 0 then !Starving(s.pool)
             else Starving(s.pool) ==> Free(s.pool) <= |s.pool.woken| + 1
    ensures var s' := Settle(s, Connect(s.pool, key, usable, w, placeholder), key, w, placeholder);
            && WaitersOk(s')
            && (if s'.pool.limit == 0 then !Starving(s'.pool)
                else Starving(s'.pool) ==> Free(s'.pool) <= |s'.pool.woken|)
  {
    var (r, p') := Get(s.pool, key, usable);
    GetKeeps(s.pool, key, usable);
    var s' := Settle(s, Connect(s.pool, key, usable, w, placeholder), key, w, placeholder);
    if r.Some? {
      assert KeyOk(s, key);
      assert r.value !in s.pool.acquired;
      SameWaiters(s, s');
    } else {
      var s1 := s.(pool := p');
      SameWaiters(s, s1);
      EmptyIdleKeeps(s, key, usable);
      AvailableIsFree(s1, key);
      if Available(p', key) <= 0 {
        QueueingKeepsWaiters(s1, key, w, false);
      } else {
        assert placeholder !in s.held;
        assert placeholder !in s.pool.acquired;
        SameWaiters(s1, s');
      }
    }
  }

  lemma ConnectWake(s: World, e: Event)
    requires WakeInv(s) && OneLimitCounts(s.pool.limit, s.pool.limitPerHost)
    requires e.ConnectE? && Enabled(s, e)
    ensures WakeInv(Do(s, e))
  {
    StepKeeps(s, e);
    TakingKeepsWake(s, e.key, e.usable, e.w, e.placeholder);
  }

  lemma ResumeWake(s: World, e: Event)
    requires WakeInv(s) && OneLimitCounts(s.pool.limit, s.pool.limitPerHost)
    requires e.ResumeE? && Enabled(s, e)
    ensures WakeInv(Do(s, e))
  {
    StepKeeps(s, e);
    var key, s0 := s.parked[e.w], Resumed(s, e.w);
    SameIdleKeeps(s, s0);
    ResumingKeepsWaiters(s, e.w);
    AvailableIsFree(s0, key);
    ResumeIsConnect(s, e);
    if Available(s0.pool, key) > 0 {
      TakingKeepsWake(s0, key, e.usable, e.w', e.placeholder);
    } else {
      QueueingKeepsWaiters(s0, key, e.w', true);
    }
  }

  /** Giving up a slot: either it is not free yet, or somebody is woken for it, or nobody waits. */
  lemma ReleasingKeepsWake(s: World, key: Key, h: Handle, order: seq<Key>)
    requires WakeInv(s) && OneLimitCounts(s.pool.limit, s.pool.limitPerHost)
    requires OwnedUnder(s, key, h) && Shuffles(order, s.pool)
    ensures var s' := Dropped(s, key, h).(pool := ReleaseAcquired(s.pool, key, h, order));
            WakeInv(s')
  {
    var s1 := Dropped(s, key, h);
    var s' := s1.(pool := ReleaseAcquired(s.pool, key, h, order));
    DropKeeps(s, key, h);
    SameWaiters(s, s1);
    ReleaseAcquiredSplit(s.pool, key, h, order);
    ReleaseAcquiredKeeps(s, key, h, order);
    ReleaseWaiterWakesOne(s1.pool, order);
    assert h in s.pool.acquired;
    if s'.pool == s1.pool {
      if Starving(s1.pool) {
        var k :| Queue(s1.pool, k) != [];
        AvailableIsFree(s1, k);
        assert k in order;
      }
    } else {
      var k :| WakesFirst(s1.pool, s'.pool, k);
      WakingKeepsWaiters(s1, s'.pool, k);
    }
  }

  lemma OtherStepsWake(s: World, e: Event)
    requires WakeInv(s) && OneLimitCounts(s.pool.limit, s.pool.limitPerHost)
    requires (e.CreatedE? || e.CleanupE?) && Enabled(s, e)
    ensures WakeInv(Do(s, e))
  {
    StepKeeps(s, e);
    SameWaiters(s, Do(s, e));
    if e.CreatedE? {
      assert e.h !in s.held && e.h !in s.creating;
      assert e.h !in s.pool.acquired && e.placeholder in s.pool.acquired;
    }
  }

  /** The owners of other handles do not change when one is dropped. */
  lemma DropLeavesOthers(s: World, key: Key, h: Handle)
    requires Owned(s) && OwnedUnder(s, key, h)
    ensures h in s.creating ==> s.held - {h} == s.held
    ensures h in s.held ==> s.creating - {h} == s.creating
  {
    assert !(h in s.creating && h in s.held);
  }

  lemma FailedWake(s: World, e: Event)
    requires WakeInv(s) && OneLimitCounts(s.pool.limit, s.pool.limitPerHost)
    requires e.FailedE? && Enabled(s, e)
    ensures WakeInv(Do(s, e))
  {
    var key := s.creating[e.placeholder];
    ReleasingKeepsWake(s, key, e.placeholder, e.order);
    DropLeavesOthers(s, key, e.placeholder);
  }

  lemma ReleaseWake(s: World, e: Event)
    requires WakeInv(s) && OneLimitCounts(s.pool.limit, s.pool.limitPerHost)
    requires e.ReleaseE? && Enabled(s, e)
    ensures WakeInv(Do(s, e))
  {
    var key := s.held[e.h];
    ReleasingKeepsWake(s, key, e.h, e.order);
    DropLeavesOthers(s, key, e.h);
    StepKeeps(s, e);
    var s1, s' := Dropped(s, key, e.h).(pool := ReleaseAcquired(s.pool, key, e.h, e.order)), Do(s, e);
    assert s'.pool == s1.pool.(conns := s'.pool.conns) && s'.parked == s1.parked;
    SameWaiters(s1, s');
  }

  lemma StepKeepsWake(s: World, e: Event)
    requires WakeInv(s) && OneLimitCounts(s.pool.limit, s.pool.limitPerHost) && Enabled(s, e)
    ensures WakeInv(Do(s, e))
  {
    match e {
      case ConnectE(_, _, _, _) => ConnectWake(s, e);
      case ResumeE(_, _, _, _) => ResumeWake(s, e);
      case FailedE(_, _) => FailedWake(s, e);
      case ReleaseE(_, _, _) => ReleaseWake(s, e);
      case _ => OtherStepsWake(s, e);
    }
  }

  /** All that is kept of a world, whatever its limits. */
  ghost predicate Kept(s: World) {
    Inv(s) && (OneLimitCounts(s.pool.limit, s.pool.limitPerHost) ==> WakeInv(s))
  }

  lemma StepKeepsAll(s: World, e: Event)
    requires Kept(s) && Enabled(s, e)
    ensures Kept(Do(s, e))
  {
    StepKeeps(s, e);
    LimitsAreFixed(s, e);
    if OneLimitCounts(s.pool.limit, s.pool.limitPerHost) {
      StepKeepsWake(s, e);
    }
  }

  lemma {:induction false} RunKeepsWake(s: World, es: seq<Event>)
    requires WakeInv(s) && OneLimitCounts(s.pool.limit, s.pool.limitPerHost) && AllEnabled(s, es)
    ensures WakeInv(DoAll(s, es)) && DoAll(s, es).pool.limit == s.pool.limit
            && DoAll(s, es).pool.limitPerHost == s.pool.limitPerHost
    decreases |es|
  {
    if es != [] {
      LimitsAreFixed(s, es[0]);
      StepKeepsWake(s, es[0]);
      RunKeepsWake(Do(s, es[0]), es[1..]);
    }
  }

  lemma LimitsAreFixed(s: World, e: Event)
    requires Enabled(s, e)
    ensures Do(s, e).pool.limit == s.pool.limit && Do(s, e).pool.limitPerHost == s.pool.limitPerHost
  {
    match e {
      case ConnectE(key, usable, _, _) => GetKeeps(s.pool, key, usable);
      case ResumeE(w, usable, _, _) => GetKeeps(Resumed(s, w).pool, s.parked[w], usable);
      case FailedE(h, order) => ReleaseWaiterKeeps(ReleaseAcquired(s.pool, s.creating[h], h, []), order);
      case ReleaseE(h, _, order) => ReleaseWaiterKeeps(ReleaseAcquired(s.pool, s.held[h], h, []), order);
      case _ =>
    }
  }

  /** Whoever waits finds no more slots free than waiters on their way. */
  lemma WakeInvMeans(s: World)
    requires WakeInv(s) && OneLimitCounts(s.pool.limit, s.pool.limitPerHost)
    ensures NoLostWakeup(s)
  {
    forall k | Queue(s.pool, k) != []
      ensures Available(s.pool, k) <= |s.pool.woken|
    {
      AvailableIsFree(s, k);
    }
  }

  /** No run of the pool loses a wake-up while one limit is the one that counts. */
  lemma NoWakeupIsLost(limit: nat, limitPerHost: nat, es: seq<Event>)
    requires OneLimitCounts(limit, limitPerHost) && AllEnabled(Init(limit, limitPerHost), es)
    ensures NoLostWakeup(DoAll(Init(limit, limitPerHost), es))
  {
    InitOwned(limit, limitPerHost);
    RunKeepsWake(Init(limit, limitPerHost), es);
    WakeInvMeans(DoAll(Init(limit, limitPerHost), es));
  }
}
