/**
  Ownership and the per-host bound: in every reachable state each protocol is in
  one place, the per-host sets partition the acquired set, acquired and idle
  connections of a key never exceed `limit_per_host`, and placeholders never
  exceed `limit`.
 */
module PoolOwnership {
  import opened Options
  import opened PoolModel

  predicate NoDup(s: seq<Handle>) {
    forall i, j :: 0 <= i < j < |s| ==> s[i] != s[j]
  }

  /** A handle has one owner: a connection being created, or a live `Connection`, for that key. */
  ghost predicate OwnedUnder(s: World, key: Key, h: Handle) {
    (h in s.creating && s.creating[h] == key) || (h in s.held && s.held[h] == key)
  }

  /** The acquired set is exactly what is being created or held, and placeholders respect `limit`. */
  ghost predicate Owned(s: World) {
    && (forall h :: h in s.pool.acquired <==> h in s.creating || h in s.held)
    && (forall h :: h in s.creating ==> h.Placeholder?)
    && (forall h :: h in s.home ==> h.Proto?)
    && (forall h :: h in s.held ==> h in s.home && s.home[h] == s.held[h])
    && (s.pool.limit != 0 ==> |s.creating| <= s.pool.limit)
  }

  /** Idle protocols are free, filed once, and under the key they were made for. */
  ghost predicate IdleOk(s: World, key: Key) {
    && NoDup(Idle(s.pool, key))
    && forall h :: h in Idle(s.pool, key) ==> h !in s.held && h in s.home && s.home[h] == key
  }

  /** With a per-host limit: the per-host set is exactly its owners', and leaves room for the idle. */
  ghost predicate HostOk(s: World, key: Key) {
    s.pool.limitPerHost != 0 ==>
      && (forall h :: h in HostSet(s.pool, key) <==> OwnedUnder(s, key, h))
      && |HostSet(s.pool, key)| + |Idle(s.pool, key)| <= s.pool.limitPerHost
  }

  ghost predicate KeyOk(s: World, key: Key) {
    IdleOk(s, key) && HostOk(s, key)
  }

  ghost predicate Inv(s: World) {
    Owned(s) && forall key :: KeyOk(s, key)
  }

  // ---------------------------------------------------------------------
  // Owners.
  // ---------------------------------------------------------------------

  lemma CreatingWithinAcquired(s: World)
    requires Owned(s)
    ensures |s.creating| <= |s.pool.acquired|
  {
    SubsetSize(s.creating.Keys, s.pool.acquired);
    assert |s.creating| == |s.creating.Keys|;
  }

  lemma {:induction false} SubsetSize(a: set<Handle>, b: set<Handle>)
    requires a <= b
    ensures |a| <= |b|
    decreases a
  {
    if a != {} {
      var x :| x in a;
      SubsetSize(a - {x}, b - {x});
    }
  }

  lemma MapSizes(m: map<Handle, Key>, h: Handle, key: Key)
    ensures h !in m ==> |m[h := key]| == |m| + 1
    ensures |m - {h}| <= |m|
    ensures h in m ==> |m - {h}| == |m| - 1
  {
    var a, b := m[h := key], m - {h};
    assert a.Keys == m.Keys + {h} && b.Keys == m.Keys - {h};
    assert |a| == |a.Keys| && |b| == |b.Keys| && |m| == |m.Keys|;
  }

  // ---------------------------------------------------------------------
  // Idle queues.
  // ---------------------------------------------------------------------

  /** The idle queue after `_get`: a suffix of what it was, empty when nothing was reusable. */
  lemma GetIdle(p: Pool, key: Key, usable: set<Handle>, k: Key)
    ensures var (r, p') := Get(p, key, usable);
            && (k != key ==> Idle(p', k) == Idle(p, k))
            && match r
               case None => Idle(p', key) == [] && p' == p.(conns := p'.conns)
               case Some(h) =>
                 && Stale(Idle(p, key), usable) < |Idle(p, key)|
                 && h == Idle(p, key)[Stale(Idle(p, key), usable)]
                 && Idle(p', key) == Idle(p, key)[Stale(Idle(p, key), usable) + 1..]
                 && p' == Acquire(p.(conns := p'.conns), key, h)
  {
  }

  lemma {:induction false} ReleaseWaiterKeeps(p: Pool, order: seq<Key>)
    ensures var p' := ReleaseWaiter(p, order);
            p' == p.(waiters := p'.waiters, woken := p'.woken)
  {
    if order != [] && (Available(p, order[0]) < 1 || Queue(p, order[0]) == []) {
      ReleaseWaiterKeeps(p, order[1..]);
    }
  }

  lemma {:induction false} FilterKeeps(idle: seq<Handle>, usable: set<Handle>)
    requires NoDup(idle)
    ensures NoDup(Filter(idle, usable)) && |Filter(idle, usable)| <= |idle|
    ensures forall h :: h in Filter(idle, usable) ==> h in idle
  {
    if idle != [] {
      assert NoDup(idle[1..]);
      assert idle[0] !in idle[1..];
      FilterKeeps(idle[1..], usable);
    }
  }

  lemma CleanupIdle(p: Pool, usable: set<Handle>, key: Key)
    ensures Idle(Cleanup(p, usable), key) == Filter(Idle(p, key), usable)
  {
  }

  /** A suffix that starts after `h` has no `h`. */
  lemma AfterReused(idle: seq<Handle>, n: nat)
    requires NoDup(idle) && n < |idle|
    ensures NoDup(idle[n + 1..]) && idle[n] !in idle[n + 1..] && idle[n] in idle
    ensures forall h :: h in idle[n + 1..] ==> h in idle
  {
  }

  // ---------------------------------------------------------------------
  // The steps, key by key.
  // ---------------------------------------------------------------------

  /** Shorter idle queues and other waiters are harmless. */
  lemma LessIdleKeeps(s: World, s': World)
    requires Inv(s) && s'.creating == s.creating && s'.held == s.held && s'.home == s.home
    requires s'.pool == s.pool.(conns := s'.pool.conns, waiters := s'.pool.waiters, woken := s'.pool.woken)
    requires forall k :: NoDup(Idle(s'.pool, k)) && |Idle(s'.pool, k)| <= |Idle(s.pool, k)|
                         && forall h :: h in Idle(s'.pool, k) ==> h in Idle(s.pool, k)
    ensures Inv(s')
  {
    forall k
      ensures KeyOk(s', k)
    {
      assert KeyOk(s, k);
      assert NoDup(Idle(s'.pool, k));
      assert HostSet(s'.pool, k) == HostSet(s.pool, k);
    }
  }

  lemma SameIdleKeeps(s: World, s': World)
    requires Inv(s) && s'.creating == s.creating && s'.held == s.held && s'.home == s.home
    requires s'.pool == s.pool.(waiters := s'.pool.waiters, woken := s'.pool.woken)
    ensures Inv(s')
  {
    forall k
      ensures NoDup(Idle(s'.pool, k)) && Idle(s'.pool, k) == Idle(s.pool, k)
    {
      assert KeyOk(s, k);
    }
    LessIdleKeeps(s, s');
  }

  lemma EmptyIdleKeeps(s: World, key: Key, usable: set<Handle>)
    requires Inv(s) && Get(s.pool, key, usable).0.None?
    ensures Inv(s.(pool := Get(s.pool, key, usable).1))
  {
    var s' := s.(pool := Get(s.pool, key, usable).1);
    forall k
      ensures NoDup(Idle(s'.pool, k)) && |Idle(s'.pool, k)| <= |Idle(s.pool, k)|
      ensures forall h :: h in Idle(s'.pool, k) ==> h in Idle(s.pool, k)
    {
      GetIdle(s.pool, key, usable, k);
      assert KeyOk(s, k);
    }
    GetIdle(s.pool, key, usable, key);
    LessIdleKeeps(s, s');
  }

  function AfterReuse(s: World, key: Key, usable: set<Handle>): World
    requires Get(s.pool, key, usable).0.Some?
  {
    s.(pool := Get(s.pool, key, usable).1, held := s.held[Get(s.pool, key, usable).0.value := key])
  }

  lemma ReuseSameKey(s: World, key: Key, usable: set<Handle>)
    requires Get(s.pool, key, usable).0.Some? && KeyOk(s, key)
    ensures var h := Get(s.pool, key, usable).0.value;
            h !in s.held && h in s.home && s.home[h] == key
    ensures KeyOk(AfterReuse(s, key, usable), key)
  {
    var idle, n := Idle(s.pool, key), Stale(Idle(s.pool, key), usable);
    GetIdle(s.pool, key, usable, key);
    AfterReused(idle, n);
  }

  lemma ReuseOtherKey(s: World, key: Key, usable: set<Handle>, k: Key)
    requires Get(s.pool, key, usable).0.Some? && KeyOk(s, k) && k != key
    requires var h := Get(s.pool, key, usable).0.value; h !in s.held && h in s.home && s.home[h] == key
    ensures KeyOk(AfterReuse(s, key, usable), k)
  {
    GetIdle(s.pool, key, usable, k);
  }

  lemma ReuseKeeps(s: World, key: Key, usable: set<Handle>)
    requires Inv(s) && Get(s.pool, key, usable).0.Some?
    ensures Inv(AfterReuse(s, key, usable))
  {
    assert KeyOk(s, key);
    ReuseSameKey(s, key, usable);
    GetIdle(s.pool, key, usable, key);
    forall k
      ensures KeyOk(AfterReuse(s, key, usable), k)
    {
      assert KeyOk(s, k);
      if k != key {
        ReuseOtherKey(s, key, usable, k);
      }
    }
    assert Owned(AfterReuse(s, key, usable));
  }

  function AfterPlaceholder(s: World, key: Key, placeholder: Handle): World {
    s.(pool := Acquire(s.pool, key, placeholder), creating := s.creating[placeholder := key])
  }

  lemma PlaceholderSameKey(s: World, key: Key, placeholder: Handle)
    requires KeyOk(s, key) && Idle(s.pool, key) == [] && Available(s.pool, key) > 0
    requires placeholder !in s.creating
    ensures KeyOk(AfterPlaceholder(s, key, placeholder), key)
  {
    var s' := AfterPlaceholder(s, key, placeholder);
    assert Idle(s'.pool, key) == [];
    if s.pool.limitPerHost != 0 {
      assert HostSet(s'.pool, key) == HostSet(s.pool, key) + {placeholder};
      assert |HostSet(s'.pool, key)| <= |HostSet(s.pool, key)| + 1;
    }
  }

  lemma PlaceholderOtherKey(s: World, key: Key, placeholder: Handle, k: Key)
    requires KeyOk(s, k) && k != key && placeholder !in s.creating
    ensures KeyOk(AfterPlaceholder(s, key, placeholder), k)
  {
    var s' := AfterPlaceholder(s, key, placeholder);
    assert Idle(s'.pool, k) == Idle(s.pool, k) && HostSet(s'.pool, k) == HostSet(s.pool, k);
  }

  lemma PlaceholderOwned(s: World, key: Key, placeholder: Handle)
    requires Owned(s) && Available(s.pool, key) > 0
    requires placeholder.Placeholder? && placeholder !in s.creating
    ensures Owned(AfterPlaceholder(s, key, placeholder))
  {
    CreatingWithinAcquired(s);
    MapSizes(s.creating, placeholder, key);
  }

  lemma PlaceholderKeeps(s: World, key: Key, placeholder: Handle)
    requires Inv(s) && Idle(s.pool, key) == [] && Available(s.pool, key) > 0
    requires placeholder.Placeholder? && placeholder !in s.creating
    ensures Inv(AfterPlaceholder(s, key, placeholder))
  {
    PlaceholderOwned(s, key, placeholder);
    forall k
      ensures KeyOk(AfterPlaceholder(s, key, placeholder), k)
    {
      assert KeyOk(s, k);
      if k == key {
        PlaceholderSameKey(s, key, placeholder);
      } else {
        PlaceholderOtherKey(s, key, placeholder, k);
      }
    }
  }

  lemma ConnectKeeps(s: World, e: Event)
    requires Inv(s) && e.ConnectE? && Enabled(s, e)
    ensures Inv(Do(s, e))
  {
    var (r, p') := Get(s.pool, e.key, e.usable);
    if r.Some? {
      ReuseKeeps(s, e.key, e.usable);
    } else {
      var s1 := s.(pool := p');
      EmptyIdleKeeps(s, e.key, e.usable);
      GetIdle(s.pool, e.key, e.usable, e.key);
      if Available(p', e.key) <= 0 {
        SameIdleKeeps(s1, Do(s, e));
      } else {
        PlaceholderKeeps(s1, e.key, e.placeholder);
      }
    }
  }

  /** A waiter that gets its turn goes on as a newcomer would. */
  lemma ResumeIsConnect(s: World, e: Event)
    requires e.ResumeE? && Enabled(s, e)
    ensures var key, s0 := s.parked[e.w], Resumed(s, e.w);
            Do(s, e) == if Available(s0.pool, key) > 0
                        then Do(s0, ConnectE(key, e.usable, e.w', e.placeholder))
                        else s0.(pool := s0.pool.(waiters := s0.pool.waiters[key := [e.w'] + Queue(s0.pool, key)]),
                                 parked := s0.parked[e.w' := key])
  {
    var key, s0 := s.parked[e.w], Resumed(s, e.w);
    GetIdle(s0.pool, key, e.usable, key);
    var (r, p') := Get(s0.pool, key, e.usable);
    assert r.None? ==> Available(p', key) == Available(s0.pool, key);
  }

  lemma ResumeKeeps(s: World, e: Event)
    requires Inv(s) && e.ResumeE? && Enabled(s, e)
    ensures Inv(Do(s, e))
  {
    var s0 := Resumed(s, e.w);
    SameIdleKeeps(s, s0);
    ResumeIsConnect(s, e);
    if Available(s0.pool, s.parked[e.w]) > 0 {
      ConnectKeeps(s0, ConnectE(s.parked[e.w], e.usable, e.w', e.placeholder));
    } else {
      SameIdleKeeps(s0, Do(s, e));
    }
  }

  lemma CreatedSameKey(s: World, e: Event)
    requires e.CreatedE? && Enabled(s, e) && Owned(s) && KeyOk(s, s.creating[e.placeholder])
    ensures KeyOk(Do(s, e), s.creating[e.placeholder])
  {
    var key, s' := s.creating[e.placeholder], Do(s, e);
    assert Idle(s'.pool, key) == Idle(s.pool, key);
    assert e.placeholder !in s.held && e.h !in s.held && e.h !in s.creating;
    if s.pool.limitPerHost != 0 {
      assert OwnedUnder(s, key, e.placeholder) && !OwnedUnder(s, key, e.h);
      assert HostSet(s'.pool, key) == HostSet(s.pool, key) - {e.placeholder} + {e.h};
    }
  }

  lemma CreatedOtherKey(s: World, e: Event, k: Key)
    requires e.CreatedE? && Enabled(s, e) && Owned(s) && KeyOk(s, k) && k != s.creating[e.placeholder]
    ensures KeyOk(Do(s, e), k)
  {
    var s' := Do(s, e);
    assert Idle(s'.pool, k) == Idle(s.pool, k) && HostSet(s'.pool, k) == HostSet(s.pool, k);
    assert e.placeholder !in s.held && e.h !in s.held && e.h !in s.creating;
    assert forall x :: OwnedUnder(s', k, x) <==> OwnedUnder(s, k, x);
  }

  lemma CreatedOwned(s: World, e: Event)
    requires Owned(s) && e.CreatedE? && Enabled(s, e)
    ensures Owned(Do(s, e))
  {
    MapSizes(s.creating, e.placeholder, 0);
  }

  lemma CreatedKeeps(s: World, e: Event)
    requires Inv(s) && e.CreatedE? && Enabled(s, e)
    ensures Inv(Do(s, e))
  {
    CreatedOwned(s, e);
    forall k
      ensures KeyOk(Do(s, e), k)
    {
      assert KeyOk(s, k);
      if k == s.creating[e.placeholder] {
        CreatedSameKey(s, e);
      } else {
        CreatedOtherKey(s, e, k);
      }
    }
  }

  /** The pool between `_release_acquired` and the wake-up it ends with. */
  function Dropped(s: World, key: Key, h: Handle): World {
    s.(pool := ReleaseAcquired(s.pool, key, h, []),
       creating := s.creating - {h}, held := s.held - {h})
  }

  lemma OneOwner(s: World, key: Key, h: Handle, k: Key)
    requires Owned(s) && OwnedUnder(s, key, h) && k != key
    ensures !OwnedUnder(s, k, h)
  {
    assert h in s.creating ==> h !in s.held;
  }

  lemma DropOtherKey(s: World, key: Key, h: Handle, k: Key)
    requires KeyOk(s, k) && !OwnedUnder(s, k, h) && k != key
    ensures KeyOk(Dropped(s, key, h), k)
  {
    var s' := Dropped(s, key, h);
    ReleaseElsewhere(s.pool, key, h, k);
    assert forall x :: OwnedUnder(s', k, x) <==> OwnedUnder(s, k, x);
    assert Idle(s'.pool, k) == Idle(s.pool, k);
  }

  lemma ReleaseElsewhere(p: Pool, key: Key, h: Handle, k: Key)
    ensures var p' := ReleaseAcquired(p, key, h, []);
            && p' == p.(acquired := p'.acquired, acquiredPerHost := p'.acquiredPerHost)
            && (k != key ==> HostSet(p', k) == HostSet(p, k))
  {
  }

  lemma DropSameKey(s: World, key: Key, h: Handle)
    requires KeyOk(s, key) && OwnedUnder(s, key, h)
    ensures var s' := Dropped(s, key, h);
            && KeyOk(s', key) && Idle(s'.pool, key) == Idle(s.pool, key)
            && (s.pool.limitPerHost != 0 ==>
                  |HostSet(s'.pool, key)| + |Idle(s.pool, key)| < s.pool.limitPerHost)
  {
    assert s.pool.limitPerHost != 0 ==> h in HostSet(s.pool, key);
    assert s.pool.limitPerHost != 0 ==> HostSet(Dropped(s, key, h).pool, key) == HostSet(s.pool, key) - {h};
  }

  lemma DropOwned(s: World, key: Key, h: Handle)
    requires Owned(s) && OwnedUnder(s, key, h)
    ensures Owned(Dropped(s, key, h))
  {
    MapSizes(s.creating, h, key);
  }

  lemma DropKeeps(s: World, key: Key, h: Handle)
    requires Inv(s) && OwnedUnder(s, key, h)
    ensures Inv(Dropped(s, key, h))
    ensures Idle(Dropped(s, key, h).pool, key) == Idle(s.pool, key)
    ensures s.pool.limitPerHost != 0 ==>
              |HostSet(Dropped(s, key, h).pool, key)| + |Idle(s.pool, key)| < s.pool.limitPerHost
  {
    DropOwned(s, key, h);
    assert KeyOk(s, key);
    DropSameKey(s, key, h);
    forall k
      ensures KeyOk(Dropped(s, key, h), k)
    {
      assert KeyOk(s, k);
      if k != key {
        OneOwner(s, key, h, k);
        DropOtherKey(s, key, h, k);
      }
    }
  }

  /** `_release_acquired` is the drop followed by the wake-up. */
  lemma ReleaseAcquiredSplit(p: Pool, key: Key, h: Handle, order: seq<Key>)
    ensures ReleaseAcquired(p, key, h, order) == ReleaseWaiter(ReleaseAcquired(p, key, h, []), order)
  {
  }

  /** `_release_acquired` as a step: the handle is gone, somebody may have been woken. */
  lemma ReleaseAcquiredKeeps(s: World, key: Key, h: Handle, order: seq<Key>)
    requires Inv(s) && OwnedUnder(s, key, h)
    ensures var s' := Dropped(s, key, h).(pool := ReleaseAcquired(s.pool, key, h, order));
            && Inv(s') && Idle(s'.pool, key) == Idle(s.pool, key)
            && s'.pool.limitPerHost == s.pool.limitPerHost
            && (s.pool.limitPerHost != 0 ==>
                  |HostSet(s'.pool, key)| + |Idle(s.pool, key)| < s.pool.limitPerHost)
  {
    DropKeeps(s, key, h);
    var s1 := Dropped(s, key, h);
    ReleaseAcquiredSplit(s.pool, key, h, order);
    ReleaseWaiterKeeps(s1.pool, order);
    SameIdleKeeps(s1, s1.(pool := ReleaseWaiter(s1.pool, order)));
  }

  lemma FailedKeeps(s: World, e: Event)
    requires Inv(s) && e.FailedE? && Enabled(s, e)
    ensures Inv(Do(s, e))
  {
    ReleaseAcquiredKeeps(s, s.creating[e.placeholder], e.placeholder, e.order);
    assert e.placeholder !in s.held;
    assert s.held - {e.placeholder} == s.held;
  }

  lemma ReleaseKeeps(s: World, e: Event)
    requires Inv(s) && e.ReleaseE? && Enabled(s, e)
    ensures Inv(Do(s, e))
  {
    var key := s.held[e.h];
    var s1 := Returned(s, key, e.h, e.order);
    assert KeyOk(s, key);
    assert s1.home == s.home && s.home[e.h] == key && Idle(s1.pool, key) == Idle(s.pool, key);
    if e.close {
      assert Do(s, e) == s1;
    } else {
      IdleAgain(s1, key, e.h);
      assert Do(s, e) == s1.(pool := s1.pool.(conns := s1.pool.conns[key := Idle(s1.pool, key) + [e.h]]));
    }
  }

  /** The connection has been given back and somebody may have been woken; it is not idle yet. */
  lemma Returned(s: World, key: Key, h: Handle, order: seq<Key>) returns (s1: World)
    requires Inv(s) && h in s.held && s.held[h] == key
    ensures s1 == s.(pool := ReleaseAcquired(s.pool, key, h, order), held := s.held - {h})
    ensures Inv(s1) && Idle(s1.pool, key) == Idle(s.pool, key) && s1.pool.limitPerHost == s.pool.limitPerHost
    ensures s.pool.limitPerHost != 0 ==> |HostSet(s1.pool, key)| + |Idle(s.pool, key)| < s.pool.limitPerHost
  {
    NotCreating(s, h);
    s1 := AfterDrop(s, key, h, order);
  }

  lemma NotCreating(s: World, h: Handle)
    requires Inv(s) && h in s.held
    ensures s.creating - {h} == s.creating
  {
    assert h !in s.creating;
  }

  /** `ReleaseAcquiredKeeps` for a pool that is not looked into. */
  lemma AfterDrop(s: World, key: Key, h: Handle, order: seq<Key>) returns (s1: World)
    requires Inv(s) && OwnedUnder(s, key, h)
    ensures s1 == s.(pool := ReleaseAcquired(s.pool, key, h, order), creating := s.creating - {h}, held := s.held - {h})
    ensures Inv(s1) && Idle(s1.pool, key) == Idle(s.pool, key) && s1.pool.limitPerHost == s.pool.limitPerHost
    ensures s.pool.limitPerHost != 0 ==> |HostSet(s1.pool, key)| + |Idle(s.pool, key)| < s.pool.limitPerHost
  {
    ReleaseAcquiredKeeps(s, key, h, order);
    s1 := Dropped(s, key, h).(pool := ReleaseAcquired(s.pool, key, h, order));
  }

  /** A released protocol may join the idle queue of its key: it leaves its own room there. */
  lemma IdleAgain(s: World, key: Key, h: Handle)
    requires Inv(s) && h !in s.held && h in s.home && s.home[h] == key && h !in Idle(s.pool, key)
    requires s.pool.limitPerHost != 0 ==> |HostSet(s.pool, key)| + |Idle(s.pool, key)| < s.pool.limitPerHost
    ensures Inv(s.(pool := s.pool.(conns := s.pool.conns[key := Idle(s.pool, key) + [h]])))
  {
    var s' := s.(pool := s.pool.(conns := s.pool.conns[key := Idle(s.pool, key) + [h]]));
    forall k
      ensures KeyOk(s', k)
    {
      assert KeyOk(s, k);
      assert HostSet(s'.pool, k) == HostSet(s.pool, k);
      assert k != key ==> Idle(s'.pool, k) == Idle(s.pool, k);
    }
  }

  lemma CleanupKeeps(s: World, e: Event)
    requires Inv(s) && e.CleanupE?
    ensures Inv(Do(s, e))
  {
    forall k
      ensures NoDup(Idle(Do(s, e).pool, k)) && |Idle(Do(s, e).pool, k)| <= |Idle(s.pool, k)|
      ensures forall h :: h in Idle(Do(s, e).pool, k) ==> h in Idle(s.pool, k)
    {
      assert KeyOk(s, k);
      CleanupIdle(s.pool, e.usable, k);
      FilterKeeps(Idle(s.pool, k), e.usable);
    }
    LessIdleKeeps(s, Do(s, e));
  }

  lemma StepKeeps(s: World, e: Event)
    requires Inv(s) && Enabled(s, e)
    ensures Inv(Do(s, e))
  {
    match e {
      case ConnectE(_, _, _, _) => ConnectKeeps(s, e);
      case ResumeE(_, _, _, _) => ResumeKeeps(s, e);
      case CreatedE(_, _) => CreatedKeeps(s, e);
      case FailedE(_, _) => FailedKeeps(s, e);
      case ReleaseE(_, _, _) => ReleaseKeeps(s, e);
      case CleanupE(_) => CleanupKeeps(s, e);
    }
  }

  /** Ownership and both bounds hold in every state any run can reach. */
  lemma {:induction false} RunKeeps(s: World, es: seq<Event>)
    requires Inv(s) && AllEnabled(s, es)
    ensures Inv(DoAll(s, es))
    decreases |es|
  {
    if es != [] {
      StepKeeps(s, es[0]);
      RunKeeps(Do(s, es[0]), es[1..]);
    }
  }

  /** A new protocol takes over the slot of its placeholder, under its own key and no other. */
  lemma CreatedMeans(s: World, e: Event)
    requires Inv(s) && Enabled(s, e) && e.CreatedE?
    ensures var p := Do(s, e).pool;
            && e.placeholder !in p.acquired && e.h in p.acquired && |p.acquired| == |s.pool.acquired|
            && (p.limitPerHost != 0 ==> forall k :: e.h in HostSet(p, k) <==> k == s.creating[e.placeholder])
  {
    var s' := Do(s, e);
    StepKeeps(s, e);
    assert e.h !in s.pool.acquired && e.placeholder in s.pool.acquired;
    forall k | s'.pool.limitPerHost != 0
      ensures e.h in HostSet(s'.pool, k) <==> k == s.creating[e.placeholder]
    {
      assert KeyOk(s', k);
      assert OwnedUnder(s', k, e.h) <==> k == s.creating[e.placeholder];
    }
  }

  lemma InitOwned(limit: nat, limitPerHost: nat)
    ensures Inv(Init(limit, limitPerHost))
  {
    forall k
      ensures KeyOk(Init(limit, limitPerHost), k)
    {
    }
  }

  lemma EveryReachableStateIsOwned(limit: nat, limitPerHost: nat, es: seq<Event>)
    requires AllEnabled(Init(limit, limitPerHost), es)
    ensures Inv(DoAll(Init(limit, limitPerHost), es))
  {
    InitOwned(limit, limitPerHost);
    RunKeeps(Init(limit, limitPerHost), es);
  }
}
