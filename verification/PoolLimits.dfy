/**
  Where the pool falls short of what its documentation promises: the exact
  limits under which a wake-up can be lost, and the one step that takes the
  acquired connections beyond `limit`.
 */
module PoolLimits {
  import opened Options
  import opened PoolModel
  import opened PoolOwnership
  import opened PoolWakeups

  ghost predicate Reachable(limit: nat, limitPerHost: nat, s: World) {
    exists es :: AllEnabled(Init(limit, limitPerHost), es) && DoAll(Init(limit, limitPerHost), es) == s
  }

  lemma {:induction false} OneMore(s: World, es: seq<Event>, e: Event)
    requires AllEnabled(s, es) && Enabled(DoAll(s, es), e)
    ensures AllEnabled(s, es + [e]) && DoAll(s, es + [e]) == Do(DoAll(s, es), e)
    decreases |es|
  {
    if es == [] {
      assert (es + [e])[0] == e && (es + [e])[1..] == [];
    } else {
      assert (es + [e])[0] == es[0] && (es + [e])[1..] == es[1..] + [e];
      OneMore(Do(s, es[0]), es[1..], e);
    }
  }

  lemma ReachStep(limit: nat, limitPerHost: nat, s: World, e: Event)
    requires Reachable(limit, limitPerHost, s) && Enabled(s, e)
    ensures Reachable(limit, limitPerHost, Do(s, e))
  {
    var es :| AllEnabled(Init(limit, limitPerHost), es) && DoAll(Init(limit, limitPerHost), es) == s;
    OneMore(Init(limit, limitPerHost), es, e);
  }

  lemma ReachInit(limit: nat, limitPerHost: nat)
    ensures Reachable(limit, limitPerHost, Init(limit, limitPerHost))
  {
    assert AllEnabled(Init(limit, limitPerHost), []) && DoAll(Init(limit, limitPerHost), []) == Init(limit, limitPerHost);
  }

  // ---------------------------------------------------------------------
  // The total limit.
  // ---------------------------------------------------------------------

  lemma ConnectLimit(s: World, key: Key, usable: set<Handle>, w: Waiter, placeholder: Handle)
    requires Inv(s) && s.pool.limit != 0 && |s.pool.acquired| <= s.pool.limit
    ensures |Connect(s.pool, key, usable, w, placeholder).1.acquired| <= s.pool.limit
       <==> !(|s.pool.acquired| == s.pool.limit && Get(s.pool, key, usable).0.Some?)
  {
    GetKeeps(s.pool, key, usable);
    var (r, p') := Get(s.pool, key, usable);
    if r.Some? {
      assert KeyOk(s, key);
      assert r.value !in s.held && r.value !in s.pool.acquired;
      assert |p'.acquired| == |s.pool.acquired| + 1;
    } else if Available(p', key) > 0 {
      assert |s.pool.acquired| < s.pool.limit;
      assert |Acquire(p', key, placeholder).acquired| <= |s.pool.acquired| + 1;
    }
  }

  lemma ResumeLimit(s: World, w: Waiter, usable: set<Handle>, w': Waiter, placeholder: Handle)
    requires s.pool.limit != 0 && |s.pool.acquired| <= s.pool.limit && w in s.parked
    ensures |Resume(s.pool, s.parked[w], w, usable, w', placeholder).1.acquired| <= s.pool.limit
  {
    GetKeeps(Resumed(s, w).pool, s.parked[w], usable);
  }

  lemma ReleaseLimit(p: Pool, key: Key, h: Handle, order: seq<Key>)
    ensures |ReleaseAcquired(p, key, h, order).acquired| <= |p.acquired|
  {
    ReleaseWaiterKeeps(ReleaseAcquired(p, key, h, []), order);
  }

  /**
    A step from within the limit stays within it, except one: `connect` reusing an
    idle connection when all slots are taken, which it does without a look at the limit.
   */
  lemma LimitKeptUnlessReuse(s: World, e: Event)
    requires Inv(s) && Enabled(s, e) && s.pool.limit != 0 && |s.pool.acquired| <= s.pool.limit
    ensures |Do(s, e).pool.acquired| <= s.pool.limit
       <==> !(e.ConnectE? && |s.pool.acquired| == s.pool.limit && Get(s.pool, e.key, e.usable).0.Some?)
  {
    match e {
      case ConnectE(key, usable, w, placeholder) => ConnectLimit(s, key, usable, w, placeholder);
      case ResumeE(w, usable, w', placeholder) => ResumeLimit(s, w, usable, w', placeholder);
      case CreatedE(placeholder, h) => assert placeholder in s.pool.acquired;
      case FailedE(h, order) => ReleaseLimit(s.pool, s.creating[h], h, order);
      case ReleaseE(h, _, order) => ReleaseLimit(s.pool, s.held[h], h, order);
      case CleanupE(_) =>
    }
  }

  // A run with `limit == 1`: connect to host 0 and release, connect to host 1, connect to host 0 again.

  const Reused: Handle := Proto(0)

  function OnePool(acquired: set<Handle>, conns: map<Key, seq<Handle>>): Pool {
    Pool(1, 0, acquired, map[], conns, map[], {})
  }

  const W1 := World(OnePool({Placeholder(0)}, map[]), map[Placeholder(0) := 0], map[], map[], map[])
  const W2 := World(OnePool({Reused}, map[]), map[], map[Reused := 0], map[], map[Reused := 0])
  const W3 := World(OnePool({}, map[0 := [Reused]]), map[], map[], map[], map[Reused := 0])
  const W4 := World(OnePool({Placeholder(1)}, map[0 := [Reused]]), map[Placeholder(1) := 1], map[], map[],
                    map[Reused := 0])

  lemma Run1()
    ensures Enabled(Init(1, 0), ConnectE(0, {}, 0, Placeholder(0)))
            && Do(Init(1, 0), ConnectE(0, {}, 0, Placeholder(0))) == W1
  {
    assert Get(Init(1, 0).pool, 0, {}).1 == Init(1, 0).pool;
  }

  lemma Run2()
    ensures Enabled(W1, CreatedE(Placeholder(0), Reused)) && Do(W1, CreatedE(Placeholder(0), Reused)) == W2
  {
  }

  lemma Run3()
    ensures Enabled(W2, ReleaseE(Reused, false, [])) && Do(W2, ReleaseE(Reused, false, [])) == W3
  {
    assert [] + [Reused] == [Reused];
    assert ReleaseAcquired(W2.pool, 0, Reused, []).acquired == {};
  }

  lemma Run4()
    ensures Enabled(W3, ConnectE(1, {}, 0, Placeholder(1))) && Do(W3, ConnectE(1, {}, 0, Placeholder(1))) == W4
  {
    assert Get(W3.pool, 1, {}).1 == W3.pool;
  }

  lemma Run5()
    ensures Enabled(W4, ConnectE(0, {Reused}, 0, Placeholder(0)))
            && Do(W4, ConnectE(0, {Reused}, 0, Placeholder(0))).pool.acquired == {Placeholder(1), Reused}
  {
    assert Idle(W4.pool, 0) == [Reused] && Stale([Reused], {Reused}) == 0;
    assert Get(W4.pool, 0, {Reused}).0 == Some(Reused);
    assert {Placeholder(1)} + {Reused} == {Placeholder(1), Reused};
  }

  /** "The total number of simultaneous connections" is not bounded by `limit`. */
  lemma LimitCanBeExceeded()
    ensures exists s :: Reachable(1, 0, s) && |s.pool.acquired| == 2
  {
    ReachInit(1, 0);
    Run1();
    ReachStep(1, 0, Init(1, 0), ConnectE(0, {}, 0, Placeholder(0)));
    Run2();
    ReachStep(1, 0, W1, CreatedE(Placeholder(0), Reused));
    Run3();
    ReachStep(1, 0, W2, ReleaseE(Reused, false, []));
    Run4();
    ReachStep(1, 0, W3, ConnectE(1, {}, 0, Placeholder(1)));
    Run5();
    ReachStep(1, 0, W4, ConnectE(0, {Reused}, 0, Placeholder(0)));
  }

  // ---------------------------------------------------------------------
  // Sizes.
  // ---------------------------------------------------------------------

  /** The numbers that decide availability for hosts 0 and 1. */
  ghost predicate Sizes(p: Pool, a: int, b: int) {
    |HostSet(p, 0)| == a && |HostSet(p, 1)| == b && |p.acquired| == a + b
  }

  function Up(a: int, key: Key, which: Key): int {
    if key == which then a + 1 else a
  }

  lemma AcquireSizes(p: Pool, key: Key, h: Handle, a: int, b: int)
    requires p.limitPerHost != 0 && key <= 1 && Sizes(p, a, b)
    requires h !in p.acquired && h !in HostSet(p, key)
    ensures Sizes(Acquire(p, key, h), Up(a, key, 0), Up(b, key, 1))
    ensures h in HostSet(Acquire(p, key, h), key)
  {
  }

  lemma CreatedSizes(p: Pool, key: Key, placeholder: Handle, h: Handle, a: int, b: int)
    requires p.limitPerHost != 0 && key <= 1 && Sizes(p, a, b)
    requires placeholder in p.acquired && placeholder in HostSet(p, key)
    requires h !in p.acquired && h !in HostSet(p, key)
    ensures Sizes(Created(p, key, placeholder, h), a, b)
  {
  }

  lemma DropSizes(p: Pool, key: Key, h: Handle, a: int, b: int)
    requires p.limitPerHost != 0 && key <= 1 && Sizes(p, a, b)
    requires h in p.acquired && h in HostSet(p, key)
    ensures Sizes(ReleaseAcquired(p, key, h, []), if key == 0 then a - 1 else a, if key == 1 then b - 1 else b)
  {
    ReleaseElsewhere(p, key, h, 1 - key);
    assert HostSet(ReleaseAcquired(p, key, h, []), key) == HostSet(p, key) - {h};
  }

  lemma Unknown(s: World, h: Handle, key: Key)
    requires Inv(s) && s.pool.limitPerHost != 0 && h !in s.creating && h !in s.held
    ensures h !in s.pool.acquired && h !in HostSet(s.pool, key)
  {
    assert KeyOk(s, key);
  }

  // ---------------------------------------------------------------------
  // A lost wake-up, for every pair of limits that allows one.
  // ---------------------------------------------------------------------

  /** A reachable state with `a` connections to host 0, `b` to host 1, and none idle. */
  ghost predicate Loaded(limit: nat, limitPerHost: nat, s: World, a: int, b: int,
                         waiters: map<Key, seq<Waiter>>, woken: set<Waiter>)
  {
    && Reachable(limit, limitPerHost, s) && Inv(s)
    && s.pool.limit == limit && s.pool.limitPerHost == limitPerHost != 0
    && Sizes(s.pool, a, b)
    && Idle(s.pool, 0) == [] && Idle(s.pool, 1) == []
    && s.pool.waiters == waiters && s.pool.woken == woken
  }

  /** Availability by numbers. */
  function Room(limit: nat, limitPerHost: nat, mine: int, all: int): int {
    var total := if limit != 0 then limit - all else 1;
    if limit != 0 && total <= 0 then total
    else if total > limitPerHost - mine then limitPerHost - mine
    else total
  }

  lemma RoomIsAvailable(limit: nat, limitPerHost: nat, s: World, a: int, b: int,
                        waiters: map<Key, seq<Waiter>>, woken: set<Waiter>)
    requires Loaded(limit, limitPerHost, s, a, b, waiters, woken)
    ensures Available(s.pool, 0) == Room(limit, limitPerHost, a, a + b)
    ensures Available(s.pool, 1) == Room(limit, limitPerHost, b, a + b)
  {
  }

  lemma GrowConnect(limit: nat, limitPerHost: nat, s: World, a: int, b: int, key: Key, n: nat) returns (s': World)
    requires Loaded(limit, limitPerHost, s, a, b, map[], {}) && key <= 1 && Available(s.pool, key) > 0
    requires s.creating == map[] && s.parked == map[]
    ensures Loaded(limit, limitPerHost, s', Up(a, key, 0), Up(b, key, 1), map[], {})
    ensures s'.creating == map[Placeholder(n) := key] && s'.parked == map[] && s'.home == s.home
    ensures Placeholder(n) in HostSet(s'.pool, key)
  {
    var e := ConnectE(key, {}, 0, Placeholder(n));
    s' := Do(s, e);
    Unknown(s, Placeholder(n), key);
    ReachStep(limit, limitPerHost, s, e);
    StepKeeps(s, e);
    var p' := Get(s.pool, key, {}).1;
    assert p' == s.pool.(conns := s.pool.conns - {key});
    AcquireSizes(p', key, Placeholder(n), a, b);
  }

  lemma GrowCreated(limit: nat, limitPerHost: nat, s: World, a: int, b: int, key: Key, n: nat) returns (s': World)
    requires Loaded(limit, limitPerHost, s, a, b, map[], {}) && key <= 1
    requires s.creating == map[Placeholder(n) := key] && s.parked == map[] && Proto(n) !in s.home
    requires Placeholder(n) in HostSet(s.pool, key)
    ensures Loaded(limit, limitPerHost, s', a, b, map[], {})
    ensures s'.creating == map[] && s'.parked == map[] && s'.home == s.home[Proto(n) := key]
  {
    var e := CreatedE(Placeholder(n), Proto(n));
    s' := Do(s, e);
    assert Proto(n) !in s.held;
    Unknown(s, Proto(n), key);
    assert Placeholder(n) in s.pool.acquired;
    ReachStep(limit, limitPerHost, s, e);
    StepKeeps(s, e);
    CreatedSizes(s.pool, key, Placeholder(n), Proto(n), a, b);
  }

  lemma Grow(limit: nat, limitPerHost: nat, s: World, a: nat, b: nat, key: Key) returns (s': World)
    requires Loaded(limit, limitPerHost, s, a, b, map[], {}) && key <= 1
    requires Room(limit, limitPerHost, if key == 0 then a else b, a + b) > 0
    requires s.creating == map[] && s.parked == map[] && forall x :: x in s.home ==> x.id < a + b
    ensures Loaded(limit, limitPerHost, s', Up(a, key, 0), Up(b, key, 1), map[], {})
    ensures s'.creating == map[] && s'.parked == map[] && forall x :: x in s'.home ==> x.id < a + b + 1
  {
    RoomIsAvailable(limit, limitPerHost, s, a, b, map[], {});
    assert Available(s.pool, key) > 0 by {
      if key == 0 { } else { assert key == 1; }
    }
    var s1 := GrowConnect(limit, limitPerHost, s, a, b, key, a + b);
    s' := GrowCreated(limit, limitPerHost, s1, Up(a, key, 0), Up(b, key, 1), key, a + b);
  }

  /** As many connections to the two hosts as the limits allow. */
  lemma {:induction false} Fill(limit: nat, limitPerHost: nat, a: nat, b: nat) returns (s: World)
    requires limitPerHost != 0 && a <= limitPerHost && b <= limitPerHost && (limit != 0 ==> a + b <= limit)
    ensures Loaded(limit, limitPerHost, s, a, b, map[], {})
    ensures s.creating == map[] && s.parked == map[] && forall x :: x in s.home ==> x.id < a + b
    decreases a + b
  {
    if a + b == 0 {
      s := Init(limit, limitPerHost);
      ReachInit(limit, limitPerHost);
      InitOwned(limit, limitPerHost);
    } else if b > 0 {
      var s0 := Fill(limit, limitPerHost, a, b - 1);
      s := Grow(limit, limitPerHost, s0, a, b - 1, 1);
    } else {
      var s0 := Fill(limit, limitPerHost, a - 1, b);
      s := Grow(limit, limitPerHost, s0, a - 1, b, 0);
    }
  }

  lemma ConnectQueues(p: Pool, key: Key, w: Waiter, q: seq<Waiter>, a: int, b: int)
    requires Idle(p, 0) == [] && Idle(p, 1) == [] && Sizes(p, a, b) && key <= 1
    requires Available(p, key) <= 0 && Queue(p, key) == q
    ensures var (r, p') := Connect(p, key, {}, w, Placeholder(0));
            && r == Queued && p'.waiters == p.waiters[key := q + [w]] && p'.woken == p.woken
            && Idle(p', 0) == [] && Idle(p', 1) == [] && Sizes(p', a, b)
            && p'.limit == p.limit && p'.limitPerHost == p.limitPerHost
  {
    assert Get(p, key, {}).1 == p.(conns := p.conns - {key});
  }

  lemma QueueIs(p: Pool, waiters: map<Key, seq<Waiter>>, key: Key, q: seq<Waiter>)
    requires p.waiters == waiters
    requires if key in waiters then waiters[key] == q else q == []
    ensures Queue(p, key) == q
  {
  }

  /** A connect that has to queue, behind `q`. */
  lemma QueueUp(limit: nat, limitPerHost: nat, s: World, a: int, b: int,
                waiters: map<Key, seq<Waiter>>, key: Key, q: seq<Waiter>, w: Waiter) returns (s': World)
    requires Loaded(limit, limitPerHost, s, a, b, waiters, {}) && s.creating == map[]
    requires key <= 1 && Room(limit, limitPerHost, if key == 0 then a else b, a + b) <= 0 && w !in s.parked
    requires if key in waiters then waiters[key] == q else q == []
    ensures Loaded(limit, limitPerHost, s', a, b, waiters[key := q + [w]], {})
    ensures s'.creating == map[] && s'.parked == s.parked[w := key]
  {
    RoomIsAvailable(limit, limitPerHost, s, a, b, waiters, {});
    QueueIs(s.pool, waiters, key, q);
    assert Available(s.pool, key) <= 0 by {
      if key == 0 { } else { assert key == 1; }
    }
    ConnectQueues(s.pool, key, w, q, a, b);
    var e := ConnectE(key, {}, w, Placeholder(0));
    s' := Do(s, e);
    ReachStep(limit, limitPerHost, s, e);
    StepKeeps(s, e);
  }

  /** `_release_acquired` when the shuffle puts host 0 first, and host 0 has a waiter and a slot. */
  lemma WakeFor0(p: Pool, key: Key, h: Handle, a: int, b: int, q0: seq<Waiter>, q1: seq<Waiter>)
    requires p.limitPerHost != 0 && key <= 1 && Sizes(p, a, b) && q0 != []
    requires h in p.acquired && h in HostSet(p, key) && p.waiters == map[0 := q0, 1 := q1]
    requires Room(p.limit, p.limitPerHost, if key == 0 then a - 1 else a, a + b - 1) >= 1
    ensures var p' := ReleaseAcquired(p, key, h, [0, 1]);
            && Sizes(p', if key == 0 then a - 1 else a, if key == 1 then b - 1 else b)
            && p'.waiters == map[0 := q0[1..], 1 := q1] && p'.woken == p.woken + {q0[0]}
            && p'.conns == p.conns && p'.limit == p.limit && p'.limitPerHost == p.limitPerHost
  {
    var p1 := ReleaseAcquired(p, key, h, []);
    DropSizes(p, key, h, a, b);
    ReleaseElsewhere(p, key, h, 1 - key);
    ReleaseAcquiredSplit(p, key, h, [0, 1]);
    assert Available(p1, 0) >= 1 && Queue(p1, 0) == q0;
    assert p1.waiters[0 := q0[1..]] == map[0 := q0[1..], 1 := q1];
  }

  lemma ReleaseFor0(limit: nat, limitPerHost: nat, s: World, a: int, b: int, key: Key,
                    q0: seq<Waiter>, q1: seq<Waiter>, woken: set<Waiter>) returns (s': World)
    requires Loaded(limit, limitPerHost, s, a, b, map[0 := q0, 1 := q1], woken) && s.creating == map[]
    requires q0 != [] && key <= 1 && (if key == 0 then a else b) > 0
    requires Room(limit, limitPerHost, if key == 0 then a - 1 else a, a + b - 1) >= 1
    ensures Loaded(limit, limitPerHost, s', if key == 0 then a - 1 else a, if key == 1 then b - 1 else b,
                   map[0 := q0[1..], 1 := q1], woken + {q0[0]})
    ensures s'.creating == map[] && s'.parked == s.parked
  {
    var h :| h in HostSet(s.pool, key);
    assert KeyOk(s, key);
    assert h in s.held && s.held[h] == key && h in s.pool.acquired;
    var e := ReleaseE(h, true, [0, 1]);
    ReachStep(limit, limitPerHost, s, e);
    StepKeeps(s, e);
    WakeFor0(s.pool, key, h, a, b, q0, q1);
    s' := Do(s, e);
  }

  /** What `Resume` does for host 0 when nothing is idle and its queue has just been emptied. */
  lemma ResumeTakes(p: Pool, w: Waiter, a: int, b: int, q1: seq<Waiter>)
    requires p.limitPerHost != 0 && Sizes(p, a, b) && Idle(p, 0) == []
    requires p.waiters == map[0 := [], 1 := q1] && Room(p.limit, p.limitPerHost, a, a + b) >= 1
    requires Placeholder(0) !in p.acquired && Placeholder(0) !in HostSet(p, 0)
    ensures var (r, p') := Resume(p, 0, w, {}, 9, Placeholder(0));
            && r == Creating && Sizes(p', a + 1, b) && p'.waiters == map[1 := q1] && p'.woken == p.woken - {w}
            && Idle(p', 0) == [] && Idle(p', 1) == Idle(p, 1)
            && p'.limit == p.limit && p'.limitPerHost == p.limitPerHost
  {
    var p0 := p.(woken := p.woken - {w}, waiters := p.waiters - {0});
    assert p0.waiters == map[1 := q1];
    var p1 := Get(p0, 0, {}).1;
    assert p1 == p0.(conns := p0.conns - {0});
    AcquireSizes(p1, 0, Placeholder(0), a, b);
  }

  lemma ResumeQueues(p: Pool, w: Waiter, a: int, b: int, q1: seq<Waiter>)
    requires p.limitPerHost != 0 && Sizes(p, a, b)
    requires p.waiters == map[1 := q1] && Room(p.limit, p.limitPerHost, a, a + b) <= 0
    ensures var (r, p') := Resume(p, 0, w, {}, 9, Placeholder(1));
            && r == Queued && p' == p.(waiters := map[0 := [9], 1 := q1], woken := p.woken - {w})
  {
    var p0 := p.(woken := p.woken - {w});
    assert [9] + Queue(p0, 0) == [9];
    assert p0.waiters[0 := [9]] == map[0 := [9], 1 := q1];
  }

  /** The first of two woken waiters of host 0 takes the slot that was there for it. */
  lemma FirstTakes(limit: nat, limitPerHost: nat, s: World, a: int, b: int,
                   q1: seq<Waiter>, w: Waiter, woken: set<Waiter>) returns (s': World)
    requires Loaded(limit, limitPerHost, s, a, b, map[0 := [], 1 := q1], woken) && s.creating == map[]
    requires w in woken && w in s.parked && s.parked[w] == 0 && 9 !in s.parked
    requires Room(limit, limitPerHost, a, a + b) >= 1
    ensures Loaded(limit, limitPerHost, s', a + 1, b, map[1 := q1], woken - {w})
    ensures s'.parked == s.parked - {w} && s'.creating == map[Placeholder(0) := 0]
  {
    var e := ResumeE(w, {}, 9, Placeholder(0));
    s' := Do(s, e);
    Unknown(s, Placeholder(0), 0);
    ReachStep(limit, limitPerHost, s, e);
    StepKeeps(s, e);
    ResumeTakes(s.pool, w, a, b, q1);
  }

  /** The second one finds the host full again and queues in front. */
  lemma SecondQueues(limit: nat, limitPerHost: nat, s: World, a: int, b: int,
                     q1: seq<Waiter>, w: Waiter, woken: set<Waiter>) returns (s': World)
    requires Loaded(limit, limitPerHost, s, a, b, map[1 := q1], woken)
    requires w in woken && w in s.parked && s.parked[w] == 0 && 9 !in s.parked && Placeholder(1) !in s.creating
    requires Room(limit, limitPerHost, a, a + b) <= 0
    ensures Loaded(limit, limitPerHost, s', a, b, map[0 := [9], 1 := q1], woken - {w})
  {
    var e := ResumeE(w, {}, 9, Placeholder(1));
    s' := Do(s, e);
    ReachStep(limit, limitPerHost, s, e);
    StepKeeps(s, e);
    ResumeQueues(s.pool, w, a, b, q1);
  }

  /**
    Host 0 is full, host 1 takes what the limits leave; two waiters queue for host
    0 and one for host 1. Two releases both wake host 0's waiters; only one of
    them can use its turn, and the waiter of host 1 waits beside a free slot.
   */
  lemma LostWakeup(limit: nat, limitPerHost: nat) returns (s: World)
    requires !OneLimitCounts(limit, limitPerHost)
    ensures Reachable(limit, limitPerHost, s) && !NoLostWakeup(s)
  {
    var a := limitPerHost;
    var b := if limit != 0 && limit - limitPerHost < limitPerHost then limit - limitPerHost else limitPerHost;
    var s3 := ThreeQueue(limit, limitPerHost, a, b);
    var s4, s5 := TwoReleases(limit, limitPerHost, s3, a, b);
    s := TwoResumptions(limit, limitPerHost, s5, a, b);
  }

  lemma ThreeQueue(limit: nat, limitPerHost: nat, a: nat, b: nat) returns (s3: World)
    requires a == limitPerHost != 0 && b <= limitPerHost && (limit != 0 ==> a + b <= limit)
    requires Room(limit, limitPerHost, a, a + b) <= 0 && Room(limit, limitPerHost, b, a + b) <= 0
    ensures Loaded(limit, limitPerHost, s3, a, b, map[0 := [1, 2], 1 := [3]], {}) && s3.creating == map[]
    ensures s3.parked == map[1 := 0, 2 := 0, 3 := 1]
  {
    Queues();
    var s0 := Fill(limit, limitPerHost, a, b);
    var s1 := QueueUp(limit, limitPerHost, s0, a, b, map[], 0, [], 1);
    var s2 := QueueUp(limit, limitPerHost, s1, a, b, map[0 := [1]], 0, [1], 2);
    s3 := QueueUp(limit, limitPerHost, s2, a, b, map[0 := [1, 2]], 1, [], 3);
  }

  lemma Queues()
    ensures map[][0 := [] + [1]] == map[0 := [1]]
    ensures map[0 := [1]][0 := [1] + [2]] == map[0 := [1, 2]]
    ensures map[0 := [1, 2]][1 := [] + [3]] == map[0 := [1, 2], 1 := [3]]
  {
    assert [] + [1] == [1] && [1] + [2] == [1, 2] && [] + [3] == [3];
  }

  lemma TwoReleases(limit: nat, limitPerHost: nat, s3: World, a: nat, b: nat) returns (s4: World, s5: World)
    requires Loaded(limit, limitPerHost, s3, a, b, map[0 := [1, 2], 1 := [3]], {}) && s3.creating == map[]
    requires a == limitPerHost && 1 <= b && (limit != 0 ==> a + b <= limit)
    ensures Loaded(limit, limitPerHost, s5, a - 1, b - 1, map[0 := [], 1 := [3]], {1, 2})
    ensures s5.creating == map[] && s5.parked == s3.parked
  {
    s4 := ReleaseFor0(limit, limitPerHost, s3, a, b, 0, [1, 2], [3], {});
    assert [1, 2][1..] == [2] && {} + {1} == {1};
    s5 := ReleaseFor0(limit, limitPerHost, s4, a - 1, b, 1, [2], [3], {1});
    assert [2][1..] == [] && {1} + {2} == {1, 2};
  }

  lemma TwoResumptions(limit: nat, limitPerHost: nat, s5: World, a: nat, b: nat) returns (s: World)
    requires Loaded(limit, limitPerHost, s5, a - 1, b - 1, map[0 := [], 1 := [3]], {1, 2})
    requires s5.creating == map[] && s5.parked == map[1 := 0, 2 := 0, 3 := 1]
    requires a == limitPerHost && 1 <= b <= limitPerHost && (limit != 0 ==> a + b <= limit)
    ensures Reachable(limit, limitPerHost, s) && !NoLostWakeup(s)
  {
    RoomForOne(limit, limitPerHost, a, b);
    OneByOne(1, 2);
    var s6 := FirstTakes(limit, limitPerHost, s5, a - 1, b - 1, [3], 1, {1, 2});
    assert 2 in s6.parked && s6.parked[2] == 0 && 9 !in s6.parked;
    s := SecondQueues(limit, limitPerHost, s6, a, b - 1, [3], 2, {2});
    WaitsBesideSlot(limit, limitPerHost, s, a, b);
  }

  /** The first of two finds a slot, the second does not. */
  lemma RoomForOne(limit: nat, limitPerHost: nat, a: nat, b: nat)
    requires a == limitPerHost && 1 <= b <= limitPerHost && (limit != 0 ==> a + b <= limit)
    ensures a != 0 ==> Room(limit, limitPerHost, a - 1, a - 1 + (b - 1)) >= 1
    ensures Room(limit, limitPerHost, a, a + (b - 1)) <= 0
  {
  }

  lemma OneByOne(v: Waiter, w: Waiter)
    requires v != w
    ensures {v, w} - {v} == {w} && {w} - {w} == {}
  {
  }

  lemma WaitsBesideSlot(limit: nat, limitPerHost: nat, s: World, a: nat, b: nat)
    requires Loaded(limit, limitPerHost, s, a, b - 1, map[0 := [9], 1 := [3]], {})
    requires a == limitPerHost && 1 <= b <= limitPerHost && (limit != 0 ==> a + b <= limit)
    ensures !NoLostWakeup(s)
  {
    RoomIsAvailable(limit, limitPerHost, s, a, b - 1, map[0 := [9], 1 := [3]], {});
    assert Queue(s.pool, 1) == [3];
  }

  /** The pool never loses a wake-up exactly when no per-host limit undercuts the total one. */
  lemma WakeupsAreSafeIff(limit: nat, limitPerHost: nat)
    ensures (forall s :: Reachable(limit, limitPerHost, s) ==> NoLostWakeup(s))
       <==> OneLimitCounts(limit, limitPerHost)
  {
    if OneLimitCounts(limit, limitPerHost) {
      forall s | Reachable(limit, limitPerHost, s)
        ensures NoLostWakeup(s)
      {
        var es :| AllEnabled(Init(limit, limitPerHost), es) && DoAll(Init(limit, limitPerHost), es) == s;
        NoWakeupIsLost(limit, limitPerHost, es);
      }
    } else {
      var s := LostWakeup(limit, limitPerHost);
    }
  }
}
