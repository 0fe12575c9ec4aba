/**
  The connection pool of connector.py as a transition system. A `Pool` holds
  the connector's collections, a `World` adds the coroutines around it. Every
  await-free stretch of `connect`, `_wait_for_available_connection`,
  `_release` and so on is one step; Connector.dfy runs the same steps on an
  object with fields.
 */
module PoolModel {
  import opened Options

  type Key = nat
  type Waiter = nat

  /** A protocol, or the placeholder that stands in for one that is being created. */
  datatype Handle = Proto(id: nat) | Placeholder(id: nat)

  datatype Pool = Pool(
    limit: nat, limitPerHost: nat,
    acquired: set<Handle>,
    acquiredPerHost: map<Key, set<Handle>>,
    conns: map<Key, seq<Handle>>,          // idle, oldest first
    waiters: map<Key, seq<Waiter>>,        // FIFO per key
    woken: set<Waiter>)                    // futures with a result whose coroutine has not resumed

  function HostSet(p: Pool, key: Key): set<Handle> {
    if key in p.acquiredPerHost then p.acquiredPerHost[key] else {}
  }

  function Idle(p: Pool, key: Key): seq<Handle> {
    if key in p.conns then p.conns[key] else []
  }

  function Queue(p: Pool, key: Key): seq<Waiter> {
    if key in p.waiters then p.waiters[key] else []
  }

  /** `_available_connections`. */
  function Available(p: Pool, key: Key): int {
    var total := if p.limit != 0 then p.limit - |p.acquired| else 1;
    if p.limit != 0 && total <= 0 then total
    else if p.limitPerHost != 0 && total > p.limitPerHost - |HostSet(p, key)|
    then p.limitPerHost - |HostSet(p, key)|
    else total
  }

  function Acquire(p: Pool, key: Key, h: Handle): Pool {
    p.(acquired := p.acquired + {h},
       acquiredPerHost := if p.limitPerHost != 0
                          then p.acquiredPerHost[key := HostSet(p, key) + {h}]
                          else p.acquiredPerHost)
  }

  /** How many idle connections at the front can no longer be reused. */
  function Stale(idle: seq<Handle>, usable: set<Handle>): (n: nat)
    ensures n <= |idle| && (n < |idle| ==> idle[n] in usable)
  {
    if idle == [] || idle[0] in usable then 0 else 1 + Stale(idle[1..], usable)
  }

  /** `_get`: the first idle connection of the key that can be reused. */
  function Get(p: Pool, key: Key, usable: set<Handle>): (Option<Handle>, Pool) {
    var idle := Idle(p, key);
    var n := Stale(idle, usable);
    if n == |idle| then (None, p.(conns := p.conns - {key}))
    else
      var left := idle[n + 1..];
      var p' := p.(conns := if left == [] then p.conns - {key} else p.conns[key := left]);
      (Some(idle[n]), Acquire(p', key, idle[n]))
  }

  /** `_release_waiter` over the shuffled keys: wakes the first waiter that has a connection available. */
  function ReleaseWaiter(p: Pool, order: seq<Key>): Pool {
    if order == [] then p
    else if Available(p, order[0]) < 1 || Queue(p, order[0]) == [] then ReleaseWaiter(p, order[1..])
    else
      var q := Queue(p, order[0]);
      p.(waiters := p.waiters[order[0] := q[1..]], woken := p.woken + {q[0]})
  }

  /** `_release_acquired`. */
  function ReleaseAcquired(p: Pool, key: Key, h: Handle, order: seq<Key>): Pool {
    var left := HostSet(p, key) - {h};
    ReleaseWaiter(
      p.(acquired := p.acquired - {h},
         acquiredPerHost := if p.limitPerHost == 0 || HostSet(p, key) == {} then p.acquiredPerHost
                            else if left == {} then p.acquiredPerHost - {key}
                            else p.acquiredPerHost[key := left]),
      order)
  }

  /** `_release`. */
  function Release(p: Pool, key: Key, h: Handle, close: bool, order: seq<Key>): Pool {
    var p' := ReleaseAcquired(p, key, h, order);
    if close then p' else p'.(conns := p'.conns[key := Idle(p', key) + [h]])
  }

  /** What a stretch of `connect` comes to. */
  datatype Outcome = Reused(h: Handle) | Creating | Queued

  /** `connect` up to its first suspension. */
  function Connect(p: Pool, key: Key, usable: set<Handle>, w: Waiter, placeholder: Handle): (Outcome, Pool) {
    var (conn, p') := Get(p, key, usable);
    if conn.Some? then (Reused(conn.value), p')
    else if Available(p', key) <= 0 then
      (Queued, p'.(waiters := p'.waiters[key := Queue(p', key) + [w]]))
    else (Creating, Acquire(p', key, placeholder))
  }

  /** A woken waiter resumes: it gets a slot, or queues again, in front. */
  function Resume(p: Pool, key: Key, w: Waiter, usable: set<Handle>, w': Waiter, placeholder: Handle): (Outcome, Pool) {
    var p0 := p.(woken := p.woken - {w},
                 waiters := if key in p.waiters && p.waiters[key] == [] then p.waiters - {key} else p.waiters);
    if Available(p0, key) > 0 then
      var (conn, p') := Get(p0, key, usable);
      if conn.Some? then (Reused(conn.value), p')
      else (Creating, Acquire(p', key, placeholder))
    else
      (Queued, p0.(waiters := p0.waiters[key := [w'] + Queue(p0, key)]))
  }

  /** The connection has been created: it takes the place of its placeholder. */
  function Created(p: Pool, key: Key, placeholder: Handle, h: Handle): Pool {
    p.(acquired := p.acquired - {placeholder} + {h},
       acquiredPerHost := if p.limitPerHost != 0
                          then p.acquiredPerHost[key := HostSet(p, key) - {placeholder} + {h}]
                          else p.acquiredPerHost)
  }

  /** `_cleanup`: idle connections that can no longer be reused go. */
  function Cleanup(p: Pool, usable: set<Handle>): Pool {
    p.(conns := StillUsable(p.conns, usable))
  }

  function StillUsable(conns: map<Key, seq<Handle>>, usable: set<Handle>): map<Key, seq<Handle>> {
    map key | key in conns && Filter(conns[key], usable) != [] :: Filter(conns[key], usable)
  }

  function Filter(idle: seq<Handle>, usable: set<Handle>): seq<Handle> {
    if idle == [] then []
    else if idle[0] in usable then [idle[0]] + Filter(idle[1..], usable)
    else Filter(idle[1..], usable)
  }

  // ---------------------------------------------------------------------
  // The coroutines around the pool.
  // ---------------------------------------------------------------------

  /**
    Who owns what: placeholders of connections being created, live `Connection`
    objects and waiting coroutines; `home` is the key each protocol was made for.
   */
  datatype World = World(pool: Pool, creating: map<Handle, Key>, held: map<Handle, Key>,
                         parked: map<Waiter, Key>, home: map<Handle, Key>)

  datatype Event =
    | ConnectE(key: Key, usable: set<Handle>, w: Waiter, placeholder: Handle)
    | ResumeE(w: Waiter, usable: set<Handle>, w': Waiter, placeholder: Handle)
    | CreatedE(placeholder: Handle, h: Handle)
    | FailedE(placeholder: Handle, order: seq<Key>)
    | ReleaseE(h: Handle, close: bool, order: seq<Key>)
    | CleanupE(usable: set<Handle>)

  function Init(limit: nat, limitPerHost: nat): World {
    World(Pool(limit, limitPerHost, {}, map[], map[], map[], {}), map[], map[], map[], map[])
  }

  /** `order` is a shuffle of the keys that have a queue. */
  ghost predicate Shuffles(order: seq<Key>, p: Pool) {
    forall k :: k in order <==> k in p.waiters
  }

  /** New futures, placeholders and protocols are new objects. */
  ghost predicate Enabled(s: World, e: Event) {
    match e
    case ConnectE(key, usable, w, placeholder) =>
      w !in s.parked && placeholder.Placeholder? && placeholder !in s.creating
    case ResumeE(w, usable, w', placeholder) =>
      w in s.pool.woken && w in s.parked && w' !in s.parked
      && placeholder.Placeholder? && placeholder !in s.creating
    case CreatedE(placeholder, h) =>
      placeholder in s.creating && h.Proto? && h !in s.home
    case FailedE(placeholder, order) => placeholder in s.creating && Shuffles(order, s.pool)
    case ReleaseE(h, close, order) => h in s.held && Shuffles(order, s.pool)
    case CleanupE(usable) => true
  }

  /** Files the outcome of a stretch of `connect` for `key`. */
  function Settle(s: World, r: (Outcome, Pool), key: Key, w: Waiter, placeholder: Handle): World {
    match r.0
    case Reused(h) => s.(pool := r.1, held := s.held[h := key])
    case Creating => s.(pool := r.1, creating := s.creating[placeholder := key])
    case Queued => s.(pool := r.1, parked := s.parked[w := key])
  }

  /** A resumed coroutine is no longer parked; its queue goes if it is empty. */
  function Resumed(s: World, w: Waiter): World
    requires w in s.parked
  {
    var key := s.parked[w];
    s.(pool := s.pool.(woken := s.pool.woken - {w},
                       waiters := if key in s.pool.waiters && s.pool.waiters[key] == []
                                  then s.pool.waiters - {key} else s.pool.waiters),
       parked := s.parked - {w})
  }

  function Do(s: World, e: Event): World
    requires e.ResumeE? ==> e.w in s.parked
    requires e.CreatedE? || e.FailedE? ==> e.placeholder in s.creating
    requires e.ReleaseE? ==> e.h in s.held
  {
    match e
    case ConnectE(key, usable, w, placeholder) =>
      Settle(s, Connect(s.pool, key, usable, w, placeholder), key, w, placeholder)
    case ResumeE(w, usable, w', placeholder) =>
      var key := s.parked[w];
      Settle(s.(parked := s.parked - {w}), Resume(s.pool, key, w, usable, w', placeholder), key, w', placeholder)
    case CreatedE(placeholder, h) =>
      var key := s.creating[placeholder];
      s.(pool := Created(s.pool, key, placeholder, h),
         creating := s.creating - {placeholder}, held := s.held[h := key], home := s.home[h := key])
    case FailedE(placeholder, order) =>
      var key := s.creating[placeholder];
      s.(pool := ReleaseAcquired(s.pool, key, placeholder, order), creating := s.creating - {placeholder})
    case ReleaseE(h, close, order) =>
      var key := s.held[h];
      s.(pool := Release(s.pool, key, h, close, order), held := s.held - {h})
    case CleanupE(usable) => s.(pool := Cleanup(s.pool, usable))
  }

  ghost predicate AllEnabled(s: World, es: seq<Event>)
    decreases |es|
  {
    es != [] ==> Enabled(s, es[0]) && AllEnabled(Do(s, es[0]), es[1..])
  }

  ghost function DoAll(s: World, es: seq<Event>): World
    requires AllEnabled(s, es)
    decreases |es|
  {
    if es == [] then s else DoAll(Do(s, es[0]), es[1..])
  }
}
