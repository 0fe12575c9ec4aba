/**
  The connector of connector.py as an object: the same stretches as in
  PoolModel.dfy, run on fields that are updated in place. Ghost fields keep the
  owners of connections and the waiting coroutines, so that `Valid` can say of the
  object what PoolOwnership and PoolWakeups prove of every run.
 */
module Connector {
  import opened Options
  import opened PoolModel
  import PO = PoolOwnership
  import PS = PoolSteps
  import PW = PoolWakeups

  class BaseConnector {
    const limit: nat
    const limitPerHost: nat
    var closed: bool
    var acquired: set<Handle>
    var acquiredPerHost: map<Key, set<Handle>>
    var conns: map<Key, seq<Handle>>
    var waiters: map<Key, seq<Waiter>>
    var woken: set<Waiter>
    ghost var creating: map<Handle, Key>
    ghost var held: map<Handle, Key>
    ghost var parked: map<Waiter, Key>
    ghost var home: map<Handle, Key>

    function Abs(): Pool
      reads this
    {
      Pool(limit, limitPerHost, acquired, acquiredPerHost, conns, waiters, woken)
    }

    /** The connector and the coroutines around it. */
    ghost function Around(): World
      reads this
    {
      World(Abs(), creating, held, parked, home)
    }

    /** While it is open: everything has one owner, the limits hold, and no wake-up is lost. */
    ghost predicate Valid()
      reads this
    {
      !closed ==> PW.Kept(Around())
    }

    /** What `Valid` means for those who use the pool. */
    lemma Safe(key: Key)
      requires Valid() && !closed
      ensures forall h :: h in acquired <==> h in creating || h in held
      ensures limitPerHost != 0 ==> |HostSet(Abs(), key)| + |Idle(Abs(), key)| <= limitPerHost
      ensures limitPerHost != 0 ==> forall h :: h in HostSet(Abs(), key) <==> PO.OwnedUnder(Around(), key, h)
      ensures forall h :: h in Idle(Abs(), key) ==> h !in acquired && h in home && home[h] == key
      ensures limit != 0 ==> |creating| <= limit
      ensures PW.OneLimitCounts(limit, limitPerHost) && Queue(Abs(), key) != [] ==> Available(Abs(), key) <= |woken|
    {
      assert PO.KeyOk(Around(), key);
      if PW.OneLimitCounts(limit, limitPerHost) {
        PW.WakeInvMeans(Around());
      }
    }

    constructor (limit: nat, limitPerHost: nat)
      ensures Around() == Init(limit, limitPerHost) && !closed && Valid()
    {
      this.limit, this.limitPerHost := limit, limitPerHost;
      closed, acquired, acquiredPerHost, conns, waiters, woken := false, {}, map[], map[], map[], {};
      creating, held, parked, home := map[], map[], map[], map[];
      new;
      PO.InitOwned(limit, limitPerHost);
    }

    /** Books what a stretch that ended in the pool of the step `e` means for the coroutines. */
    ghost method Record(s: World, e: Event)
      requires Enabled(s, e) && Abs() == Do(s, e).pool && (!closed ==> PW.Kept(s))
      modifies this`creating, this`held, this`parked, this`home
      ensures Valid() && Around() == Do(s, e)
    {
      var s' := Do(s, e);
      creating, held, parked, home := s'.creating, s'.held, s'.parked, s'.home;
      if !closed {
        PW.StepKeepsAll(s, e);
      }
    }

    /** At least 1 exactly if neither limit is reached, and then so many more connections to the host are within both. */
    method AvailableConnections(key: Key) returns (n: int)
      ensures 1 <= n <==> (limit == 0 || |acquired| < limit)
                          && (limitPerHost == 0 || |HostSet(Abs(), key)| < limitPerHost)
      ensures 1 <= n && limit != 0 ==> |acquired| + n <= limit
      ensures 1 <= n && limitPerHost != 0 ==> |HostSet(Abs(), key)| + n <= limitPerHost
      ensures n == Available(Abs(), key)
    {
      var totalRemain: int := 1;
      if limit != 0 {
        totalRemain := limit - |acquired|;
        if totalRemain <= 0 {
          return totalRemain;
        }
      }
      if limitPerHost != 0 {
        var hostRemain: int := limitPerHost;
        if key in acquiredPerHost {
          hostRemain := hostRemain - |acquiredPerHost[key]|;
        }
        if totalRemain > hostRemain {
          return hostRemain;
        }
      }
      return totalRemain;
    }

    method Acquire(key: Key, h: Handle)
      modifies this`acquired, this`acquiredPerHost
      ensures Abs() == PoolModel.Acquire(old(Abs()), key, h)
    {
      acquired := acquired + {h};
      if limitPerHost != 0 {
        acquiredPerHost := acquiredPerHost[key := (if key in acquiredPerHost then acquiredPerHost[key] else {}) + {h}];
      }
    }

    /** The loop of `_get`: idle connections that can no longer be used are dropped on the way to the first one that can. */
    method PopUsable(key: Key, usable: set<Handle>) returns (conn: Option<Handle>)
      modifies this`acquired, this`acquiredPerHost, this`conns
      ensures conn == PoolModel.Get(old(Abs()), key, usable).0
      ensures Abs() == PoolModel.Get(old(Abs()), key, usable).1
    {
      if key !in conns {
        assert conns == conns - {key};
        return None;
      }
      ghost var was, i := conns, 0;
      while conns[key] != []
        invariant unchanged(this`acquired) && unchanged(this`acquiredPerHost)
        invariant 0 <= i <= |was[key]| && Stale(was[key], usable) == i + Stale(was[key][i..], usable)
        invariant conns == was[key := was[key][i..]]
        decreases |was[key]| - i
      {
        var proto := conns[key][0];
        conns := conns[key := conns[key][1..]];
        if proto in usable {
          if conns[key] == [] {
            conns := conns - {key};
            assert conns == was - {key};
          }
          Acquire(key, proto);
          return Some(proto);
        }
        i := i + 1;
      }
      conns := conns - {key};
      assert conns == was - {key};
      return None;
    }

    /** `_get`. */
    method Get(key: Key, usable: set<Handle>) returns (conn: Option<Handle>)
      modifies this`acquired, this`acquiredPerHost, this`conns
      ensures conn == PoolModel.Get(old(Abs()), key, usable).0
      ensures Abs() == PoolModel.Get(old(Abs()), key, usable).1
      ensures PS.Got(old(Abs()), Abs(), key, usable, conn)
    {
      ghost var _, _ := PS.GetStep(Abs(), key, usable);
      conn := PopUsable(key, usable);
    }

    /** `_release_waiter`, when no future has been cancelled; `queues` is the shuffled list of the keys with a queue. */
    method ReleaseWaiter(queues: seq<Key>)
      requires Shuffles(queues, Abs())
      modifies this`waiters, this`woken
      ensures Abs() == PoolModel.ReleaseWaiter(old(Abs()), queues)
      ensures PS.WakesAtMostOne(old(Abs()), Abs())
    {
      PS.WakeStep(Abs(), queues);
      if waiters == map[] {
        NobodyToWake(Abs(), queues);
        return;
      }
      for i := 0 to |queues|
        invariant unchanged(this)
        invariant PoolModel.ReleaseWaiter(Abs(), queues) == PoolModel.ReleaseWaiter(Abs(), queues[i..])
      {
        var key := queues[i];
        var n := AvailableConnections(key);
        if n < 1 {
          continue;
        }
        if waiters[key] != [] {
          // Without cancellation a queued future has no result yet (PoolWakeups.WaitersOk).
          var waiter := waiters[key][0];
          waiters, woken := waiters[key := waiters[key][1..]], woken + {waiter};
          return;
        }
      }
    }

    /** `_release_acquired`. */
    method ReleaseAcquired(key: Key, h: Handle, queues: seq<Key>)
      requires Shuffles(queues, Abs())
      modifies this`acquired, this`acquiredPerHost, this`waiters, this`woken
      ensures Abs() == if closed then old(Abs()) else PoolModel.ReleaseAcquired(old(Abs()), key, h, queues)
    {
      if closed {
        return;
      }
      acquired := acquired - {h};
      if limitPerHost != 0 && key in acquiredPerHost && acquiredPerHost[key] != {} {
        acquiredPerHost := acquiredPerHost[key := acquiredPerHost[key] - {h}];
        if acquiredPerHost[key] == {} {
          acquiredPerHost := acquiredPerHost - {key};
          assert acquiredPerHost == old(acquiredPerHost) - {key};
        }
      }
      ReleaseWaiter(queues);
    }

    /** `_release`, as called by `Connection.release` and `Connection.close`. */
    method Release(key: Key, h: Handle, close: bool, queues: seq<Key>)
      requires Shuffles(queues, Abs())
      modifies this`acquired, this`acquiredPerHost, this`conns, this`waiters, this`woken
      ensures Abs() == if closed then old(Abs()) else PoolModel.Release(old(Abs()), key, h, close, queues)
    {
      if closed {
        return;
      }
      ReleaseAcquired(key, h, queues);
      if close {
        return;
      }
      conns := conns[key := (if key in conns then conns[key] else []) + [h]];
    }

    /** `connect` up to its first suspension: a connection from the pool, a place in the queue, or a placeholder. */
    method Connect(key: Key, usable: set<Handle>, w: Waiter, placeholder: Handle) returns (r: Outcome)
      requires Valid() && Enabled(Around(), ConnectE(key, usable, w, placeholder))
      modifies this
      ensures Valid() && closed == old(closed)
      ensures r == PoolModel.Connect(old(Abs()), key, usable, w, placeholder).0
      ensures Around() == Do(old(Around()), ConnectE(key, usable, w, placeholder))
      ensures PS.Connected(old(Abs()), Abs(), key, usable, w, placeholder, r)
    {
      ghost var s := Around();
      PS.ConnectStep(Abs(), key, usable, w, placeholder);
      r := ConnectStretch(key, usable, w, placeholder);
      Record(s, ConnectE(key, usable, w, placeholder));
    }

    method ConnectStretch(key: Key, usable: set<Handle>, w: Waiter, placeholder: Handle) returns (r: Outcome)
      modifies this`acquired, this`acquiredPerHost, this`conns, this`waiters
      ensures r == PoolModel.Connect(old(Abs()), key, usable, w, placeholder).0
      ensures Abs() == PoolModel.Connect(old(Abs()), key, usable, w, placeholder).1
    {
      var conn := Get(key, usable);
      if conn.Some? {
        return Reused(conn.value);
      }
      var n := AvailableConnections(key);
      if n <= 0 {
        waiters := waiters[key := (if key in waiters then waiters[key] else []) + [w]];
        return Queued;
      }
      Acquire(key, placeholder);
      return Creating;
    }

    /** A waiter resumes after its future got a result: it leaves the loop, or queues again, in front. */
    method Resume(key: Key, w: Waiter, usable: set<Handle>, w': Waiter, placeholder: Handle) returns (r: Outcome)
      requires Valid() && Enabled(Around(), ResumeE(w, usable, w', placeholder)) && parked[w] == key
      modifies this
      ensures Valid() && closed == old(closed)
      ensures r == PoolModel.Resume(old(Abs()), key, w, usable, w', placeholder).0
      ensures Around() == Do(old(Around()), ResumeE(w, usable, w', placeholder))
      ensures PS.WentOn(old(Abs()), Abs(), key, w, usable, w', placeholder, r)
    {
      ghost var s := Around();
      PS.ResumeStep(Abs(), key, w, usable, w', placeholder);
      r := ResumeStretch(key, w, usable, w', placeholder);
      Record(s, ResumeE(w, usable, w', placeholder));
    }

    method ResumeStretch(key: Key, w: Waiter, usable: set<Handle>, w': Waiter, placeholder: Handle) returns (r: Outcome)
      modifies this`acquired, this`acquiredPerHost, this`conns, this`waiters, this`woken
      ensures r == PoolModel.Resume(old(Abs()), key, w, usable, w', placeholder).0
      ensures Abs() == PoolModel.Resume(old(Abs()), key, w, usable, w', placeholder).1
    {
      woken := woken - {w};
      if key in waiters && waiters[key] == [] {
        waiters := waiters - {key};
      }
      var n := AvailableConnections(key);
      if n > 0 {
        var conn := Get(key, usable);
        if conn.Some? {
          return Reused(conn.value);
        }
        Acquire(key, placeholder);
        return Creating;
      }
      waiters := waiters[key := [w'] + if key in waiters then waiters[key] else []];
      return Queued;
    }

    /**
      The end of `connect`: the new protocol takes the place of its placeholder, in the
      books of its own host and of no other; a connector that was closed is left alone.
     */
    method Created(key: Key, placeholder: Handle, h: Handle) returns (ok: bool)
      requires Valid() && Enabled(Around(), CreatedE(placeholder, h)) && creating[placeholder] == key
      modifies this
      ensures Valid() && closed == old(closed) && (ok <==> !closed)
      ensures ok ==> Around() == Do(old(Around()), CreatedE(placeholder, h))
      ensures ok ==> placeholder !in acquired && h in acquired && |acquired| == |old(acquired)|
      ensures ok && limitPerHost != 0 ==> forall k :: h in HostSet(Abs(), k) <==> k == key
      ensures !ok ==> Around() == old(Around())
    {
      if closed {
        return false;
      }
      ghost var s := Around();
      acquired := acquired - {placeholder} + {h};
      if limitPerHost != 0 {
        acquiredPerHost := acquiredPerHost[key := (if key in acquiredPerHost then acquiredPerHost[key] else {})
                                                  - {placeholder} + {h}];
      }
      Record(s, CreatedE(placeholder, h));
      PO.CreatedMeans(s, CreatedE(placeholder, h));
      return true;
    }

    /** The connection could not be created: the placeholder goes. */
    method CreationFails(key: Key, placeholder: Handle, queues: seq<Key>)
      requires Valid() && Enabled(Around(), FailedE(placeholder, queues)) && creating[placeholder] == key
      modifies this
      ensures Valid() && closed == old(closed)
      ensures !closed ==> Around() == Do(old(Around()), FailedE(placeholder, queues)) && placeholder !in acquired
      ensures !closed ==> PS.Dropped(old(Abs()), Abs(), key, placeholder) && conns == old(conns)
    {
      ghost var s := Around();
      PS.DropStep(Abs(), key, placeholder, queues);
      ReleaseAcquired(key, placeholder, queues);
      if !closed {
        Record(s, FailedE(placeholder, queues));
      }
    }

    /** `Connection.release` and `Connection.close`: whoever held the connection holds it no longer. */
    method Return(key: Key, h: Handle, close: bool, queues: seq<Key>)
      requires Valid() && Enabled(Around(), ReleaseE(h, close, queues)) && held[h] == key
      modifies this
      ensures Valid() && closed == old(closed)
      ensures !closed ==> Around() == Do(old(Around()), ReleaseE(h, close, queues)) && h !in acquired
      ensures !closed ==> PS.GivenBack(old(Abs()), Abs(), key, h, close)
    {
      ghost var s := Around();
      PS.ReturnStep(Abs(), key, h, close, queues);
      Release(key, h, close, queues);
      if !closed {
        Record(s, ReleaseE(h, close, queues));
      }
    }

    /** `_cleanup`: keeps the idle connections that can still be used, in order. */
    method Cleanup(usable: set<Handle>)
      requires Valid()
      modifies this`conns, this`creating, this`held, this`parked, this`home
      ensures Valid() && Around() == Do(old(Around()), CleanupE(usable))
      ensures PS.Cleaned(old(Abs()), Abs(), usable)
    {
      ghost var s := Around();
      PS.CleanupStep(Abs(), usable);
      var connections: map<Key, seq<Handle>>, keys := map[], conns.Keys;
      while keys != {}
        invariant unchanged(this) && keys <= conns.Keys
        invariant forall k :: k in connections <==> k in conns && k !in keys && Filter(conns[k], usable) != []
        invariant forall k :: k in connections ==> connections[k] == Filter(conns[k], usable)
        decreases |keys|
      {
        var key :| key in keys;
        var alive := Alive(conns[key], usable);
        if alive != [] {
          connections := connections[key := alive];
        }
        keys := keys - {key};
      }
      assert connections == StillUsable(conns, usable);
      conns := connections;
      Record(s, CleanupE(usable));
    }

    /** `_close`. What was handed out per host stays in the books. */
    method Close()
      modifies this`closed, this`acquired, this`conns, this`waiters
      ensures closed && Valid()
      ensures Abs() == if old(closed) then old(Abs())
                       else old(Abs()).(acquired := {}, conns := map[], waiters := map[])
    {
      if closed {
        return;
      }
      closed, conns, acquired, waiters := true, map[], {}, map[];
    }
  }

  lemma {:induction false} NobodyToWake(p: Pool, queues: seq<Key>)
    requires p.waiters == map[]
    ensures ReleaseWaiter(p, queues) == p
  {
    if queues != [] {
      NobodyToWake(p, queues[1..]);
    }
  }

  method Alive(idle: seq<Handle>, usable: set<Handle>) returns (alive: seq<Handle>)
    ensures alive == Filter(idle, usable)
  {
    alive := [];
    for i := 0 to |idle|
      invariant alive + Filter(idle[i..], usable) == Filter(idle, usable)
    {
      if idle[i] in usable {
        alive := alive + [idle[i]];
      }
    }
  }
}
