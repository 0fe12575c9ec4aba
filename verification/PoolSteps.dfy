/**
  What each step of the pool does, said of its collections: which idle connection is
  reused and which are given up, who is booked, who queues where, who is woken.
 */
module PoolSteps {
  import opened Options
  import opened PoolModel
  import opened PoolWakeups

  /** Some idle connection of the key can be reused. */
  predicate HasUsable(p: Pool, key: Key, usable: set<Handle>) {
    exists h :: h in Idle(p, key) && h in usable
  }

  /** `n` is the position of the first idle connection that can be reused. */
  predicate IsFirstUsable(idle: seq<Handle>, usable: set<Handle>, n: int) {
    0 <= n < |idle| && idle[n] in usable && forall i :: 0 <= i < n ==> idle[i] !in usable
  }

  /** The other keys keep their queues of idle connections. */
  ghost predicate OthersIdle(p: Pool, p': Pool, key: Key) {
    forall k :: k != key ==> Idle(p', k) == Idle(p, k)
  }

  /** Nobody was queued or woken. */
  predicate SameQueues(p: Pool, p': Pool) {
    p'.waiters == p.waiters && p'.woken == p.woken
  }

  /** Neither limit is reached for the key. */
  predicate HasRoom(p: Pool, key: Key) {
    (p.limit == 0 || |p.acquired| < p.limit) && (p.limitPerHost == 0 || |HostSet(p, key)| < p.limitPerHost)
  }

  /** `h` is booked for `key` in addition. */
  ghost predicate Booked(p: Pool, p': Pool, key: Key, h: Handle) {
    && p'.acquired == p.acquired + {h}
    && (forall k :: HostSet(p', k) == HostSet(p, k) + if k == key && p.limitPerHost != 0 then {h} else {})
  }

  predicate SameBooks(p: Pool, p': Pool) {
    p'.acquired == p.acquired && p'.acquiredPerHost == p.acquiredPerHost
  }

  lemma {:induction false} StaleIsFirst(idle: seq<Handle>, usable: set<Handle>)
    ensures var n := Stale(idle, usable);
            && (forall i :: 0 <= i < n ==> idle[i] !in usable)
            && (n < |idle| ==> IsFirstUsable(idle, usable, n))
            && (n == |idle| ==> forall h :: h in idle ==> h !in usable)
  {
    if idle != [] && idle[0] !in usable {
      StaleIsFirst(idle[1..], usable);
      var n := Stale(idle[1..], usable);
      assert forall i :: 1 <= i < |idle| ==> idle[i] == idle[1..][i - 1];
    }
  }

  /** `_get`: the first that can be reused is booked, those before it are given up, those behind it stay idle. */
  ghost predicate Got(p: Pool, p': Pool, key: Key, usable: set<Handle>, r: Option<Handle>) {
    && OthersIdle(p, p', key) && SameQueues(p, p')
    && if HasUsable(p, key, usable) then
         exists n :: IsFirstUsable(Idle(p, key), usable, n) && r == Some(Idle(p, key)[n])
                     && Idle(p', key) == Idle(p, key)[n + 1..] && Booked(p, p', key, Idle(p, key)[n])
       else r == None && Idle(p', key) == [] && SameBooks(p, p')
  }

  lemma GetStep(p: Pool, key: Key, usable: set<Handle>) returns (r: Option<Handle>, p': Pool)
    ensures (r, p') == Get(p, key, usable) && Limits(p, p') && Got(p, p', key, usable, r)
  {
    StaleIsFirst(Idle(p, key), usable);
    var n := Stale(Idle(p, key), usable);
    r, p' := Get(p, key, usable).0, Get(p, key, usable).1;
    assert n < |Idle(p, key)| ==> IsFirstUsable(Idle(p, key), usable, n);
  }

  predicate Limits(p: Pool, p': Pool) {
    p'.limit == p.limit && p'.limitPerHost == p.limitPerHost
  }

  lemma RoomIff(p: Pool, key: Key)
    ensures Available(p, key) >= 1 <==> HasRoom(p, key)
  {
  }

  lemma AcquireBooks(p: Pool, key: Key, h: Handle)
    ensures Booked(p, Acquire(p, key, h), key, h)
  {
  }

  lemma Behind(p: Pool, key: Key, w: Waiter)
    ensures var p' := p.(waiters := p.waiters[key := Queue(p, key) + [w]]);
            forall k :: Queue(p', k) == Queue(p, k) + if k == key then [w] else []
  {
    assert forall k :: Queue(p, k) + [] == Queue(p, k);
  }

  lemma InFront(p: Pool, key: Key, w: Waiter)
    ensures var p' := p.(waiters := p.waiters[key := [w] + Queue(p, key)]);
            forall k :: Queue(p', k) == (if k == key then [w] else []) + Queue(p, k)
  {
    assert forall k :: [] + Queue(p, k) == Queue(p, k);
  }

  /** The first idle connection that can be reused is booked. */
  ghost predicate ReusesFirst(p: Pool, p': Pool, key: Key, usable: set<Handle>, r: Outcome) {
    exists n :: IsFirstUsable(Idle(p, key), usable, n) && r == Reused(Idle(p, key)[n])
                && Idle(p', key) == Idle(p, key)[n + 1..] && Booked(p, p', key, Idle(p, key)[n])
  }

  /** `connect`: an idle connection if one can be reused, else a slot if there is room, else a place at the end of the queue. */
  ghost predicate Connected(p: Pool, p': Pool, key: Key, usable: set<Handle>, w: Waiter, placeholder: Handle, r: Outcome) {
    && p'.woken == p.woken && OthersIdle(p, p', key)
    && if HasUsable(p, key, usable) then ReusesFirst(p, p', key, usable, r) && p'.waiters == p.waiters
       else
         && Idle(p', key) == []
         && if HasRoom(p, key) then r == Creating && Booked(p, p', key, placeholder) && p'.waiters == p.waiters
            else r == Queued && SameBooks(p, p') && forall k :: Queue(p', k) == Queue(p, k) + if k == key then [w] else []
  }

  lemma ConnectStep(p: Pool, key: Key, usable: set<Handle>, w: Waiter, placeholder: Handle)
    ensures var (r, p') := Connect(p, key, usable, w, placeholder); Connected(p, p', key, usable, w, placeholder, r)
  {
    var conn, p1 := GetStep(p, key, usable);
    if conn.None? {
      RoomIff(p1, key);
      AcquireBooks(p1, key, placeholder);
      Behind(p1, key, w);
    }
  }

  /** A waiter that is no longer woken; its queue goes if it is empty. */
  function WokenUp(p: Pool, key: Key, w: Waiter): Pool {
    p.(woken := p.woken - {w},
       waiters := if key in p.waiters && p.waiters[key] == [] then p.waiters - {key} else p.waiters)
  }

  lemma WokenUpSame(p: Pool, key: Key, w: Waiter, usable: set<Handle>)
    ensures var p0 := WokenUp(p, key, w);
            && SameBooks(p, p0) && Limits(p, p0) && p0.conns == p.conns && p0.woken == p.woken - {w}
            && (forall k :: Queue(p0, k) == Queue(p, k)) && (HasUsable(p0, key, usable) <==> HasUsable(p, key, usable))
  {
  }

  /** A woken waiter: as a newcomer if there is room, else back to the queue, but in front. */
  ghost predicate WentOn(p: Pool, p': Pool, key: Key, w: Waiter, usable: set<Handle>, w': Waiter, placeholder: Handle,
                         r: Outcome) {
    && p'.woken == p.woken - {w}
    && if HasRoom(p, key) then
         && (forall k :: Queue(p', k) == Queue(p, k)) && OthersIdle(p, p', key)
         && if HasUsable(p, key, usable) then ReusesFirst(p, p', key, usable, r)
            else r == Creating && Booked(p, p', key, placeholder) && Idle(p', key) == []
       else
         && r == Queued && SameBooks(p, p') && p'.conns == p.conns
         && forall k :: Queue(p', k) == (if k == key then [w'] else []) + Queue(p, k)
  }

  lemma ResumeStep(p: Pool, key: Key, w: Waiter, usable: set<Handle>, w': Waiter, placeholder: Handle)
    ensures var (r, p') := Resume(p, key, w, usable, w', placeholder); WentOn(p, p', key, w, usable, w', placeholder, r)
  {
    WokenUpSame(p, key, w, usable);
    RoomIff(WokenUp(p, key, w), key);
    if HasRoom(p, key) {
      ResumeTakes(p, key, w, usable, w', placeholder);
    } else {
      InFront(WokenUp(p, key, w), key, w');
    }
  }

  /** The same step from a pool with the same connections. */
  lemma SameConnections(p: Pool, p0: Pool, p': Pool, key: Key, h: Handle)
    requires SameBooks(p, p0) && Limits(p, p0) && p0.conns == p.conns
    ensures Booked(p0, p', key, h) ==> Booked(p, p', key, h)
    ensures OthersIdle(p0, p', key) ==> OthersIdle(p, p', key)
    ensures Idle(p0, key) == Idle(p, key)
  {
    assert forall k :: HostSet(p0, k) == HostSet(p, k) && Idle(p0, k) == Idle(p, k);
  }

  lemma ResumeTakes(p: Pool, key: Key, w: Waiter, usable: set<Handle>, w': Waiter, placeholder: Handle)
    requires HasRoom(p, key)
    ensures var (r, p') := Resume(p, key, w, usable, w', placeholder); WentOn(p, p', key, w, usable, w', placeholder, r)
  {
    var p0 := WokenUp(p, key, w);
    WokenUpSame(p, key, w, usable);
    RoomIff(p0, key);
    var conn, p1 := GetStep(p0, key, usable);
    if conn.Some? {
      SameConnections(p, p0, p1, key, conn.value);
      var n :| IsFirstUsable(Idle(p0, key), usable, n) && conn == Some(Idle(p0, key)[n])
               && Idle(p1, key) == Idle(p0, key)[n + 1..] && Booked(p0, p1, key, Idle(p0, key)[n]);
      assert ReusesFirst(p, p1, key, usable, Reused(conn.value));
      assert Resume(p, key, w, usable, w', placeholder) == (Reused(conn.value), p1);
    } else {
      var p2 := Acquire(p1, key, placeholder);
      AcquireBooks(p1, key, placeholder);
      SameConnections(p, p0, p2, key, placeholder);
      assert OthersIdle(p0, p2, key) && Booked(p0, p2, key, placeholder);
      assert Resume(p, key, w, usable, w', placeholder) == (Creating, p2);
    }
  }

  /** At most one waiter is woken: the first one of a host that has room. */
  ghost predicate WakesAtMostOne(p: Pool, p': Pool) {
    || (p'.woken == p.woken && forall k :: Queue(p', k) == Queue(p, k))
    || exists k :: WokeFirst(p, p', k)
  }

  ghost predicate WokeFirst(p: Pool, p': Pool, key: Key) {
    && HasRoom(p, key) && Queue(p, key) != [] && p'.woken == p.woken + {Queue(p, key)[0]}
    && forall k :: Queue(p', k) == if k == key then Queue(p, k)[1..] else Queue(p, k)
  }

  lemma {:induction false} WakeStep(p: Pool, order: seq<Key>)
    ensures var p' := ReleaseWaiter(p, order);
            && SameBooks(p, p') && p'.conns == p.conns && WakesAtMostOne(p, p')
            // nobody is woken only if nobody could be
            && (p'.woken == p.woken && p'.waiters == p.waiters ==>
                  forall k :: k in order ==> !HasRoom(p, k) || Queue(p, k) == [])
  {
    if order != [] {
      var k := order[0];
      if Available(p, k) < 1 || Queue(p, k) == [] {
        WakeStep(p, order[1..]);
      } else {
        assert WokeFirst(p, ReleaseWaiter(p, order), k);
      }
    }
  }

  /** The connection is unbooked, and its slot may wake somebody. */
  ghost predicate Dropped(p: Pool, p': Pool, key: Key, h: Handle) {
    && p'.acquired == p.acquired - {h}
    && (forall k :: HostSet(p', k) == if k == key && p.limitPerHost != 0 then HostSet(p, k) - {h} else HostSet(p, k))
    && exists p1 :: SameBooks(p1, p') && Limits(p1, p) && SameQueues(p, p1) && WakesAtMostOne(p1, p')
  }

  lemma DropStep(p: Pool, key: Key, h: Handle, order: seq<Key>)
    ensures var p' := ReleaseAcquired(p, key, h, order); Dropped(p, p', key, h) && p'.conns == p.conns
  {
    var p1 := ReleaseAcquired(p, key, h, []);
    WakeStep(p1, order);
    assert SameBooks(p1, ReleaseAcquired(p, key, h, order)) && Limits(p1, p) && SameQueues(p, p1);
  }

  /** `_release`: the same, and the connection is the newest idle one of its host exactly unless it is closed. */
  ghost predicate GivenBack(p: Pool, p': Pool, key: Key, h: Handle, close: bool) {
    Dropped(p, p', key, h) && forall k :: Idle(p', k) == Idle(p, k) + if k == key && !close then [h] else []
  }

  lemma ReturnStep(p: Pool, key: Key, h: Handle, close: bool, order: seq<Key>)
    ensures GivenBack(p, Release(p, key, h, close, order), key, h, close)
  {
    DropStep(p, key, h, order);
    var p1, p' := ReleaseAcquired(p, key, h, order), Release(p, key, h, close, order);
    assert forall k :: Idle(p, k) + [] == Idle(p, k);
    var p0 :| SameBooks(p0, p1) && Limits(p0, p) && SameQueues(p, p0) && WakesAtMostOne(p0, p1);
    SameWake(p0, p1, p');
    assert forall k :: HostSet(p', k) == HostSet(p1, k);
    assert SameBooks(p0, p');
  }

  lemma SameWake(p0: Pool, p1: Pool, p2: Pool)
    requires WakesAtMostOne(p0, p1) && SameQueues(p1, p2)
    ensures WakesAtMostOne(p0, p2)
  {
    assert forall k :: Queue(p2, k) == Queue(p1, k);
    if k :| WokeFirst(p0, p1, k) {
      assert WokeFirst(p0, p2, k);
    }
  }

  /** Each of `kept` stands in `all`, at a later place than the one before it. */
  ghost predicate InOldOrder(kept: seq<Handle>, all: seq<Handle>) {
    exists at: seq<nat> :: Places(kept, all, at)
  }

  ghost predicate Places(kept: seq<Handle>, all: seq<Handle>, at: seq<nat>) {
    && |at| == |kept| && (forall i :: 0 <= i < |at| ==> at[i] < |all| && all[at[i]] == kept[i])
    && forall i, j :: 0 <= i < j < |at| ==> at[i] < at[j]
  }

  lemma {:induction false} FilterPlaces(idle: seq<Handle>, usable: set<Handle>) returns (at: seq<nat>)
    ensures Places(Filter(idle, usable), idle, at)
    ensures forall h :: h in Filter(idle, usable) <==> h in idle && h in usable
  {
    at := [];
    if idle != [] {
      var at1 := FilterPlaces(idle[1..], usable);
      assert idle == [idle[0]] + idle[1..];
      at := OneFurther(idle, Filter(idle[1..], usable), at1);
      if idle[0] in usable {
        at := AtTheFront(idle, Filter(idle[1..], usable), at);
      }
    }
  }

  lemma OneFurther(all: seq<Handle>, kept: seq<Handle>, at: seq<nat>) returns (at': seq<nat>)
    requires all != [] && Places(kept, all[1..], at)
    ensures Places(kept, all, at') && forall i :: 0 <= i < |at'| ==> 0 < at'[i]
  {
    at' := seq(|at|, i requires 0 <= i < |at| => at[i] + 1);
    assert forall i :: 0 <= i < |at| ==> all[at'[i]] == all[1..][at[i]];
  }

  lemma AtTheFront(all: seq<Handle>, kept: seq<Handle>, at: seq<nat>) returns (at': seq<nat>)
    requires all != [] && Places(kept, all, at) && forall i :: 0 <= i < |at| ==> 0 < at[i]
    ensures Places([all[0]] + kept, all, at')
  {
    at' := [0] + at;
  }

  /** `_cleanup`: exactly the idle connections that can still be used stay, in their order, and no key without one. */
  ghost predicate Cleaned(p: Pool, p': Pool, usable: set<Handle>) {
    && SameBooks(p, p') && SameQueues(p, p')
    && (forall k, h :: h in Idle(p', k) <==> h in Idle(p, k) && h in usable)
    && (forall k :: InOldOrder(Idle(p', k), Idle(p, k)))
    && (forall k :: k in p'.conns ==> p'.conns[k] != [])
  }

  lemma CleanupStep(p: Pool, usable: set<Handle>)
    ensures Cleaned(p, Cleanup(p, usable), usable)
  {
    var p' := Cleanup(p, usable);
    forall k
      ensures InOldOrder(Idle(p', k), Idle(p, k))
      ensures forall h :: h in Idle(p', k) <==> h in Idle(p, k) && h in usable
    {
      var at := FilterPlaces(Idle(p, k), usable);
      assert Idle(p', k) == Filter(Idle(p, k), usable);
    }
  }
}
