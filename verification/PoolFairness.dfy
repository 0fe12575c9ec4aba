/**
  The order in which coroutines wait for a connection. Whatever happens in
  between, those that wait for a host stay together in the order in which they
  came: newcomers line up behind them, only coroutines that were woken in vain go
  in front, and they are woken from the front. But of two that were woken in vain
  the one that came later can end up in front.
 */
module PoolFairness {
  import opened PoolModel
  import opened PoolWakeups

  /** The coroutines that gave up waiting in front and those that came after, by their futures. */
  predicate LoserOf(e: Event, w: Waiter) {
    e.ResumeE? && e.w' == w
  }

  predicate NewcomerOf(e: Event, w: Waiter) {
    e.ConnectE? && e.w == w
  }

  predicate Losers(es: seq<Event>, front: seq<Waiter>) {
    forall w :: w in front ==> exists i :: 0 <= i < |es| && LoserOf(es[i], w)
  }

  predicate Newcomers(es: seq<Event>, back: seq<Waiter>) {
    forall w :: w in back ==> exists i :: 0 <= i < |es| && NewcomerOf(es[i], w)
  }

  datatype Change = Same | InFront(w: Waiter) | Behind(w: Waiter) | FirstLeaves

  predicate Changed(q: seq<Waiter>, q': seq<Waiter>, c: Change) {
    match c
    case Same => q' == q
    case InFront(w) => q' == [w] + q
    case Behind(w) => q' == q + [w]
    case FirstLeaves => q != [] && q' == q[1..]
  }

  predicate MadeBy(e: Event, c: Change) {
    match c
    case Same => true
    case InFront(w) => LoserOf(e, w)
    case Behind(w) => NewcomerOf(e, w)
    case FirstLeaves => e.FailedE? || e.ReleaseE?
  }

  lemma {:induction false} WakeChange(p: Pool, order: seq<Key>, key: Key) returns (c: Change)
    ensures (c.Same? || c.FirstLeaves?) && Changed(Queue(p, key), Queue(ReleaseWaiter(p, order), key), c)
    ensures c.FirstLeaves? ==> Queue(p, key)[0] in ReleaseWaiter(p, order).woken
  {
    if order == [] {
      c := Same;
    } else if Available(p, order[0]) < 1 || Queue(p, order[0]) == [] {
      c := WakeChange(p, order[1..], key);
    } else {
      c := if order[0] == key then FirstLeaves else Same;
    }
  }

  lemma GetQueue(p: Pool, key: Key, usable: set<Handle>, k: Key)
    ensures Queue(Get(p, key, usable).1, k) == Queue(p, k)
  {
  }

  lemma ConnectChange(p: Pool, k: Key, usable: set<Handle>, w: Waiter, placeholder: Handle, key: Key) returns (c: Change)
    ensures Changed(Queue(p, key), Queue(Connect(p, k, usable, w, placeholder).1, key), c)
    ensures c.Same? || c == Behind(w)
  {
    GetQueue(p, k, usable, key);
    var r := Connect(p, k, usable, w, placeholder);
    c := if k == key && r.0.Queued? then Behind(w) else Same;
  }

  lemma ResumeChange(p: Pool, k: Key, w: Waiter, usable: set<Handle>, w': Waiter, placeholder: Handle, key: Key)
    returns (c: Change)
    ensures Changed(Queue(p, key), Queue(Resume(p, k, w, usable, w', placeholder).1, key), c)
    ensures c.Same? || c == InFront(w')
    ensures Resume(p, k, w, usable, w', placeholder).0.Queued? && k == key ==> c == InFront(w')
  {
    var p0 := p.(woken := p.woken - {w},
                 waiters := if k in p.waiters && p.waiters[k] == [] then p.waiters - {k} else p.waiters);
    GetQueue(p0, k, usable, key);
    var r := Resume(p, k, w, usable, w', placeholder);
    c := if k == key && r.0.Queued? then InFront(w') else Same;
  }

  lemma DropChange(p: Pool, k: Key, h: Handle, order: seq<Key>, key: Key) returns (c: Change)
    ensures var p' := ReleaseAcquired(p, k, h, order);
            && Changed(Queue(p, key), Queue(p', key), c) && (c.Same? || c.FirstLeaves?)
            && (c.FirstLeaves? ==> Queue(p, key)[0] in p'.woken)
  {
    c := WakeChange(ReleaseAcquired(p, k, h, []), order, key);
  }

  /** One step changes a queue at one end, and the first is taken out only by waking it. */
  lemma StepChange(s: World, e: Event, key: Key) returns (c: Change)
    requires Enabled(s, e)
    ensures Changed(Queue(s.pool, key), Queue(Do(s, e).pool, key), c) && MadeBy(e, c)
    ensures c.FirstLeaves? ==> Queue(s.pool, key)[0] in Do(s, e).pool.woken
  {
    match e {
      case ConnectE(k, usable, w, placeholder) =>
        c := ConnectChange(s.pool, k, usable, w, placeholder, key);
      case ResumeE(w, usable, w', placeholder) =>
        c := ResumeChange(s.pool, s.parked[w], w, usable, w', placeholder, key);
      case FailedE(h, order) =>
        c := DropChange(s.pool, s.creating[h], h, order, key);
      case ReleaseE(h, _, order) =>
        c := DropChange(s.pool, s.held[h], h, order, key);
      case _ =>
        c := Same;
    }
  }

  /** The queue is what is left of an earlier one, between those in front and those behind. */
  predicate Around(old': seq<Waiter>, now: seq<Waiter>, n: nat, front: seq<Waiter>, back: seq<Waiter>) {
    n <= |old'| && now == front + old'[n..] + back
  }

  /** The same for a queue that became `q1` in one step. */
  lemma StepAround(q: seq<Waiter>, q1: seq<Waiter>, now: seq<Waiter>, c: Change,
                   n1: nat, front1: seq<Waiter>, back1: seq<Waiter>)
    returns (n: nat, front: seq<Waiter>, back: seq<Waiter>)
    requires Changed(q, q1, c) && Around(q1, now, n1, front1, back1)
    ensures Around(q, now, n, front, back)
    ensures forall w :: w in front ==> w in front1 || c == InFront(w)
    ensures forall w :: w in back ==> w in back1 || c == Behind(w)
  {
    n, front, back := n1, front1, back1;
    match c {
      case Same =>
      case InFront(w) =>
        if n1 == 0 {
          front := front1 + [w];
          assert now == front1 + ([w] + q) + back1;
        } else {
          n := n1 - 1;
          assert q1[n1..] == q[n..];
        }
      case Behind(w) =>
        if n1 <= |q| {
          back := [w] + back1;
          assert q1[n1..] == q[n1..] + [w];
        } else {
          n := |q|;
          assert q1[n1..] == q[n..];
        }
      case FirstLeaves =>
        n := n1 + 1;
    }
  }

  /**
    In every run, those of a queue that still wait are a contiguous end of it, in
    their order; in front of them there are only losers, behind them newcomers.
   */
  lemma {:induction false} QueueKeepsItsOrder(s: World, es: seq<Event>, key: Key)
    returns (n: nat, front: seq<Waiter>, back: seq<Waiter>)
    requires AllEnabled(s, es)
    ensures Around(Queue(s.pool, key), Queue(DoAll(s, es).pool, key), n, front, back)
    ensures Losers(es, front) && Newcomers(es, back)
    decreases |es|
  {
    n, front, back := 0, [], [];
    if es != [] {
      var s1, rest := Do(s, es[0]), es[1..];
      var c := StepChange(s, es[0], key);
      var n1, front1, back1 := QueueKeepsItsOrder(s1, rest, key);
      n, front, back := StepAround(Queue(s.pool, key), Queue(s1.pool, key), Queue(DoAll(s1, rest).pool, key),
                                   c, n1, front1, back1);
      assert forall i :: 0 <= i < |rest| ==> rest[i] == es[i + 1];
      assert forall w :: c == InFront(w) ==> LoserOf(es[0], w);
      assert forall w :: c == Behind(w) ==> NewcomerOf(es[0], w);
    }
  }

  /** While somebody waits, so do all who waited behind him: nobody is woken before him. */
  lemma NobodyIsOvertaken(s: World, es: seq<Event>, key: Key, i: nat, j: nat)
    requires AllEnabled(s, es) && i < j < |Queue(s.pool, key)| && NoDupWaiters(Queue(s.pool, key))
    requires forall e :: e in es ==> !LoserOf(e, Queue(s.pool, key)[i]) && !NewcomerOf(e, Queue(s.pool, key)[i])
    ensures var q, q' := Queue(s.pool, key), Queue(DoAll(s, es).pool, key);
            q[i] in q' ==> q[j] in q'
  {
    var q, q' := Queue(s.pool, key), Queue(DoAll(s, es).pool, key);
    var n, front, back := QueueKeepsItsOrder(s, es, key);
    assert q[i] !in front && q[i] !in back;
    if q[i] in q' {
      assert q[i] in q[n..];
      assert q[n..][j - n] == q[j];
    }
  }

  /** Two that were woken in vain change places: the one that resumes last waits in front. */
  lemma LosersChangePlaces(s: World, first: Event, second: Event, key: Key)
    requires first.ResumeE? && second.ResumeE? && first.w != second.w
    requires Enabled(s, first) && Enabled(Do(s, first), second)
    requires s.parked[first.w] == key && second.w in s.parked && s.parked[second.w] == key
    requires Available(s.pool, key) <= 0
    ensures Queue(Do(Do(s, first), second).pool, key) == [second.w', first.w'] + Queue(s.pool, key)
  {
  }
}
