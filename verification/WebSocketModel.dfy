/**
  Closing and receiving on a server WebSocket (web_ws.py) as a transition system.
  Any number of `close` and `receive` calls run as tasks that interleave at their
  await points; ping failures, `_cancel` and the network act in between. A task that
  reads goes on as soon as the queue has a message or has ended.
 */
module WebSocketModel {
  import opened Options

  datatype Kind = Data | Close | Closing | Ping | Pong
  datatype Msg = Msg(kind: Kind, code: int)

  /** What `reader.read()` raises at the end: EofStream, a WebSocketError with its code, or something else. */
  datatype Ending = Eof | WebSocketError(code: int) | Other

  datatype CloseWait = NotSet | Pending | Done

  const OK: int := 1000
  const ABNORMAL_CLOSURE: int := 1006

  /** The response's flags, its queue, and how often the writer's `close` was called. */
  datatype Ws = Ws(
    autoclose: bool, autoping: bool,
    closed: bool, closing: bool, waiting: bool, closeWait: CloseWait, closeCode: Option<int>,
    buffer: seq<Msg>, ended: Option<Ending>, writerCloses: nat)

  /** Where a task is suspended: `R` inside `receive`, `C` inside `close`. */
  datatype Pc =
    | RLoop | RReading | RPong
    | CWriting(drain: bool) | CDraining | CParked | CReading

  /** How a stretch ends: at the next await, with a message for the caller of `receive`, with the end of the task, or with a failed assertion. */
  datatype Next = Go(pc: Pc) | Return(msg: Msg) | Finish | AssertionFails

  predicate IsClosing(pc: Pc) {
    pc.CWriting? || pc.CDraining? || pc.CParked? || pc.CReading?
  }

  predicate IsReading(pc: Pc) {
    pc.RReading? || pc.CReading?
  }

  /** A read would not block. */
  predicate Readable(w: Ws) {
    w.buffer != [] || w.ended.Some?
  }

  // ---------------------------------------------------------------------
  // close
  // ---------------------------------------------------------------------

  function BeginClose(w: Ws, drain: bool): (Next, Ws) {
    if w.closed then (Finish, w)
    else (Go(CWriting(drain)), w.(closed := true, writerCloses := w.writerCloses + 1))
  }

  function AfterWrite(w: Ws, drain: bool): (Next, Ws) {
    if drain then (Go(CDraining), w) else AfterDrain(w)
  }

  /** A receiver that is inside `read` is asked to leave; it will set the result of `_close_wait`. */
  function AfterDrain(w: Ws): (Next, Ws) {
    if !w.waiting then AfterCloseWait(w)
    else if w.closeWait != NotSet then (AssertionFails, w)
    else (Go(CParked), w.(closeWait := Pending, buffer := w.buffer + [Msg(Closing, 0)]))
  }

  function AfterCloseWait(w: Ws): (Next, Ws) {
    if w.closing then (Finish, w) else (Go(CReading), w)
  }

  function CloseRead(w: Ws): (Next, Ws)
    requires Readable(w)
  {
    if w.buffer == [] then (Finish, w.(closeCode := Some(ABNORMAL_CLOSURE)))
    else
      var w' := w.(buffer := w.buffer[1..]);
      if w.buffer[0].kind.Close? then (Finish, w'.(closeCode := Some(w.buffer[0].code))) else (Go(CReading), w')
  }

  /** An exception while writing, draining or reading, or a cancellation. */
  function CloseFails(w: Ws, pc: Pc): (Next, Ws) {
    if pc.CParked? then (Finish, w.(closeWait := Done)) else (Finish, w.(closeCode := Some(ABNORMAL_CLOSURE)))
  }

  // ---------------------------------------------------------------------
  // receive
  // ---------------------------------------------------------------------

  function ReceiveTop(w: Ws): (Next, Ws) {
    if w.waiting || w.closed || w.closing then (Finish, w) else (Go(RReading), w.(waiting := true))
  }

  /** The finally clause around the read. */
  function Release(w: Ws): Ws {
    w.(waiting := false, closeWait := if w.closeWait == Pending then Done else w.closeWait)
  }

  function SetClosing(w: Ws, code: int): Ws {
    w.(closing := true, closeCode := Some(code))
  }

  function OnMessage(w: Ws, m: Msg): (Next, Ws) {
    match m.kind
    case Data => (Return(m), w)
    case Close =>
      var w' := SetClosing(w, m.code);
      if !w'.closed && w'.autoclose then BeginClose(w', false) else (Return(m), w')
    case Closing => (Return(m), SetClosing(w, OK))
    case Ping => (if w.autoping then Go(RPong) else Return(m), w)
    case Pong => (if w.autoping then Go(RLoop) else Return(m), w)
  }

  /** The read raises: what the exception clauses do. */
  function ReceiveRaises(w: Ws): (Next, Ws)
    requires w.ended.Some?
  {
    match w.ended.value
    case Eof => BeginClose(Release(w).(closeCode := Some(OK)), true)
    case WebSocketError(code) => BeginClose(Release(w).(closeCode := Some(code)), true)
    case Other => BeginClose(SetClosing(Release(w), ABNORMAL_CLOSURE), true)
  }

  function ReceiveRead(w: Ws): (Next, Ws)
    requires Readable(w)
  {
    if w.buffer != [] then OnMessage(Release(w.(buffer := w.buffer[1..])), w.buffer[0])
    else ReceiveRaises(w)
  }

  // ---------------------------------------------------------------------
  // Callbacks.
  // ---------------------------------------------------------------------

  /** `_handle_ping_pong_exception`. */
  function PingFails(w: Ws): Ws {
    if w.closed then w
    else
      var w' := w.(closed := true, closeCode := Some(ABNORMAL_CLOSURE));
      if w.waiting && !w.closing then w'.(buffer := w.buffer + [Msg(Data, 0)]) else w'
  }

  /** `_cancel`. */
  function Cancel(w: Ws): Ws {
    w.(closing := true, ended := Some(Other))
  }

  // ---------------------------------------------------------------------
  // Runs.
  // ---------------------------------------------------------------------

  type Task = nat

  datatype World = World(w: Ws, tasks: map<Task, Pc>, failed: bool)

  datatype Event =
    | StartClose(t: Task, drain: bool)
    | StartReceive(t: Task)
    | Proceed(t: Task)                 // what the task awaits has come
    | ReadRaises(t: Task)              // a waiting read is ended, even if a message comes before the task resumes
    | Fail(t: Task)                    // it raises instead, or the task is cancelled or times out
    | Arrive(m: Msg)
    | Ended(e: Ending)
    | PingFailed
    | Cancelled

  function Init(autoclose: bool, autoping: bool): World {
    World(Ws(autoclose, autoping, false, false, false, NotSet, None, [], None, 0), map[], false)
  }

  predicate Enabled(s: World, e: Event) {
    match e
    case StartClose(t, _) => t !in s.tasks
    case StartReceive(t) => t !in s.tasks
    case Proceed(t) =>
      t in s.tasks && (IsReading(s.tasks[t]) ==> Readable(s.w)) && (s.tasks[t].CParked? ==> s.w.closeWait == Done)
    case ReadRaises(t) => t in s.tasks && IsReading(s.tasks[t]) && s.w.ended.Some?
    case Fail(t) => t in s.tasks && !s.tasks[t].RLoop?
    case _ => true
  }

  /** The stretch of a task after its await has returned. */
  function Stretch(w: Ws, pc: Pc): (Next, Ws)
    requires IsReading(pc) ==> Readable(w)
  {
    match pc
    case RLoop => ReceiveTop(w)
    case RReading => ReceiveRead(w)
    case RPong => (Go(RLoop), w)
    case CWriting(drain) => AfterWrite(w, drain)
    case CDraining => AfterDrain(w)
    case CParked => AfterCloseWait(w)
    case CReading => CloseRead(w)
  }

  function Interrupt(w: Ws, pc: Pc): (Next, Ws) {
    match pc
    case RReading => (Finish, Release(w))
    case RPong => (Finish, w)
    case RLoop => (Finish, w)
    case _ => CloseFails(w, pc)
  }

  function Settle(s: World, t: Task, r: (Next, Ws)): World {
    match r.0
    case Go(pc) => World(r.1, s.tasks[t := pc], s.failed)
    case Return(_) => World(r.1, s.tasks - {t}, s.failed)
    case Finish => World(r.1, s.tasks - {t}, s.failed)
    case AssertionFails => World(r.1, s.tasks - {t}, true)
  }

  function Do(s: World, e: Event): World
    requires Enabled(s, e)
  {
    match e
    case StartClose(t, drain) => Settle(s, t, BeginClose(s.w, drain))
    case StartReceive(t) => Settle(s, t, (Go(RLoop), s.w))
    case Proceed(t) => Settle(s, t, Stretch(s.w, s.tasks[t]))
    case ReadRaises(t) =>
      Settle(s, t, if s.tasks[t].RReading? then ReceiveRaises(s.w) else CloseFails(s.w, s.tasks[t]))
    case Fail(t) => Settle(s, t, Interrupt(s.w, s.tasks[t]))
    case Arrive(m) => s.(w := s.w.(buffer := s.w.buffer + [m]))
    case Ended(e') => s.(w := s.w.(ended := Some(e')))
    case PingFailed => s.(w := PingFails(s.w))
    case Cancelled => s.(w := Cancel(s.w))
  }

  ghost predicate AllEnabled(s: World, es: seq<Event>)
    decreases |es|
  {
    es != [] ==> Enabled(s, es[0]) && AllEnabled(Do(s, es[0]), es[1..])
  }

  ghost function DoAll(s: World, es: seq<Event>): World
    requires AllEnabled(s, es)
    decreases |es|
  {
    if es == [] then s else DoAll(Do(s, es[0]), es[1..])
  }

  // ---------------------------------------------------------------------
  // What every run keeps.
  // ---------------------------------------------------------------------

  /** Once a task is past the check of `close`, the connection counts as closed, and no other task gets there. */
  ghost predicate OneCloser(s: World) {
    && (forall t :: t in s.tasks && IsClosing(s.tasks[t]) ==> s.w.closed)
    && (forall t, u :: t in s.tasks && u in s.tasks && IsClosing(s.tasks[t]) && IsClosing(s.tasks[u]) ==> t == u)
    && s.w.writerCloses <= 1 && (s.w.writerCloses == 1 ==> s.w.closed)
  }

  /** `_waiting` says whether a receiver is inside `read`, and there is at most one. */
  ghost predicate OneReceiver(s: World) {
    && (s.w.waiting <==> exists t :: t in s.tasks && s.tasks[t].RReading?)
    && (forall t, u :: t in s.tasks && u in s.tasks && s.tasks[t].RReading? && s.tasks[u].RReading? ==> t == u)
  }

  ghost predicate CloseWaitOk(s: World) {
    && (s.w.closeWait != NotSet ==> s.w.closed)
    && (forall t :: t in s.tasks && (s.tasks[t].CWriting? || s.tasks[t].CDraining?) ==> s.w.closeWait == NotSet)
    && (s.w.closeWait == Pending ==> s.w.waiting && s.w.buffer != [])
    && (forall t :: t in s.tasks && s.tasks[t].CParked? ==> s.w.closeWait != NotSet)
    && (forall t :: t in s.tasks && s.tasks[t].CReading? ==> !s.w.waiting)
    && (forall t :: t in s.tasks && IsClosing(s.tasks[t]) && s.w.closeWait == Done ==> !s.w.waiting)
  }

  ghost predicate Inv(s: World) {
    !s.failed && OneCloser(s) && OneReceiver(s) && CloseWaitOk(s)
  }

  lemma InitOk(autoclose: bool, autoping: bool)
    ensures Inv(Init(autoclose, autoping))
  {
  }

  lemma CallbackKeeps(s: World, e: Event)
    requires Inv(s) && Enabled(s, e) && (e.Arrive? || e.Ended? || e.PingFailed? || e.Cancelled?)
    ensures Inv(Do(s, e))
  {
    assert Do(s, e).tasks == s.tasks;
  }

  lemma StartKeeps(s: World, e: Event)
    requires Inv(s) && Enabled(s, e) && (e.StartClose? || e.StartReceive?)
    ensures Inv(Do(s, e))
  {
    var s' := Do(s, e);
    assert forall t :: t in s'.tasks && t != e.t ==> t in s.tasks && s'.tasks[t] == s.tasks[t];
    assert forall t :: t in s.tasks ==> t in s'.tasks;
  }

  lemma FailKeeps(s: World, e: Event)
    requires Inv(s) && Enabled(s, e) && e.Fail?
    ensures Inv(Do(s, e))
  {
    var s' := Do(s, e);
    assert forall t :: t in s'.tasks <==> t in s.tasks && t != e.t;
    assert s.w.waiting ==> exists t :: t in s.tasks && s.tasks[t].RReading?;
  }

  /** A step of one task leaves the others where they are. */
  lemma OthersStay(s: World, t: Task, r: (Next, Ws))
    requires t in s.tasks
    ensures var s' := Settle(s, t, r);
            && (forall u :: u in s'.tasks && u != t ==> u in s.tasks && s'.tasks[u] == s.tasks[u])
            && (forall u :: u in s.tasks && u != t ==> u in s'.tasks)
            && (t in s'.tasks ==> r.0 == Go(s'.tasks[t])) && (r.0.Go? ==> t in s'.tasks)
  {
  }

  lemma ReceiverStays(s: World, t: Task, r: (Next, Ws))
    requires OneReceiver(s) && t in s.tasks && !s.tasks[t].RReading? && r.1.waiting == s.w.waiting
    requires r.0.Go? ==> !r.0.pc.RReading?
    ensures OneReceiver(Settle(s, t, r))
  {
    var s' := Settle(s, t, r);
    OthersStay(s, t, r);
    if s.w.waiting {
      var u :| u in s.tasks && s.tasks[u].RReading?;
      assert u in s'.tasks && s'.tasks[u].RReading?;
    }
  }

  lemma LoopKeeps(s: World, t: Task)
    requires Inv(s) && t in s.tasks && s.tasks[t].RLoop?
    ensures Inv(Settle(s, t, ReceiveTop(s.w)))
  {
    var r := ReceiveTop(s.w);
    OthersStay(s, t, r);
    if r.0.Go? {
      var s' := Settle(s, t, r);
      assert t in s'.tasks && s'.tasks[t].RReading?;
    } else {
      ReceiverStays(s, t, r);
    }
  }

  /** A receiver goes on without reading, and closes only a connection that nobody closes yet. */
  ghost predicate GoesOnFrom(w: Ws, r: (Next, Ws)) {
    && r.1.waiting == w.waiting && r.1.closeWait == w.closeWait
    && !r.0.AssertionFails? && (r.0.Go? ==> !r.0.pc.RReading?)
    && if r.0.Go? && IsClosing(r.0.pc) then
         r.0.pc.CWriting? && !w.closed && r.1.closed && r.1.writerCloses == w.writerCloses + 1
       else r.1.closed == w.closed && r.1.writerCloses == w.writerCloses
  }

  lemma MessageGoesOn(w: Ws, m: Msg)
    ensures GoesOnFrom(w, OnMessage(w, m))
  {
  }

  lemma RaiseGoesOn(w: Ws)
    requires w.ended.Some?
    ensures GoesOnFrom(Release(w), ReceiveRaises(w))
  {
  }

  /** How a receiver leaves its read: a waiting `close` is let go first. */
  lemma LeavesRead(w: Ws)
    requires Readable(w)
    ensures GoesOnFrom(Release(w), ReceiveRead(w))
  {
    if w.buffer != [] {
      MessageGoesOn(Release(w.(buffer := w.buffer[1..])), w.buffer[0]);
    } else {
      RaiseGoesOn(w);
    }
  }

  lemma NoReceiverLeft(s: World, t: Task, r: (Next, Ws))
    requires OneReceiver(s) && t in s.tasks && s.tasks[t].RReading? && !r.1.waiting
    requires r.0.Go? ==> !r.0.pc.RReading?
    ensures OneReceiver(Settle(s, t, r))
  {
    OthersStay(s, t, r);
  }

  /** A receiver leaves its read one way or the other. */
  lemma ReadingKeeps(s: World, t: Task, r: (Next, Ws))
    requires Inv(s) && t in s.tasks && s.tasks[t].RReading? && GoesOnFrom(Release(s.w), r)
    ensures Inv(Settle(s, t, r))
  {
    OthersStay(s, t, r);
    NoReceiverLeft(s, t, r);
  }

  lemma ClosingKeeps(s: World, t: Task)
    requires Inv(s) && t in s.tasks && IsClosing(s.tasks[t])
    requires (s.tasks[t].CReading? ==> Readable(s.w)) && (s.tasks[t].CParked? ==> s.w.closeWait == Done)
    ensures Inv(Settle(s, t, Stretch(s.w, s.tasks[t])))
  {
    var r := Stretch(s.w, s.tasks[t]);
    OthersStay(s, t, r);
    ReceiverStays(s, t, r);
  }

  lemma ProceedKeeps(s: World, e: Event)
    requires Inv(s) && Enabled(s, e) && e.Proceed?
    ensures Inv(Do(s, e))
  {
    var pc := s.tasks[e.t];
    if pc.RLoop? {
      LoopKeeps(s, e.t);
    } else if pc.RReading? {
      LeavesRead(s.w);
      ReadingKeeps(s, e.t, ReceiveRead(s.w));
    } else if pc.RPong? {
      OthersStay(s, e.t, (Go(RLoop), s.w));
      ReceiverStays(s, e.t, (Go(RLoop), s.w));
    } else {
      ClosingKeeps(s, e.t);
    }
  }

  lemma RaiseKeeps(s: World, e: Event)
    requires Inv(s) && Enabled(s, e) && e.ReadRaises?
    ensures Inv(Do(s, e))
  {
    if s.tasks[e.t].RReading? {
      RaiseGoesOn(s.w);
      ReadingKeeps(s, e.t, ReceiveRaises(s.w));
    } else {
      FailKeeps(s, Fail(e.t));
    }
  }

  lemma StepKeeps(s: World, e: Event)
    requires Inv(s) && Enabled(s, e)
    ensures Inv(Do(s, e))
  {
    match e {
      case StartClose(_, _) => StartKeeps(s, e);
      case StartReceive(_) => StartKeeps(s, e);
      case Proceed(_) => ProceedKeeps(s, e);
      case ReadRaises(_) => RaiseKeeps(s, e);
      case Fail(_) => FailKeeps(s, e);
      case _ => CallbackKeeps(s, e);
    }
  }

  lemma {:induction false} RunKeeps(s: World, es: seq<Event>)
    requires Inv(s) && AllEnabled(s, es)
    ensures Inv(DoAll(s, es))
    decreases |es|
  {
    if es != [] {
      StepKeeps(s, es[0]);
      RunKeeps(Do(s, es[0]), es[1..]);
    }
  }

  // ---------------------------------------------------------------------
  // What follows.
  // ---------------------------------------------------------------------

  /**
    Whatever the interleaving: the close frame is sent at most once, at most one task
    is inside `read`, and the assertion in `close` does not fail.
   */
  lemma CloseIsSafe(autoclose: bool, autoping: bool, es: seq<Event>)
    requires AllEnabled(Init(autoclose, autoping), es)
    ensures var s := DoAll(Init(autoclose, autoping), es);
            && s.w.writerCloses <= 1 && !s.failed
            && forall t, u :: t in s.tasks && u in s.tasks && IsReading(s.tasks[t]) && IsReading(s.tasks[u]) ==> t == u
  {
    InitOk(autoclose, autoping);
    RunKeeps(Init(autoclose, autoping), es);
    var s := DoAll(Init(autoclose, autoping), es);
    forall t, u | t in s.tasks && u in s.tasks && IsReading(s.tasks[t]) && IsReading(s.tasks[u])
      ensures t == u
    {
      assert s.tasks[t].RReading? ==> s.w.waiting;
      assert s.tasks[u].RReading? ==> s.w.waiting;
      assert s.tasks[t].CReading? ==> IsClosing(s.tasks[t]);
      assert s.tasks[u].CReading? ==> IsClosing(s.tasks[u]);
    }
  }

  /**
    A `close` that waits for the receiver to leave does not wait in vain: either its
    wait is over, or there is a receiver that can run, and however that receiver's
    next stretch ends, the wait is over.
   */
  lemma ParkedCloseIsReleased(autoclose: bool, autoping: bool, es: seq<Event>, t: Task)
    requires AllEnabled(Init(autoclose, autoping), es)
    requires var s := DoAll(Init(autoclose, autoping), es); t in s.tasks && s.tasks[t].CParked?
    ensures var s := DoAll(Init(autoclose, autoping), es);
            || Enabled(s, Proceed(t))
            || exists r :: Releases(s, t, r)
  {
    InitOk(autoclose, autoping);
    RunKeeps(Init(autoclose, autoping), es);
    var s := DoAll(Init(autoclose, autoping), es);
    if s.w.closeWait == Pending {
      var r :| r in s.tasks && s.tasks[r].RReading?;
      ReceiverReleases(s, t, r);
    }
  }

  lemma ReceiverReleases(s: World, t: Task, r: Task)
    requires t in s.tasks && s.tasks[t].CParked? && r in s.tasks && s.tasks[r].RReading?
    requires s.w.closeWait == Pending && s.w.waiting && s.w.buffer != []
    ensures Releases(s, t, r)
  {
    LeavesRead(s.w);
    OthersStay(s, r, ReceiveRead(s.w));
    if s.w.ended.Some? {
      RaiseGoesOn(s.w);
      OthersStay(s, r, ReceiveRaises(s.w));
    }
    OthersStay(s, r, (Finish, Release(s.w)));
  }

  ghost predicate Releases(s: World, t: Task, r: Task) {
    && Enabled(s, Proceed(r)) && Enabled(s, Fail(r))
    && Enabled(Do(s, Proceed(r)), Proceed(t)) && Enabled(Do(s, Fail(r)), Proceed(t))
    && (Enabled(s, ReadRaises(r)) ==> Enabled(Do(s, ReadRaises(r)), Proceed(t)))
  }

  // ---------------------------------------------------------------------
  // Where the messages go.
  // ---------------------------------------------------------------------

  /** The message that a step takes off the queue. */
  function Taken(s: World, e: Event): seq<Msg>
    requires Enabled(s, e)
  {
    if e.Proceed? && IsReading(s.tasks[e.t]) && s.w.buffer != [] then [s.w.buffer[0]] else []
  }

  /** The message that a step puts on it. */
  function Put(s: World, e: Event): seq<Msg>
    requires Enabled(s, e)
  {
    match e
    case Arrive(m) => [m]
    case PingFailed => if !s.w.closed && s.w.waiting && !s.w.closing then [Msg(Data, 0)] else []
    case Proceed(t) =>
      if s.w.waiting && (s.tasks[t].CDraining? || s.tasks[t] == CWriting(false)) && s.w.closeWait == NotSet
      then [Msg(Closing, 0)] else []
    case _ => []
  }

  lemma QueueStep(s: World, e: Event)
    requires Enabled(s, e)
    ensures s.w.buffer + Put(s, e) == Taken(s, e) + Do(s, e).w.buffer
  {
    if e.Proceed? {
      ProceedQueue(s, e);
    } else {
      Emptied(s.w.buffer);
      Emptied(Do(s, e).w.buffer);
      OtherQueue(s, e);
    }
  }

  lemma ProceedQueue(s: World, e: Event)
    requires Enabled(s, e) && e.Proceed?
    ensures s.w.buffer + Put(s, e) == Taken(s, e) + Do(s, e).w.buffer
  {
    var pc := s.tasks[e.t];
    var q, q' := s.w.buffer, Stretch(s.w, pc).1.buffer;
    StretchQueue(s.w, pc);
    Emptied(q);
    Emptied(q');
    SettledWs(s, e.t, Stretch(s.w, pc));
    assert Do(s, e).w.buffer == q';
  }

  lemma SettledWs(s: World, t: Task, r: (Next, Ws))
    ensures Settle(s, t, r).w == r.1
  {
  }

  lemma OtherQueue(s: World, e: Event)
    requires Enabled(s, e) && !e.Proceed?
    ensures Taken(s, e) == [] && Do(s, e).w.buffer == s.w.buffer + Put(s, e)
  {
    Emptied(s.w.buffer);
    match e {
      case Arrive(_) =>
      case Ended(_) =>
      case PingFailed =>
      case Cancelled =>
      case _ => TaskQueue(s, e);
    }
  }

  /** A task that starts or fails leaves the queue as it is. */
  lemma TaskQueue(s: World, e: Event)
    requires Enabled(s, e) && (e.StartClose? || e.StartReceive? || e.ReadRaises? || e.Fail?)
    ensures Do(s, e).w.buffer == s.w.buffer
  {
    if e.ReadRaises? {
      RaiseQueue(s.w);
    }
  }

  lemma Emptied(q: seq<Msg>)
    ensures [] + q == q && q + [] == q && (q != [] ==> [q[0]] + q[1..] == q)
  {
  }

  lemma RaiseQueue(w: Ws)
    requires w.ended.Some?
    ensures ReceiveRaises(w).1.buffer == w.buffer
  {
  }

  lemma MessageQueue(w: Ws, m: Msg)
    ensures OnMessage(w, m).1.buffer == w.buffer
  {
  }

  lemma StretchQueue(w: Ws, pc: Pc)
    requires IsReading(pc) ==> Readable(w)
    ensures var q := Stretch(w, pc).1.buffer;
            if IsReading(pc) && w.buffer != [] then q == w.buffer[1..]
            else if w.waiting && (pc.CDraining? || pc == CWriting(false)) && w.closeWait == NotSet
            then q == w.buffer + [Msg(Closing, 0)]
            else q == w.buffer
  {
    if pc.RReading? {
      if w.buffer != [] {
        MessageQueue(Release(w.(buffer := w.buffer[1..])), w.buffer[0]);
      } else {
        RaiseQueue(w);
      }
    }
  }

  ghost function TakenAll(s: World, es: seq<Event>): seq<Msg>
    requires AllEnabled(s, es)
    decreases |es|
  {
    if es == [] then [] else Taken(s, es[0]) + TakenAll(Do(s, es[0]), es[1..])
  }

  ghost function PutAll(s: World, es: seq<Event>): seq<Msg>
    requires AllEnabled(s, es)
    decreases |es|
  {
    if es == [] then [] else Put(s, es[0]) + PutAll(Do(s, es[0]), es[1..])
  }

  /** In every run the messages are taken in the order in which they came, and none is lost or read twice. */
  lemma {:induction false} QueueIsConserved(s: World, es: seq<Event>)
    requires AllEnabled(s, es)
    ensures s.w.buffer + PutAll(s, es) == TakenAll(s, es) + DoAll(s, es).w.buffer
    decreases |es|
  {
    if es == [] {
      assert s.w.buffer + [] == [] + s.w.buffer;
    } else {
      var s1 := Do(s, es[0]);
      QueueStep(s, es[0]);
      QueueIsConserved(s1, es[1..]);
      InBetween(s.w.buffer, Put(s, es[0]), PutAll(s1, es[1..]), Taken(s, es[0]), s1.w.buffer,
                TakenAll(s1, es[1..]), DoAll(s1, es[1..]).w.buffer);
    }
  }

  lemma InBetween(q: seq<Msg>, put: seq<Msg>, puts: seq<Msg>, taken: seq<Msg>, q1: seq<Msg>,
                  takens: seq<Msg>, end: seq<Msg>)
    requires q + put == taken + q1 && q1 + puts == takens + end
    ensures q + (put + puts) == (taken + takens) + end
  {
    assert q + (put + puts) == (q + put) + puts;
    assert (taken + q1) + puts == taken + (q1 + puts);
    assert taken + (takens + end) == (taken + takens) + end;
  }

  /** The data message that a receiver takes in this step. */
  function Received(s: World, e: Event): seq<Msg>
    requires Enabled(s, e)
  {
    if e.Proceed? && s.tasks[e.t].RReading? && s.w.buffer != [] && s.w.buffer[0].kind.Data? then [s.w.buffer[0]] else []
  }

  /** The data message that a call of `receive` returns with this step. */
  function Returned(s: World, e: Event): seq<Msg>
    requires Enabled(s, e)
  {
    if !e.Proceed? then []
    else
      var r := Stretch(s.w, s.tasks[e.t]).0;
      if r.Return? && r.msg.kind.Data? then [r.msg] else []
  }

  /** Every data message that a receiver takes is returned by it, at once, and its task is over. */
  lemma DataIsReturned(s: World, e: Event)
    requires Enabled(s, e)
    ensures Returned(s, e) == Received(s, e)
    ensures Received(s, e) != [] ==> e.t !in Do(s, e).tasks
  {
  }

  ghost function ReceivedAll(s: World, es: seq<Event>): seq<Msg>
    requires AllEnabled(s, es)
    decreases |es|
  {
    if es == [] then [] else Received(s, es[0]) + ReceivedAll(Do(s, es[0]), es[1..])
  }

  ghost function ReturnedAll(s: World, es: seq<Event>): seq<Msg>
    requires AllEnabled(s, es)
    decreases |es|
  {
    if es == [] then [] else Returned(s, es[0]) + ReturnedAll(Do(s, es[0]), es[1..])
  }

  /** In every run the callers of `receive` get exactly the data messages that receivers took, in order. */
  lemma {:induction false} AllDataIsReturned(s: World, es: seq<Event>)
    requires AllEnabled(s, es)
    ensures ReturnedAll(s, es) == ReceivedAll(s, es)
    decreases |es|
  {
    if es != [] {
      DataIsReturned(s, es[0]);
      AllDataIsReturned(Do(s, es[0]), es[1..]);
    }
  }
}
