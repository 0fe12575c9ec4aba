/**
  The `WebSocketResponse` object of web_ws.py: the stretches of `close` and `receive`
  between two awaits, and the callbacks, on fields that are updated in place. A ghost
  field keeps where each task is suspended, so that `Valid` says of the object what
  WebSocketModel.dfy proves of every run; each handler says what that means for it.
 */
module WebSocketResponses {
  import opened Options
  import opened WebSocketModel

  /** What a message leads to, by its kind; `closed` and `autoclose` are the response's. */
  ghost predicate Handled(m: Msg, w: Ws, next: Next, w': Ws) {
    var same := w'.closed == w.closed && w'.writerCloses == w.writerCloses;
    match m.kind
    case Data => next == Return(m) && same && w'.closing == w.closing && w'.closeCode == w.closeCode
    case Ping =>
      next == (if w.autoping then Go(RPong) else Return(m))
      && same && w'.closing == w.closing && w'.closeCode == w.closeCode
    case Pong =>
      next == (if w.autoping then Go(RLoop) else Return(m))
      && same && w'.closing == w.closing && w'.closeCode == w.closeCode
    case Closing => next == Return(m) && same && w'.closing && w'.closeCode == Some(1000)
    case Close =>
      && w'.closing && w'.closeCode == Some(m.code)
      && if w.autoclose && !w.closed then next == Go(CWriting(false)) && w'.closed && w'.writerCloses == w.writerCloses + 1
         else next == Return(m) && same
  }

  /** What the end of the reading leads to: the connection is closed, with a drain, and the code says how it ended. */
  ghost predicate Closed(e: Ending, w: Ws, next: Next, w': Ws) {
    && w'.closed && next == (if w.closed then Finish else Go(CWriting(true)))
    && w'.writerCloses == w.writerCloses + (if w.closed then 0 else 1)
    && w'.closeCode == Some(match e case Eof => 1000 case WebSocketError(code) => code case Other => 1006)
    && w'.closing == (w.closing || e.Other?)
  }

  lemma ReadMeans(w: Ws, raised: bool)
    requires if raised then w.ended.Some? else Readable(w)
    ensures var (next, w') := if raised then ReceiveRaises(w) else ReceiveRead(w);
            if raised || w.buffer == [] then w'.buffer == w.buffer && Closed(w.ended.value, w, next, w')
            else w.buffer == [w.buffer[0]] + w'.buffer && Handled(w.buffer[0], w, next, w')
  {
    if raised || w.buffer == [] {
      EndMeans(w);
    } else {
      Emptied(w.buffer);
      MessageQueue(Release(w.(buffer := w.buffer[1..])), w.buffer[0]);
      MessageMeans(w, Release(w.(buffer := w.buffer[1..])), w.buffer[0]);
    }
  }

  lemma EndMeans(w: Ws)
    requires w.ended.Some?
    ensures var (next, w') := ReceiveRaises(w); w'.buffer == w.buffer && Closed(w.ended.value, w, next, w')
  {
  }

  lemma MessageMeans(w: Ws, w1: Ws, m: Msg)
    requires w1.closed == w.closed && w1.closing == w.closing && w1.closeCode == w.closeCode
    requires w1.writerCloses == w.writerCloses && w1.autoclose == w.autoclose && w1.autoping == w.autoping
    ensures var (next, w') := OnMessage(w1, m); Handled(m, w, next, w')
  {
  }

  class WebSocketResponse {
    const autoclose: bool
    const autoping: bool
    var closed: bool
    var closing: bool
    var waiting: bool
    var closeWait: CloseWait
    var closeCode: Option<int>
    var buffer: seq<Msg>          // the reader's queue
    var ended: Option<Ending>
    ghost var writerCloses: nat
    ghost var tasks: map<Task, Pc>

    ghost function Abs(): Ws
      reads this
    {
      Ws(autoclose, autoping, closed, closing, waiting, closeWait, closeCode, buffer, ended, writerCloses)
    }

    /** The response and the tasks around it; no assertion has failed. */
    ghost function Around(): World
      reads this
    {
      World(Abs(), tasks, false)
    }

    ghost predicate Valid()
      reads this
    {
      Inv(Around())
    }

    /** Nobody but `t` is inside `reader.read()`. */
    ghost predicate ReadsAlone(t: Task)
      reads this
    {
      t in tasks && IsReading(tasks[t]) && forall u :: u in tasks && IsReading(tasks[u]) ==> u == t
    }

    /** Nobody but `t` is past the check of `close`. */
    ghost predicate ClosesAlone(t: Task)
      reads this
    {
      t in tasks && IsClosing(tasks[t]) && forall u :: u in tasks && IsClosing(tasks[u]) ==> u == t
    }

    /** Every `close` that waits for a receiver to leave can go on. */
    ghost predicate NobodyParked()
      reads this
    {
      forall u :: u in tasks && tasks[u].CParked? ==> Enabled(Around(), Proceed(u))
    }

    constructor (autoclose: bool, autoping: bool)
      ensures Around() == Init(autoclose, autoping) && Valid()
    {
      this.autoclose, this.autoping := autoclose, autoping;
      closed, closing, waiting, closeWait, closeCode := false, false, false, NotSet, None;
      buffer, ended, writerCloses, tasks := [], None, 0, map[];
      new;
      InitOk(autoclose, autoping);
    }

    /** Files where the task has come to, which is what the step `e` of the model does. */
    ghost method Record(s: World, e: Event, next: Next)
      requires Inv(s) && Enabled(s, e) && (e.StartClose? || e.Proceed? || e.ReadRaises? || e.Fail?)
      requires Do(s, e) == Settle(s, e.t, (next, Abs()))
      modifies this`tasks
      ensures Valid() && Around() == Do(s, e) && !next.AssertionFails?
    {
      tasks := Do(s, e).tasks;
      StepKeeps(s, e);
    }

    // -------------------------------------------------------------------
    // close
    // -------------------------------------------------------------------

    /**
      `close` up to the await on the writer's `close`: the first caller alone gets
      there, and the writer's `close` is called for the first and only time.
     */
    method BeginClose(t: Task, drain: bool) returns (next: Next)
      requires Valid() && t !in tasks
      modifies this
      ensures Valid() && closed && writerCloses <= 1
      ensures if old(closed) then next == Finish && writerCloses == old(writerCloses) && t !in tasks
              else next == Go(CWriting(drain)) && writerCloses == 1 && ClosesAlone(t)
      ensures forall u :: u != t ==> (u in tasks <==> u in old(tasks)) && (u in tasks ==> tasks[u] == old(tasks[u]))
    {
      ghost var s := Around();
      next := CloseOnce(drain);
      Record(s, StartClose(t, drain), next);
    }

    method CloseOnce(drain: bool) returns (next: Next)
      modifies this`closed, this`writerCloses
      ensures (next, Abs()) == WebSocketModel.BeginClose(old(Abs()), drain)
    {
      if closed {
        return Finish;
      }
      closed, writerCloses := true, writerCloses + 1;
      return Go(CWriting(drain));
    }

    /**
      `close` once its frame has been written and, if asked for, drained. If a receiver
      is inside `read`, it is sent a message to leave and waited for, and the assertion
      on `_close_wait` holds; else `close` reads itself, and it alone.
     */
    method AfterDrain(t: Task) returns (next: Next)
      requires Valid() && t in tasks && (tasks[t] == CDraining || tasks[t] == CWriting(false))
      modifies this`closeWait, this`buffer, this`tasks
      ensures Valid() && !next.AssertionFails?
      ensures next == Go(CParked) <==> waiting
      ensures waiting ==> old(closeWait) == NotSet && closeWait == Pending && Readable(Abs())
                          && exists r :: r in tasks && tasks[r].RReading? && Releases(Around(), t, r)
      ensures next == Go(CReading) ==> ReadsAlone(t) && !closing
      ensures next == Finish ==> closing
    {
      ghost var s := Around();
      if waiting {
        if closeWait != NotSet {
          next := AssertionFails;
        } else {
          closeWait := Pending;
          buffer := buffer + [Msg(Closing, 0)];
          next := Go(CParked);
        }
      } else {
        next := ReadUnlessClosing();
      }
      Record(s, Proceed(t), next);
      if waiting {
        ghost var r :| r in tasks && tasks[r].RReading?;
        ReceiverReleases(Around(), t, r);
      }
    }

    method ReadUnlessClosing() returns (next: Next)
      ensures next == WebSocketModel.AfterCloseWait(Abs()).0
    {
      return if closing then Finish else Go(CReading);
    }

    /** `close` once its frame has been written: it drains if that was asked for. */
    method AfterWrite(t: Task) returns (next: Next)
      requires Valid() && t in tasks && tasks[t] == CWriting(true)
      modifies this`tasks
      ensures Valid() && next == Go(CDraining) && ClosesAlone(t)
    {
      ghost var s := Around();
      next := Go(CDraining);
      Record(s, Proceed(t), next);
    }

    /** Writing, draining or reading raises, or is cancelled: the connection counts as closed abnormally. */
    method CloseFails(t: Task)
      requires Valid() && t in tasks && IsClosing(tasks[t]) && !tasks[t].CParked?
      modifies this`closeCode, this`tasks
      ensures Valid() && t !in tasks && closed && closeCode == Some(1006)
    {
      ghost var s := Around();
      closeCode := Some(ABNORMAL_CLOSURE);
      Record(s, Fail(t), Finish);
    }

    /** A `close` that waits for a receiver is cancelled, and its future with it. */
    method ParkedCloseFails(t: Task)
      requires Valid() && t in tasks && tasks[t].CParked?
      modifies this`closeWait, this`tasks
      ensures Valid() && t !in tasks && closeWait == Done
    {
      ghost var s := Around();
      closeWait := Done;
      Record(s, Fail(t), Finish);
    }

    /** `close` after the receiver has left: the rest of the stream is its own to read. */
    method AfterCloseWait(t: Task) returns (next: Next)
      requires Valid() && t in tasks && tasks[t].CParked? && closeWait == Done
      modifies this`tasks
      ensures Valid() && if next == Finish then closing else next == Go(CReading) && ReadsAlone(t)
    {
      ghost var s := Around();
      next := ReadUnlessClosing();
      Record(s, Proceed(t), next);
    }

    /** The loop at the end of `close`, one message at a time: it ends with the peer's close message, whose code is kept. */
    method CloseRead(t: Task) returns (next: Next)
      requires Valid() && t in tasks && tasks[t].CReading? && Readable(Abs())
      modifies this`closeCode, this`buffer, this`tasks
      ensures Valid() && if next == Finish then t !in tasks else next == Go(CReading) && ReadsAlone(t)
      ensures old(buffer) != [] ==> old(buffer) == [old(buffer)[0]] + buffer
      ensures next == Finish <==> old(buffer) == [] || old(buffer)[0].kind == Close
      ensures closeCode == if next != Finish then old(closeCode)
                           else Some(if old(buffer) == [] then ABNORMAL_CLOSURE else old(buffer)[0].code)
    {
      ghost var s := Around();
      if buffer == [] {
        closeCode := Some(ABNORMAL_CLOSURE);
        next := Finish;
      } else {
        var msg := buffer[0];
        buffer := buffer[1..];
        next := Go(CReading);
        if msg.kind == Close {
          closeCode := Some(msg.code);
          next := Finish;
        }
      }
      Record(s, Proceed(t), next);
    }

    // -------------------------------------------------------------------
    // receive
    // -------------------------------------------------------------------

    /** The top of the loop of `receive`: whoever is let into `read` is there alone. */
    method ReceiveTop(t: Task) returns (next: Next)
      requires Valid() && t in tasks && tasks[t].RLoop?
      modifies this`waiting, this`tasks
      ensures Valid()
      ensures if old(waiting || closed || closing) then next == Finish && t !in tasks && waiting == old(waiting)
              else next == Go(RReading) && waiting && ReadsAlone(t)
    {
      ghost var s := Around();
      if waiting || closed || closing {
        next := Finish;
      } else {
        waiting := true;
        next := Go(RReading);
      }
      Record(s, Proceed(t), next);
    }

    method SetClosing(code: int)
      modifies this`closing, this`closeCode
      ensures Abs() == WebSocketModel.SetClosing(old(Abs()), code)
    {
      closing, closeCode := true, Some(code);
    }

    /** The finally clause around the read in `receive`. */
    method Release()
      modifies this`waiting, this`closeWait
      ensures Abs() == WebSocketModel.Release(old(Abs()))
    {
      waiting := false;
      if closeWait == Pending {
        closeWait := Done;
      }
    }

    method OnMessage(msg: Msg) returns (next: Next)
      modifies this`closed, this`closing, this`closeCode, this`writerCloses
      ensures (next, Abs()) == WebSocketModel.OnMessage(old(Abs()), msg)
    {
      next := Return(msg);
      if msg.kind == Close {
        SetClosing(msg.code);
        if !closed && autoclose {
          next := CloseOnce(false);
        }
      } else if msg.kind == Closing {
        SetClosing(OK);
      } else if msg.kind == Ping && autoping {
        next := Go(RPong);
      } else if msg.kind == Pong && autoping {
        next := Go(RLoop);
      }
    }

    method OnEnding()
      requires ended.Some?
      modifies this`closing, this`closeCode
      ensures Abs() == match ended.value
                       case Eof => old(Abs()).(closeCode := Some(OK))
                       case WebSocketError(code) => old(Abs()).(closeCode := Some(code))
                       case Other => WebSocketModel.SetClosing(old(Abs()), ABNORMAL_CLOSURE)
    {
      match ended.value {
        case Eof => closeCode := Some(OK);
        case WebSocketError(code) => closeCode := Some(code);
        case Other => SetClosing(ABNORMAL_CLOSURE);
      }
    }

    method LeaveRead(raised: bool) returns (next: Next)
      requires if raised then ended.Some? else Readable(Abs())
      modifies this`closed, this`closing, this`waiting, this`closeWait, this`closeCode, this`buffer, this`writerCloses
      ensures (next, Abs()) == if raised then ReceiveRaises(old(Abs())) else WebSocketModel.ReceiveRead(old(Abs()))
    {
      if !raised && buffer != [] {
        var msg := buffer[0];
        buffer := buffer[1..];
        Release();
        next := OnMessage(msg);
      } else {
        Release();
        OnEnding();
        next := CloseOnce(true);
      }
    }

    /**
      `receive` after its read has returned or raised: nobody is left inside `read` of
      `receive`, a `close` that waited for that can go on, and the message, or the end
      of the reading, leads to what its kind calls for.
     */
    method ReceiveRead(t: Task, raised: bool) returns (next: Next)
      requires Valid() && t in tasks && tasks[t].RReading? && if raised then ended.Some? else Readable(Abs())
      modifies this
      ensures Valid() && !waiting && NobodyParked() && writerCloses <= 1
      ensures if raised || old(buffer) == [] then buffer == old(buffer) && Closed(old(ended).value, old(Abs()), next, Abs())
              else old(buffer) == [old(buffer)[0]] + buffer && Handled(old(buffer)[0], old(Abs()), next, Abs())
      ensures next.Go? && IsClosing(next.pc) ==> ClosesAlone(t)
      ensures t in tasks <==> next.Go?
    {
      ghost var s := Around();
      ReadMeans(Abs(), raised);
      if raised {
        RaiseGoesOn(Abs());
      } else {
        LeavesRead(Abs());
      }
      next := LeaveRead(raised);
      Record(s, if raised then ReadRaises(t) else Proceed(t), next);
    }

    /** `receive` once its pong has been sent: back to the top. */
    method PongSent(t: Task) returns (next: Next)
      requires Valid() && t in tasks && tasks[t].RPong?
      modifies this`tasks
      ensures Valid() && next == Go(RLoop) && t in tasks && tasks[t].RLoop?
    {
      ghost var s := Around();
      next := Go(RLoop);
      Record(s, Proceed(t), next);
    }

    /** The read raises what `receive` does not handle, or is cancelled: the flag is taken back and a waiting `close` let go. */
    method ReceiveFails(t: Task)
      requires Valid() && t in tasks && tasks[t].RReading?
      modifies this`waiting, this`closeWait, this`tasks
      ensures Valid() && t !in tasks && !waiting && NobodyParked()
    {
      ghost var s := Around();
      Release();
      Record(s, Fail(t), Finish);
    }

    // -------------------------------------------------------------------
    // Callbacks.
    // -------------------------------------------------------------------

    /** `_handle_ping_pong_exception`: closes without a frame, and the receiver, if there is one, finds a message at the end of the queue. */
    method HandlePingPongException()
      requires Valid()
      modifies this`closed, this`closeCode, this`buffer
      ensures Valid() && closed && writerCloses == old(writerCloses)
      ensures old(closed) ==> unchanged(this)
      ensures !old(closed) ==> closeCode == Some(1006) && closing == old(closing)
      ensures !old(closed) ==> buffer == old(buffer) + if waiting && !closing then [Msg(Data, 0)] else []
      ensures !old(closed) && !closing ==>
                forall u :: u in tasks && tasks[u].RReading? ==> Enabled(Around(), Proceed(u))
    {
      ghost var s := Around();
      if !closed {
        closed, closeCode := true, Some(ABNORMAL_CLOSURE);
        if waiting && !closing {
          buffer := buffer + [Msg(Data, 0)];
        }
      }
      CallbackKeeps(s, PingFailed);
      assert Around() == Do(s, PingFailed);
    }

    /** `_cancel`: whoever is inside `read` leaves it, and nobody gets in again. */
    method Cancel()
      requires Valid()
      modifies this`closing, this`ended
      ensures Valid() && closing && ended == Some(Other)
      ensures forall u :: u in tasks && IsReading(tasks[u]) ==> Enabled(Around(), Proceed(u))
    {
      ghost var s := Around();
      closing, ended := true, Some(Other);
      CallbackKeeps(s, Cancelled);
      assert Around() == Do(s, Cancelled);
    }
  }
}
