/**
  The `HttpParser` object of http_parser.py on a strict CRLF stream: the loop of
  `feed_data` searches and slices whole buffers, keeps unfinished lines between
  calls, and hands payload data to an `HttpPayloadParser` that feeds the message's
  `StreamReader`. `FeedData` is proved to do what the automaton of MessageFraming
  does: the messages are its items, and their streams hold the items' payloads.
 */
module HttpParsers {
  import opened Options
  import opened Bytes
  import opened MessageFraming
  import HP = HttpPayloadParsers
  import PF = PayloadFraming
  import SR = StreamReaders
  import ST = Streams

  /** A message and the stream of its payload, null for EMPTY_PAYLOAD. */
  datatype Delivered = Delivered(lines: seq<bytes>, msg: Message, payload: SR.StreamReader?)

  /** (messages, upgraded, data) or a raised exception. */
  datatype FeedResult = Got(messages: seq<Delivered>, upgraded: bool, data: bytes) | Raised(error: FramingError)

  const EMPTY: ST.Stream := ST.Stream([], 0, 0, None, false)

  /** The message is this item, and its stream, which began empty, has received the item's payload. */
  ghost predicate IsDelivered(d: Delivered, i: Item)
    reads d.payload
  {
    && i.Msg? && d.lines == i.lines && d.msg == i.msg
    && (d.payload == null <==> i.payload.Empty?)
    && (d.payload != null ==> d.payload.Valid() && HP.Gave(EMPTY, d.payload.Abs(), i.payload.p))
  }

  /** Streams of different messages are different objects. */
  predicate Distinct(messages: seq<Delivered>) {
    forall i, j :: 0 <= i < j < |messages| && messages[i].payload != null ==> messages[i].payload != messages[j].payload
  }

  lemma OccursInSuffix(data: bytes, start: nat, i: int)
    requires start <= |data|
    ensures OccursAt(data[start..], CRLF, i) <==> 0 <= i && OccursAt(data, CRLF, start + i)
  {
    var s := data[start..];
    if 0 <= i && i + 2 <= |s| {
      assert s[i..i + 2] == data[start + i..start + i + 2];
    }
  }

  lemma FindInSuffix(data: bytes, start: nat)
    requires start <= |data|
    ensures var pos := Find(data, CRLF, start);
            var s := data[start..];
            if pos < 0 then PF.NoCrlf(s)
            else OccursAt(s, CRLF, pos - start) && forall i :: 0 <= i < pos - start ==> !OccursAt(s, CRLF, i)
  {
    FindIsFirst(data, CRLF, start);
    forall i
      ensures OccursAt(data[start..], CRLF, i) <==> 0 <= i && OccursAt(data, CRLF, start + i)
    {
      OccursInSuffix(data, start, i);
    }
  }

  /** The line that starts at `start`, if it is complete. */
  lemma LineAt(c: Config, r: Run, data: bytes, start: nat)
    requires Ok(r) && r.phase.Head? && r.phase.tail == [] && !r.dropping && start <= |data|
    ensures var pos := Find(data, CRLF, start);
            if pos < 0 then
              && PF.NoCrlf(data[start..])
              && Feed(c, r, data[start..]) == r.(phase := Head(r.phase.lines, data[start..]))
            else
              && Ok(OnLine(c, r, r.phase.lines, data[start..pos]))
              && Feed(c, r, data[start..])
                 == Feed(c, OnLine(c, r, r.phase.lines, data[start..pos]), data[pos + 2..])
  {
    var s := data[start..];
    FindInSuffix(data, start);
    var pos := Find(data, CRLF, start);
    if pos < 0 {
      EmptyPrefix(s);
      FeedNoLine(c, r, s);
    } else {
      FeedLine(c, r, s, pos - start);
      FeedSplit(c, r, s, pos - start + 2);
      assert s[..pos - start] == data[start..pos] && s[pos - start + 2..] == data[pos + 2..];
    }
  }

  /** Bytes kept from the last call are what the automaton, too, is still collecting. */
  lemma TailIsState(c: Config, r: Run, data: bytes)
    requires Ok(r) && r.phase.Head? && !r.dropping && PF.NoCrlf(r.phase.tail)
    ensures Feed(c, r, data) == Feed(c, r.(phase := Head(r.phase.lines, [])), r.phase.tail + data)
  {
    var r0 := r.(phase := Head(r.phase.lines, []));
    EmptyPrefix(r.phase.tail);
    FeedNoLine(c, r0, r.phase.tail);
    FeedAppend(c, r0, r.phase.tail, data);
  }

  /** A payload and the run around it, when the payload parser gets `data`. */
  lemma PayloadFed(c: Config, r: Run, data: bytes)
    requires Ok(r) && r.phase.Body? && !r.dropping && data != []
    ensures var p0 := r.cur.payload.p;
            var p, q := PF.Feed(p0, data), PF.Feed(PF.Start(p0.mode), data);
            && p == PF.Then(p0, q) && p.mode == q.mode && Ok(Fed(r, p))
            && if p.mode.Finished? then
                 && |p.mode.leftover| < |data|
                 && Feed(c, r, data) == Feed(c, Fed(r, p.(mode := PF.Finished([]))), p.mode.leftover)
               else Feed(c, r, data) == Fed(r, p)
  {
    FeedBody(c, r, data);
    PF.FeedFrom(r.cur.payload.p, data);
  }

  class HttpParser {
    const c: Config
    const protocol: SR.BaseProtocol
    const limit: nat
    var lines: seq<bytes>
    var tail: bytes
    var upgraded: bool
    var payloadParser: HP.HttpPayloadParser?

    ghost predicate Valid()
      reads this, payloadParser, Payload()
    {
      && PF.NoCrlf(tail)
      && (payloadParser != null || upgraded ==> lines == [] && tail == [])
      && ParserOk()
    }

    /** The stream that is being fed. */
    ghost function Payload(): SR.StreamReader?
      reads this
    {
      if payloadParser != null then payloadParser.payload else null
    }

    ghost predicate ParserOk()
      reads this, payloadParser, Payload()
    {
      payloadParser != null ==>
        && payloadParser.Valid() && !payloadParser.done && !payloadParser.payload.eof
        && payloadParser.payload.protocol == protocol && Live(payloadParser.Mode())
    }

    ghost function Phase(): Phase
      reads this
    {
      if payloadParser != null then Body else if upgraded then Raw else Head(lines, tail)
    }

    /** The run at the start of a call. */
    ghost function State(): Run
      reads this, payloadParser
    {
      Run(Phase(), upgraded, [], Carry(Received()), [], false, false)
    }

    ghost function Received(): Payload
      reads this, payloadParser
    {
      if payloadParser != null then Stream(PF.Start(payloadParser.Mode())) else Empty
    }

    /** The run inside a call. */
    ghost function Now(past: seq<Item>, cur: Item, closing: bool, dropping: bool): Run
      reads this
    {
      Run(Phase(), upgraded, past, cur, [], closing, dropping)
    }

    /** The attached payload parser and the payload it feeds are in step. */
    ghost predicate InStep(cur: Item)
      reads this, payloadParser
    {
      payloadParser != null ==> cur.payload.Stream? && cur.payload.p.mode == payloadParser.Mode()
    }

    constructor (c: Config, protocol: SR.BaseProtocol, limit: nat)
      ensures Valid() && State() == Idle && this.c == c && this.protocol == protocol
    {
      this.c, this.protocol, this.limit := c, protocol, limit;
      lines, tail, upgraded, payloadParser := [], [], false, null;
    }

    /** A complete message: what `parse_message` says decides how its payload is read. */
    method StartMessage(collected: seq<bytes>, ghost past: seq<Item>, ghost cur: Item)
      returns (error: Option<FramingError>, closing: bool, d: Option<Delivered>, ghost cur': Item)
      requires Valid() && lines == [] && tail == [] && payloadParser == null && !upgraded
      modifies this`upgraded, this`payloadParser
      ensures var r := OnMessage(c, old(Now(past, cur, false, false)), collected);
              if error.Some? then r == old(Now(past, cur, false, false)).(phase := Failed(error.value))
              else r == Now(past + [cur], cur', closing, false)
      ensures error.None? ==> d.Some? && Valid() && InStep(cur') && Starts(d.value, cur')
    {
      error, closing, d, cur' := None, false, None, cur;
      var parsed := c.parse(collected);
      if parsed.Rejected? {
        error := Some(BadMessage);
        return;
      }
      var m := parsed.msg;
      if m.length.NotDigits? {
        error := Some(BadLength);
        return;
      }
      if m.key1 {
        error := Some(OldWebSocket);
        return;
      }
      closing := m.shouldClose;
      ghost var payload;
      var stream;
      stream, payload := ChoosePayload(m);
      d, cur' := Some(Delivered(collected, m, stream)), Msg(collected, m, payload);
    }

    /** The payload of a message: a new stream with a parser, a new stream that is complete, or EMPTY_PAYLOAD. */
    method ChoosePayload(m: Message) returns (stream: SR.StreamReader?, ghost payload: Payload)
      requires ParserOk() && payloadParser == null && !m.length.NotDigits?
      modifies this`upgraded, this`payloadParser
      ensures Opened(c, m) == (payload, upgraded)
      ensures stream == null <==> payload.Empty?
      ensures stream != null ==> fresh(stream) && Attached(stream, payload.p)
      ensures stream == null ==> payloadParser == null
    {
      upgraded := m.upgrade;
      stream, payload := null, Empty;
      if !m.emptyBody && ((m.length.Digits? && m.length.n > 0) || m.chunked) && !upgraded {
        stream, payload := Attach(LengthOf(m), m.chunked, c.responseWithBody);
      } else if m.connect {
        upgraded := true;
        stream, payload := Attach(None, false, true);
      } else if !m.emptyBody && m.length.NoLength? && c.readUntilEof {
        stream, payload := Attach(None, m.chunked, c.responseWithBody);
      }
    }

    /** The stream has received this payload, and if there is more to come, its parser is attached. */
    twostate predicate Attached(new stream: SR.StreamReader, p: PF.Parse)
      reads this, payloadParser, Payload(), stream
    {
      && ParserOk() && stream.Valid() && HP.Gave(EMPTY, stream.Abs(), p)
      && (payloadParser != null <==> Live(p.mode))
      && (payloadParser != null ==>
            fresh(payloadParser) && payloadParser.payload == stream && p.mode == payloadParser.Mode())
    }

    /** A message that has just been started: its stream is new, and it is the one that is fed if any is. */
    twostate predicate Starts(new d: Delivered, cur: Item)
      reads this, d.payload
    {
      && IsDelivered(d, cur) && (d.payload != null ==> fresh(d.payload))
      && (payloadParser != null ==> fresh(payloadParser) && payloadParser.payload == d.payload)
    }

    /** A new stream and payload parser; the parser is kept unless it is done at once. */
    method Attach(length: Option<nat>, chunked: bool, responseWithBody: bool)
      returns (stream: SR.StreamReader, ghost payload: Payload)
      requires payloadParser == null && (length == Some(0) && responseWithBody ==> chunked)
      modifies this`payloadParser
      ensures fresh(stream) && payload == Stream(PF.Start(FirstMode(length, chunked, responseWithBody)))
      ensures Attached(stream, payload.p)
    {
      stream := new SR.StreamReader(protocol, limit);
      var parser := new HP.HttpPayloadParser(stream, length, chunked, responseWithBody);
      payload := Stream(PF.Start(FirstMode(length, chunked, responseWithBody)));
      HP.GaveNothing(EMPTY, PF.UntilEof);
      if !parser.done {
        payloadParser := parser;
      }
    }

    /** A complete line. */
    method TakeLine(line: bytes, closing: bool, ghost past: seq<Item>, ghost cur: Item)
      returns (error: Option<FramingError>, closing': bool, d: Option<Delivered>, ghost cur': Item)
      requires Valid() && tail == [] && payloadParser == null && !upgraded
      modifies this`lines, this`upgraded, this`payloadParser
      ensures var r0 := old(Now(past, cur, closing, false));
              var r := OnLine(c, r0, old(lines), line);
              if error.Some? then r == r0.(phase := Failed(error.value))
              else r == Now(if d.Some? then past + [cur] else past, cur', closing', false)
      ensures error.None? ==> Valid() && InStep(cur')
      ensures error.None? ==> if d.Some? then Starts(d.value, cur') else cur' == cur && payloadParser == null
    {
      error, closing', d, cur' := None, closing, None, cur;
      if line == [] && lines == [] {
        return;
      }
      if closing {
        error := Some(DataAfterClose);
        return;
      }
      if line == [] {
        var collected := lines + [line];
        lines := [];
        error, closing', d, cur' := StartMessage(collected, past, cur);
      } else {
        lines := lines + [line];
      }
    }

    /** The parser that is attached feeds its own stream, and no other; what it raises is the stream's exception. */
    method FeedParser(data: bytes, ghost others: set<SR.StreamReader>) returns (r: HP.FeedResult)
      requires ParserOk() && payloadParser != null && payloadParser.payload !in others
      modifies payloadParser, payloadParser.payload, protocol
      ensures payloadParser.ValidAfter(HP.Stop(r)) && payloadParser.Did(data, r)
      ensures forall o :: o in others ==> unchanged(o)
      ensures r.Error? ==> payloadParser.payload.failed
    {
      r := payloadParser.FeedData(data);
      if r.Error? {
        payloadParser.payload.SetException();
      }
    }

    /** The payload parser's turn: what it consumed goes to its stream, and what it left comes back. */
    method FeedPayload(data: bytes, ghost cur: Item, ghost past: seq<Item>, ghost closing: bool, ghost s0: ST.Stream,
                       ghost others: set<SR.StreamReader>)
      returns (eof: bool, rest: bytes, ghost cur': Item, ghost broken: bool)
      requires Valid() && payloadParser != null && InStep(cur) && data != [] && payloadParser.payload !in others
      requires HP.Gave(s0, payloadParser.payload.Abs(), cur.payload.p)
      modifies this`payloadParser, payloadParser, payloadParser.payload, protocol
      ensures Valid() && InStep(cur') && |rest| < |data| && (!eof ==> rest == [])
      ensures payloadParser == if eof then null else old(payloadParser)
      ensures broken ==> eof && rest == []
      ensures var r := old(Now(past, cur, closing, false));
              var r' := Now(past, cur', closing, broken);
              Ok(r) && Ok(r') && Feed(c, r, data) == Feed(c, r', rest)
      ensures cur'.payload.Stream? && cur' == cur.(payload := cur'.payload)
      ensures old(Payload()).Valid() && HP.Gave(s0, old(Payload()).Abs(), cur'.payload.p)
      ensures broken ==> old(Payload()).failed
      ensures forall o :: o in others ==> unchanged(o)
    {
      ghost var r, p0, mode := Now(past, cur, closing, false), cur.payload.p, payloadParser.Mode();
      ghost var s1, stream := payloadParser.payload.Abs(), payloadParser.payload;
      PayloadFed(c, r, data);
      ghost var q := PF.Feed(PF.Start(mode), data);
      ghost var p := PF.Feed(p0, data);
      var result := FeedParser(data, others);
      HP.GaveThen(s0, s1, stream.Abs(), p0, q);
      match result {
        case NeedMore =>
          eof, rest, broken, cur' := false, [], false, cur.(payload := Stream(p));
        case AtEof(left) =>
          payloadParser := null;
          eof, rest, broken := true, left, false;
          cur' := cur.(payload := Stream(p.(mode := PF.Finished([]))));
        case Error(_) =>
          payloadParser := null;
          eof, rest, broken, cur' := true, [], true, cur.(payload := Stream(p));
      }
    }

    /** The next line of the data, or else a tail to keep. */
    method ReadLine(data: bytes, startPos: nat, closing: bool, ghost past: seq<Item>, ghost cur: Item)
      returns (error: Option<FramingError>, found: bool, startPos': nat,
               closing': bool, d: Option<Delivered>, ghost cur': Item)
      requires Valid() && tail == [] && payloadParser == null && !upgraded && startPos < |data|
      modifies this
      ensures var r0 := old(Now(past, cur, closing, false));
              var r := Feed(c, r0, data[startPos..]);
              if error.Some? then r.phase == Failed(error.value) && r.past == past && r.cur == cur
              else
                && Valid() && InStep(cur') && Ok(Now(if d.Some? then past + [cur] else past, cur', closing', false))
                && if found then
                     startPos < startPos' <= |data| && tail == []
                     && r == Feed(c, Now(if d.Some? then past + [cur] else past, cur', closing', false), data[startPos'..])
                   else d.None? && r == Now(past, cur', closing', false)
      ensures error.None? ==> if d.Some? then Starts(d.value, cur') else cur' == cur && payloadParser == null
    {
      error, found, startPos', closing', d, cur' := None, false, startPos, closing, None, cur;
      ghost var r := Now(past, cur, closing, false);
      LineAt(c, r, data, startPos);
      var pos := Find(data, CRLF, startPos);
      if pos < 0 {
        tail := data[startPos..];
        return;
      }
      found, startPos' := true, pos + 2;
      ghost var next := OnLine(c, r, lines, data[startPos..pos]);
      error, closing', d, cur' := TakeLine(data[startPos..pos], closing, past, cur);
      if error.Some? {
        FailedStays(c, next, data[pos + 2..]);
      }
    }

    /** The tail of the last call goes in front. */
    lemma WithTail(data: bytes)
      requires Valid()
      ensures var r := State();
              Feed(c, r, data) == Feed(c, if r.phase.Head? then r.(phase := Head(lines, [])) else r, tail + data)
    {
      if State().phase.Head? {
        TailIsState(c, State(), data);
      } else {
        EmptyPrefix(data);
      }
    }

    /**
      What the call has produced: a message for each item but the first, all with
      streams of their own; the first item is what the stream carried over from an
      earlier call, of value `s0` then, has received. The newest stream is fed.
     */
    ghost predicate InCall(messages: seq<Delivered>, carried: SR.StreamReader?, s0: ST.Stream,
                           past: seq<Item>, cur: Item)
      reads this, carried, set d: Delivered | d in messages && d.payload != null :: d.payload
    {
      && AllDelivered(messages, past + [cur]) && Distinct(messages)
      && (forall d :: d in messages && d.payload != null ==> d.payload != carried)
      && CarriedOn(carried, s0, past + [cur])
      && (payloadParser != null ==> payloadParser.payload == Newest(messages, carried))
    }

    /** The message that a line has completed, if it has, joins the others. */
    lemma Collected(d: Option<Delivered>, messages: seq<Delivered>, carried: SR.StreamReader?, s0: ST.Stream,
                    past: seq<Item>, cur: Item, cur': Item)
      requires AllDelivered(messages, past + [cur]) && Distinct(messages) && CarriedOn(carried, s0, past + [cur])
      requires forall m :: m in messages && m.payload != null ==> m.payload != carried
      requires if d.Some? then IsDelivered(d.value, cur') else cur' == cur && payloadParser == null
      requires d.Some? ==> (d.value.payload != null ==> d.value.payload != carried)
                           && (forall m :: m in messages && m.payload != null ==> m.payload != d.value.payload)
                           && (payloadParser != null ==> payloadParser.payload == d.value.payload)
      ensures if d.Some? then InCall(messages + [d.value], carried, s0, past + [cur], cur')
              else InCall(messages, carried, s0, past, cur')
    {
      if d.Some? {
        OneMore(messages, past + [cur], d.value, cur');
      }
    }

    /** The newest stream gets its share of the data. */
    method FeedNewest(data: bytes, messages: seq<Delivered>, ghost carried: SR.StreamReader?, ghost s0: ST.Stream,
                      ghost past: seq<Item>, ghost cur: Item, ghost closing: bool)
      returns (eof: bool, rest: bytes, ghost cur': Item, ghost broken: bool)
      requires Valid() && payloadParser != null && InStep(cur) && data != []
      requires InCall(messages, carried, s0, past, cur)
      modifies this`payloadParser, payloadParser, payloadParser.payload, protocol
      ensures Valid() && InStep(cur') && |rest| < |data| && (!eof ==> rest == [])
      ensures payloadParser == if eof then null else old(payloadParser)
      ensures broken ==> eof && rest == []
      ensures var r := old(Now(past, cur, closing, false));
              var r' := Now(past, cur', closing, broken);
              Ok(r) && Ok(r') && Feed(c, r, data) == Feed(c, r', rest)
      ensures InCall(messages, carried, s0, past, cur')
    {
      ghost var from, earlier := if messages == [] then s0 else EMPTY, Earlier(messages);
      ghost var others := Others(messages, carried);
      SplitNewest(messages, past, cur);
      NewestApart(messages, carried);
      assert IsFed(messages, carried, from, cur);
      ghost var before1, before2 := AllDelivered(earlier, past), CarriedOn(carried, s0, past);
      eof, rest, cur', broken := FeedPayload(data, cur, past, closing, from, others);
      ghost var after1, after2 := AllDelivered(earlier, past), CarriedOn(carried, s0, past);
      assert messages != [] ==> before1 == after1 && before2 == after2;
      JoinNewest(messages, carried, s0, past, cur');
    }

    ghost predicate IsFed(messages: seq<Delivered>, carried: SR.StreamReader?, from: ST.Stream, cur: Item)
      reads this, Newest(messages, carried)
    {
      var stream := Newest(messages, carried);
      stream != null && stream.OffsetOk() && cur.payload.Stream? && HP.Gave(from, stream.Abs(), cur.payload.p)
    }

    /** The call has come to this place in `data` and will end as `final`. */
    ghost predicate Going(final: Run, data: bytes, startPos: nat, dataLen: nat, now: Run)
      reads this, payloadParser, Payload()
    {
      && Valid() && tail == [] && InStep(now.cur) && startPos <= dataLen
      && (if data == [] then startPos == dataLen || payloadParser != null else dataLen == |data|)
      && Ok(now) && now == Now(now.past, now.cur, now.closing, now.dropping)
      && (now.dropping ==> startPos == dataLen)
      && final == Feed(c, now, Rest(data, startPos))
    }

    /** The call is over; `rest` goes back to the caller. */
    ghost predicate Ended(final: Run, rest: bytes, now: Run)
      reads this, payloadParser, Payload()
    {
      && Valid() && InStep(now.cur) && Ok(now) && now == Now(now.past, now.cur, now.closing, now.dropping)
      && final == now.(raw := rest)
    }

    /** A call without an error: its messages are the items of the run, and the parser is where the run is. */
    ghost predicate HandsOver(s: Run, messages: seq<Delivered>, upgraded': bool, rest: bytes)
      reads this, payloadParser, Payload(), set d: Delivered | d in messages && d.payload != null :: d.payload
    {
      && Valid() && Ok(s) && State() == NextCall(s) && upgraded' == s.upgraded && s.raw == rest
      && AllDelivered(messages, s.past + [s.cur]) && Distinct(messages)
    }

    lemma NothingLeft(final: Run, data: bytes, startPos: nat, dataLen: nat, now: Run)
      requires Going(final, data, startPos, dataLen, now) && (dataLen <= startPos || data == [])
      ensures Ended(final, Rest(data, startPos), now)
    {
    }

    lemma RawLeft(final: Run, data: bytes, startPos: nat, dataLen: nat, now: Run)
      requires Going(final, data, startPos, dataLen, now) && startPos < dataLen && upgraded && payloadParser == null
      ensures Ended(final, Rest(data, startPos), now)
    {
      EmptyPrefix(Rest(data, startPos));
      FeedRaw(c, now, Rest(data, startPos));
    }

    lemma Over(final: Run, rest: bytes, now: Run, messages: seq<Delivered>, carried: SR.StreamReader?, s0: ST.Stream)
      requires Ended(final, rest, now) && InCall(messages, carried, s0, now.past, now.cur)
      ensures HandsOver(final, messages, upgraded, rest) && CarriedOn(carried, s0, final.past + [final.cur])
    {
    }

    /** The parser and the stream that are fed, if any, are those of the start or new. */
    twostate predicate NewParser()
      reads this
    {
      payloadParser != null ==>
        payloadParser == old(payloadParser) || (fresh(payloadParser) && fresh(payloadParser.payload))
    }

    /** Messages are only added, and the streams of the added ones are new. */
    twostate predicate NewOnes(new messages: seq<Delivered>, new messages': seq<Delivered>) {
      && messages <= messages'
      && forall i :: |messages| <= i < |messages'| && messages'[i].payload != null ==> fresh(messages'[i].payload)
    }

    /** The next line, seen from the whole call; it leaves the streams alone. */
    method SeekLine(data: bytes, startPos: nat, closing: bool, ghost final: Run, ghost now: Run,
                    ghost messages: seq<Delivered>, ghost carried: SR.StreamReader?, ghost s0: ST.Stream)
      returns (error: Option<FramingError>, found: bool, startPos': nat, closing': bool,
               d: Option<Delivered>, ghost now': Run)
      requires Going(final, data, startPos, |data|, now) && startPos < |data| && payloadParser == null && !upgraded
      requires now.closing == closing
      requires AllDelivered(messages, now.past + [now.cur]) && CarriedOn(carried, s0, now.past + [now.cur])
      modifies this
      ensures error.Some? ==> final.phase == Failed(error.value) && final.past == now.past && final.cur == now.cur
      ensures error.None? && found ==> startPos < startPos' <= |data| && Going(final, data, startPos', |data|, now')
      ensures error.None? && !found ==> Ended(final, [], now')
      ensures error.None? ==> now'.closing == closing' && now'.past == if d.Some? then now.past + [now.cur] else now.past
      ensures error.None? ==> if d.Some? then Starts(d.value, now'.cur) else now'.cur == now.cur && payloadParser == null
      ensures AllDelivered(messages, now.past + [now.cur]) && CarriedOn(carried, s0, now.past + [now.cur])
    {
      ghost var items, cur' := now.past + [now.cur], now.cur;
      ghost var before1, before2 := AllDelivered(messages, items), CarriedOn(carried, s0, items);
      error, found, startPos', closing', d, cur' := ReadLine(data, startPos, closing, now.past, now.cur);
      ghost var after1, after2 := AllDelivered(messages, items), CarriedOn(carried, s0, items);
      assert before1 == after1 && before2 == after2;
      now' := Now(if d.Some? then now.past + [now.cur] else now.past, cur', closing', false);
    }

    /** A turn of the loop that looks for a line. */
    method LineTurn(data: bytes, startPos: nat, closing: bool, messages: seq<Delivered>,
                    ghost final: Run, ghost now: Run, ghost carried: SR.StreamReader?, ghost s0: ST.Stream)
      returns (error: Option<FramingError>, found: bool, startPos': nat, closing': bool,
               messages': seq<Delivered>, ghost now': Run)
      requires Going(final, data, startPos, |data|, now) && startPos < |data| && payloadParser == null && !upgraded
      requires now.closing == closing && InCall(messages, carried, s0, now.past, now.cur)
      modifies this
      ensures error.Some? ==> final.phase == Failed(error.value) && CarriedOn(carried, s0, final.past + [final.cur])
      ensures error.None? && found ==> startPos < startPos' <= |data| && Going(final, data, startPos', |data|, now')
      ensures error.None? && !found ==> Ended(final, [], now')
      ensures error.None? ==> now'.closing == closing' && InCall(messages', carried, s0, now'.past, now'.cur)
      ensures error.None? ==> NewParser() && NewOnes(messages, messages')
    {
      var d;
      error, found, startPos', closing', d, now' :=
        SeekLine(data, startPos, closing, final, now, messages, carried, s0);
      messages' := messages;
      if error.None? {
        Collected(d, messages, carried, s0, now.past, now.cur, now'.cur);
        messages' := if d.Some? then messages + [d.value] else messages;
      }
    }

    /** A turn of the loop that feeds a payload. */
    method PayloadTurn(data: bytes, startPos: nat, dataLen: nat, messages: seq<Delivered>,
                       ghost final: Run, ghost now: Run, ghost carried: SR.StreamReader?, ghost s0: ST.Stream)
      returns (data': bytes, startPos': nat, dataLen': nat, ghost now': Run)
      requires Going(final, data, startPos, dataLen, now) && startPos < dataLen && payloadParser != null && data != []
      requires InCall(messages, carried, s0, now.past, now.cur)
      modifies this`payloadParser, payloadParser, payloadParser.payload, protocol
      ensures Going(final, data', startPos', dataLen', now') && now'.closing == now.closing
      ensures |Rest(data', startPos')| < |Rest(data, startPos)|
      ensures payloadParser == null || payloadParser == old(payloadParser)
      ensures InCall(messages, carried, s0, now'.past, now'.cur)
    {
      var eof;
      ghost var broken, cur';
      startPos', dataLen' := startPos, dataLen;
      eof, data', cur', broken := FeedNewest(data[startPos..], messages, carried, s0, now.past, now.cur, now.closing);
      now' := Now(now.past, cur', now.closing, broken);
      if eof {
        startPos', dataLen' := 0, |data'|;
      }
    }

    /** What comes of a call that will end as `final`. */
    ghost predicate Outcome(final: Run, r: FeedResult, carried: SR.StreamReader?, s0: ST.Stream)
      reads this, payloadParser, Payload(), carried,
            set d: Delivered | r.Got? && d in r.messages && d.payload != null :: d.payload
    {
      && CarriedOn(carried, s0, final.past + [final.cur])
      && match r
         case Raised(error) => final.phase == Failed(error)
         case Got(messages, upgraded', rest) => HandsOver(final, messages, upgraded', rest)
    }

    /** The loop of `feed_data`. */
    method FeedLoop(all: bytes, ghost final: Run, ghost start: Run, ghost carried: SR.StreamReader?, ghost s0: ST.Stream)
      returns (r: FeedResult)
      requires Going(final, all, 0, |all|, start) && !start.closing
      requires InCall([], carried, s0, start.past, start.cur)
      modifies this, payloadParser, Payload(), protocol
      ensures Outcome(final, r, carried, s0) && (r.Got? ==> NewOnes([], r.messages))
    {
      var data: bytes, startPos: nat, dataLen: nat := all, 0, |all|;
      var messages: seq<Delivered>, shouldClose := [], false;
      ghost var now, ended := start, false;
      while startPos < dataLen
        invariant Going(final, data, startPos, dataLen, now) && now.closing == shouldClose && !ended
        invariant InCall(messages, carried, s0, now.past, now.cur)
        invariant NewOnes([], messages) && NewParser()
        decreases |Rest(data, startPos)|, |data|
      {
        if payloadParser == null && !upgraded {
          var error, found;
          error, found, startPos, shouldClose, messages, now :=
            LineTurn(data, startPos, shouldClose, messages, final, now, carried, s0);
          if error.Some? {
            return Raised(error.value);
          }
          if !found {
            data, ended := [], true;
            break;
          }
        } else if payloadParser == null {
          RawLeft(final, data, startPos, dataLen, now);
          ended := true;
          break;
        } else if data != [] {
          data, startPos, dataLen, now := PayloadTurn(data, startPos, dataLen, messages, final, now, carried, s0);
        } else {
          break;
        }
      }
      if !ended {
        NothingLeft(final, data, startPos, dataLen, now);
      }
      Over(final, Rest(data, startPos), now, messages, carried, s0);
      return Got(messages, upgraded, Rest(data, startPos));
    }

    /**
      `feed_data`, strict mode. What an error leaves of the call is what the stream of
      an earlier message has received; else the messages are handed over with their
      streams, and the parser is where the automaton is.
     */
    method FeedData(data: bytes) returns (r: FeedResult)
      requires Valid()
      modifies this, payloadParser, Payload(), protocol
      ensures Ok(old(State()))
      ensures Outcome(Feed(c, old(State()), data), r, old(Payload()), old(Begun()))
      ensures r.Got? ==> NewOnes([], r.messages)
    {
      ghost var final, carried, s0 := Feed(c, State(), data), Payload(), Begun();
      WithTail(data);
      var all := tail + data;
      tail := [];
      ghost var start := Now([], Carry(Received()), false, false);
      NothingDelivered(carried, s0, start.cur);
      r := FeedLoop(all, final, start, carried, s0);
    }

    /** What the stream of an earlier message holds when the call begins. */
    ghost function Begun(): ST.Stream
      reads this, payloadParser, Payload()
      requires Valid()
    {
      if payloadParser != null then payloadParser.payload.Abs() else EMPTY
    }

    lemma NothingDelivered(carried: SR.StreamReader?, s0: ST.Stream, cur: Item)
      requires Valid() && carried == Payload() && s0 == Begun() && cur == Carry(Received())
      ensures InCall([], carried, s0, [], cur)
    {
      if payloadParser != null {
        HP.GaveNothing(s0, payloadParser.Mode());
      }
      assert [] + [cur] == [cur];
    }
  }

  /** The stream that was added last. */
  function Newest(messages: seq<Delivered>, carried: SR.StreamReader?): SR.StreamReader? {
    if messages == [] then carried else messages[|messages| - 1].payload
  }

  ghost predicate AllDelivered(messages: seq<Delivered>, items: seq<Item>)
    reads set d: Delivered | d in messages && d.payload != null :: d.payload
  {
    |items| == |messages| + 1 && forall i :: 0 <= i < |messages| ==> IsDelivered(messages[i], items[i + 1])
  }

  /** What the stream of an earlier message has received in this call. */
  ghost predicate CarriedOn(carried: SR.StreamReader?, s0: ST.Stream, items: seq<Item>)
    reads carried
  {
    carried != null ==>
      items != [] && items[0].payload.Stream? && carried.Valid() && HP.Gave(s0, carried.Abs(), items[0].payload.p)
  }

  /** All messages but the newest. */
  function Earlier(messages: seq<Delivered>): seq<Delivered> {
    if messages == [] then [] else messages[..|messages| - 1]
  }

  /** All streams but the newest. */
  function Others(messages: seq<Delivered>, carried: SR.StreamReader?): set<SR.StreamReader> {
    (set i | 0 <= i < |messages| - 1 && messages[i].payload != null :: messages[i].payload)
    + if messages != [] && carried != null then {carried} else {}
  }

  lemma NewestApart(messages: seq<Delivered>, carried: SR.StreamReader?)
    requires Distinct(messages) && forall d :: d in messages && d.payload != null ==> d.payload != carried
    ensures Newest(messages, carried) != null ==> Newest(messages, carried) !in Others(messages, carried)
    ensures forall d :: d in Earlier(messages) && d.payload != null ==> d.payload in Others(messages, carried)
    ensures messages != [] && carried != null ==> carried in Others(messages, carried)
  {
    if messages != [] {
      assert messages[|messages| - 1] in messages;
    }
  }

  /** The newest message apart from the others. */
  lemma SplitNewest(messages: seq<Delivered>, past: seq<Item>, cur: Item)
    requires AllDelivered(messages, past + [cur])
    ensures messages != [] ==> AllDelivered(Earlier(messages), past) && IsDelivered(messages[|messages| - 1], cur)
  {
    if messages != [] {
      var n, items := |messages| - 1, past + [cur];
      assert items[n + 1] == cur;
      forall i | 0 <= i < n
        ensures IsDelivered(messages[..n][i], past[i + 1])
      {
        assert items[i + 1] == past[i + 1] && messages[..n][i] == messages[i];
      }
    }
  }

  lemma JoinNewest(messages: seq<Delivered>, carried: SR.StreamReader?, s0: ST.Stream, past: seq<Item>, cur: Item)
    requires |past| == |messages|
    requires if messages == [] then CarriedOn(carried, s0, [cur])
             else AllDelivered(Earlier(messages), past) && IsDelivered(messages[|messages| - 1], cur)
                  && CarriedOn(carried, s0, past)
    ensures AllDelivered(messages, past + [cur]) && CarriedOn(carried, s0, past + [cur])
  {
    if messages == [] {
      assert past + [cur] == [cur];
    } else {
      var n := |messages| - 1;
      OneMore(messages[..n], past, messages[n], cur);
      assert messages[..n] + [messages[n]] == messages;
    }
  }

  lemma OneMore(messages: seq<Delivered>, items: seq<Item>, d: Delivered, i: Item)
    requires AllDelivered(messages, items) && IsDelivered(d, i)
    ensures AllDelivered(messages + [d], items + [i])
  {
  }

  function LengthOf(m: Message): (length: Option<nat>)
    requires !m.length.NotDigits?
  {
    if m.length.Digits? then Some(m.length.n) else None
  }

  /** The mode in which a payload parser begins. */
  function FirstMode(length: Option<nat>, chunked: bool, responseWithBody: bool): PF.Mode {
    if !responseWithBody then PF.Finished([])
    else if chunked then PF.Chunked(PF.Size, [])
    else if length.Some? then PF.Length(length.value)
    else PF.UntilEof
  }

  function Rest(data: bytes, startPos: nat): bytes {
    if data != [] && startPos < |data| then data[startPos..] else []
  }
}
