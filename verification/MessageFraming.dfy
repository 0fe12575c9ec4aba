/**
  What `HttpParser.feed_data` of http_parser.py means on a strict CRLF stream,
  one byte at a time. `parse_message` is a function of the collected lines;
  payloads follow PayloadFraming. Two flags live for the rest of one call only: a
  message that closes the connection, and a payload that was broken.
 */
module MessageFraming {
  import opened Bytes
  import PF = PayloadFraming

  datatype LengthHeader = NoLength | Digits(n: nat) | NotDigits

  /** What framing needs to know of a parsed message. */
  datatype Message = Message(
    length: LengthHeader, key1: bool,
    upgrade: bool,        // asked for, and to a supported protocol
    emptyBody: bool,      // by its method or status code
    connect: bool, chunked: bool, shouldClose: bool)

  datatype ParseResult = Parsed(msg: Message) | Rejected

  datatype FramingError = BadMessage | BadLength | OldWebSocket | DataAfterClose

  datatype Config = Config(parse: seq<bytes> -> ParseResult, responseWithBody: bool, readUntilEof: bool)

  datatype Payload = Empty | Stream(p: PF.Parse)

  /** A message and what its payload has received; `Carry` continues the payload of an earlier call. */
  datatype Item = Carry(payload: Payload) | Msg(lines: seq<bytes>, msg: Message, payload: Payload)

  datatype Phase = Head(lines: seq<bytes>, tail: bytes) | Body | Raw | Failed(error: FramingError)

  datatype Run = Run(phase: Phase, upgraded: bool, past: seq<Item>, cur: Item, raw: bytes,
                     closing: bool, dropping: bool)

  // ---------------------------------------------------------------------
  // The automaton.
  // ---------------------------------------------------------------------

  /** A payload parser in this mode is still attached. */
  predicate Live(mode: PF.Mode) {
    !mode.Finished? && !mode.Broken? && (mode.Length? ==> 0 < mode.left)
  }

  function After(upgraded: bool): Phase {
    if upgraded then Raw else Head([], [])
  }

  /** How a payload parser made for `m` begins; `Finished` if it is done at once. */
  function InitialMode(c: Config, m: Message): PF.Mode {
    if !c.responseWithBody then PF.Finished([])
    else if m.chunked then PF.Chunked(PF.Size, [])
    else if m.length.Digits? then PF.Length(m.length.n)
    else PF.UntilEof
  }

  /** The payload of a new message, and whether the connection is upgraded. */
  function Opened(c: Config, m: Message): (Payload, bool) {
    var hasBody := (m.length.Digits? && m.length.n > 0) || m.chunked;
    if !m.emptyBody && hasBody && !m.upgrade then (Stream(PF.Start(InitialMode(c, m))), false)
    else if m.connect then (Stream(PF.Start(PF.UntilEof)), true)
    else if !m.emptyBody && m.length.NoLength? && c.readUntilEof then
      (Stream(PF.Start(InitialMode(c, m))), m.upgrade)
    else (Empty, m.upgrade)
  }

  predicate Ok(r: Run) {
    && (r.phase.Body? ==> r.cur.payload.Stream? && Live(r.cur.payload.p.mode))
    && (r.dropping ==> r.phase == After(r.upgraded))
  }

  function OnMessage(c: Config, r: Run, lines: seq<bytes>): (r': Run)
    ensures !r.dropping ==> Ok(r')
  {
    match c.parse(lines)
    case Rejected => r.(phase := Failed(BadMessage))
    case Parsed(m) =>
      if m.length.NotDigits? then r.(phase := Failed(BadLength))
      else if m.key1 then r.(phase := Failed(OldWebSocket))
      else
        var (payload, upgraded) := Opened(c, m);
        r.(past := r.past + [r.cur], cur := Msg(lines, m, payload),
           upgraded := upgraded, closing := m.shouldClose,
           phase := if payload.Stream? && Live(payload.p.mode) then Body else After(upgraded))
  }

  function OnLine(c: Config, r: Run, lines: seq<bytes>, line: bytes): (r': Run)
    ensures !r.dropping ==> Ok(r')
  {
    if lines == [] && line == [] then r.(phase := Head([], []))
    else if r.closing then r.(phase := Failed(DataAfterClose))
    else if line != [] then r.(phase := Head(lines + [line], []))
    else OnMessage(c, r, lines + [line])
  }

  /** The payload has received more: it may end, or break and take the rest of the call with it. */
  function Fed(r: Run, p: PF.Parse): (r': Run)
    ensures !r.dropping && (p.mode.Length? ==> 0 < p.mode.left) && r.phase.Body? ==> Ok(r')
  {
    var r' := r.(cur := r.cur.(payload := Stream(p)));
    if p.mode.Finished? then r'.(phase := After(r.upgraded))
    else if p.mode.Broken? then r'.(phase := After(r.upgraded), dropping := true)
    else r'
  }

  function Step(c: Config, r: Run, b: byte): (r': Run)
    requires Ok(r)
    ensures Ok(r')
  {
    if r.dropping then r
    else
      match r.phase
      case Failed(_) => r
      case Raw => r.(raw := r.raw + [b])
      case Body => Fed(r, PF.Step(r.cur.payload.p, b))
      case Head(lines, tail) =>
        var t := tail + [b];
        if PF.EndsInCrlf(t) then OnLine(c, r, lines, t[..|t| - 2])
        else r.(phase := Head(lines, t))
  }

  function Feed(c: Config, r: Run, data: bytes): (r': Run)
    requires Ok(r)
    ensures Ok(r')
    decreases |data|
  {
    if data == [] then r else Feed(c, Step(c, r, data[0]), data[1..])
  }

  lemma {:induction false} FeedAppend(c: Config, r: Run, a: bytes, b: bytes)
    requires Ok(r)
    ensures Feed(c, r, a + b) == Feed(c, Feed(c, r, a), b)
    decreases |a|
  {
    if a == [] {
      EmptyPrefix(b);
    } else {
      assert (a + b)[0] == a[0] && (a + b)[1..] == a[1..] + b;
      FeedAppend(c, Step(c, r, a[0]), a[1..], b);
    }
  }

  lemma FeedSplit(c: Config, r: Run, data: bytes, k: nat)
    requires Ok(r) && k <= |data|
    ensures Feed(c, r, data) == Feed(c, Feed(c, r, data[..k]), data[k..])
  {
    assert data == data[..k] + data[k..];
    FeedAppend(c, r, data[..k], data[k..]);
  }

  // ---------------------------------------------------------------------
  // Stretches of data.
  // ---------------------------------------------------------------------

  lemma {:induction false} FailedStays(c: Config, r: Run, b: bytes)
    requires Ok(r) && (r.phase.Failed? || r.dropping)
    ensures Feed(c, r, b) == r
    decreases |b|
  {
    if b != [] {
      FailedStays(c, r, b[1..]);
    }
  }

  lemma {:induction false} FeedRaw(c: Config, r: Run, data: bytes)
    requires Ok(r) && r.phase.Raw? && !r.dropping
    ensures Feed(c, r, data) == r.(raw := r.raw + data)
    decreases |data|
  {
    if data == [] {
      EmptySuffix(r.raw);
    } else {
      FeedRaw(c, Step(c, r, data[0]), data[1..]);
      Assoc(r.raw, [data[0]], data[1..]);
      assert [data[0]] + data[1..] == data;
    }
  }

  lemma LiveStep(p: PF.Parse, b: byte)
    requires Live(p.mode)
    ensures var q := PF.Step(p, b);
            q.mode.Finished? ==> q.mode == PF.Finished([])
    ensures var q := PF.Step(p, b);
            q.mode.Length? ==> 0 < q.mode.left
  {
  }

  /** A payload takes what its parser takes, and leaves the rest to the next message. */
  lemma {:induction false} FeedBody(c: Config, r: Run, data: bytes)
    requires Ok(r) && r.phase.Body? && !r.dropping
    ensures var p := PF.Feed(r.cur.payload.p, data);
            if p.mode.Finished? then
              && |p.mode.leftover| < |data| && Ok(Fed(r, p))
              && Feed(c, r, data) == Feed(c, Fed(r, p.(mode := PF.Finished([]))), p.mode.leftover)
            else Feed(c, r, data) == Fed(r, p)
    decreases |data|
  {
    if data != [] {
      var p := PF.Step(r.cur.payload.p, data[0]);
      LiveStep(r.cur.payload.p, data[0]);
      if p.mode.Finished? {
        PF.FeedFinished(p, data[1..]);
        EmptyPrefix(data[1..]);
      } else if p.mode.Broken? {
        PF.FeedIgnored(p, data[1..]);
        FailedStays(c, Fed(r, p), data[1..]);
      } else {
        FeedBody(c, Fed(r, p), data[1..]);
      }
    }
  }

  lemma {:induction false} FeedNoLine(c: Config, r: Run, s: bytes)
    requires Ok(r) && r.phase.Head? && !r.dropping && PF.NoCrlf(r.phase.tail + s)
    ensures Feed(c, r, s) == r.(phase := Head(r.phase.lines, r.phase.tail + s))
    decreases |s|
  {
    var tail := r.phase.tail;
    if s == [] {
      EmptySuffix(tail);
    } else {
      var t := tail + [s[0]];
      assert tail + s == t + s[1..];
      assert (t + s[1..])[..|t|] == t;
      PF.NoCrlfPrefix(tail + s, |t|);
      FeedNoLine(c, r.(phase := Head(r.phase.lines, t)), s[1..]);
    }
  }

  /** Up to and including the first CRLF. */
  lemma FeedLine(c: Config, r: Run, s: bytes, pos: nat)
    requires Ok(r) && r.phase.Head? && r.phase.tail == [] && !r.dropping
    requires OccursAt(s, CRLF, pos) && forall i :: 0 <= i < pos ==> !OccursAt(s, CRLF, i)
    ensures Feed(c, r, s[..pos + 2]) == OnLine(c, r, r.phase.lines, s[..pos])
  {
    PF.BeforeFirstCrlf(s, pos);
    var a := s[..pos + 1];
    EmptyPrefix(a);
    FeedNoLine(c, r, a);
    FeedAppend(c, r, a, [LF]);
    var r1 := r.(phase := Head(r.phase.lines, a));
    assert [LF][1..] == [];
    assert Feed(c, r1, [LF]) == Step(c, r1, LF);
    assert (a + [LF])[..|a + [LF]| - 2] == s[..pos];
    OnLineIgnoresTail(c, r, a, s[..pos]);
  }

  lemma OnLineIgnoresTail(c: Config, r: Run, tail: bytes, line: bytes)
    requires r.phase.Head?
    ensures OnLine(c, r.(phase := Head(r.phase.lines, tail)), r.phase.lines, line)
         == OnLine(c, r, r.phase.lines, line)
  {
  }

  // ---------------------------------------------------------------------
  // Calls.
  // ---------------------------------------------------------------------

  /** What the outputs of a run leave aside: where it stands, with nothing received yet. */
  function Cut(r: Run): (s: Run)
    requires Ok(r)
    ensures Ok(s)
  {
    r.(past := [], raw := [],
       cur := Carry(if r.phase.Body? then Stream(PF.Start(r.cur.payload.p.mode)) else Empty))
  }

  /** The start of the next call of `feed_data`. */
  function NextCall(r: Run): (s: Run)
    requires Ok(r)
    ensures Ok(s)
  {
    Cut(r).(closing := false, dropping := false)
  }

  const Idle: Run := Run(Head([], []), false, [], Carry(Empty), [], false, false)

  function Merge(i: Item, j: Item): Item {
    if i.payload.Stream? && j.payload.Stream? then i.(payload := Stream(PF.Then(i.payload.p, j.payload.p)))
    else i
  }

  /** The outputs of two runs, the second from where the first one stopped, as those of one run. */
  function Then(r: Run, s: Run): Run {
    if s.past == [] then s.(past := r.past, cur := Merge(r.cur, s.cur), raw := r.raw + s.raw)
    else s.(past := r.past + [Merge(r.cur, s.past[0])] + s.past[1..], raw := r.raw + s.raw)
  }

  /** The first item of a run from a cut is what was carried over. */
  predicate FromCut(s: Run) {
    if s.past == [] then s.cur.Carry? else s.past[0].Carry?
  }

  lemma ThenCut(r: Run)
    requires Ok(r)
    ensures Then(r, Cut(r)) == r
  {
    EmptySuffix(r.raw);
    if r.phase.Body? {
      PF.ThenStart(r.cur.payload.p);
    }
  }

  lemma MergeAssoc(i: Item, j: Item, k: Item)
    requires k.payload.Stream? ==> j.payload.Stream?
    ensures Merge(Merge(i, j), k) == Merge(i, Merge(j, k)) || (i.payload.Empty? && Merge(Merge(i, j), k) == i)
  {
    if i.payload.Stream? && j.payload.Stream? && k.payload.Stream? {
      PF.ThenAssoc(i.payload.p, j.payload.p, k.payload.p);
    }
  }

  lemma ThenAssoc(r: Run, s: Run, t: Run)
    requires var carried := if t.past == [] then t.cur else t.past[0];
             carried.payload.Stream? ==> s.cur.payload.Stream?
    ensures Then(Then(r, s), t) == Then(r, Then(s, t))
  {
    Assoc(r.raw, s.raw, t.raw);
    var k := if t.past == [] then t.cur else t.past[0];
    if s.past == [] {
      MergeAssoc(r.cur, s.cur, k);
    } else if t.past != [] {
      PastsAssoc(r.past, Merge(r.cur, s.past[0]), s.past, Merge(s.cur, k), t.past[1..]);
    }
  }

  lemma PastsAssoc(a: seq<Item>, m: Item, b: seq<Item>, n: Item, d: seq<Item>)
    requires b != []
    ensures (b + [n] + d)[0] == b[0] && (a + [m] + b[1..]) + [n] + d == a + [m] + (b + [n] + d)[1..]
  {
    assert (b + [n] + d)[1..] == b[1..] + [n] + d;
  }

  /** A run that has only changed its phase since it was cut. */
  lemma PhaseFrom(r: Run, phase: Phase)
    requires Ok(r) && !r.phase.Body? && !phase.Body?
    ensures r.(phase := phase) == Then(r, Cut(r).(phase := phase)) && FromCut(Cut(r).(phase := phase))
  {
    EmptySuffix(r.raw);
  }

  lemma OnMessageFrom(c: Config, r: Run, lines: seq<bytes>)
    requires Ok(r) && !r.phase.Body?
    ensures OnMessage(c, r, lines) == Then(r, OnMessage(c, Cut(r), lines)) && FromCut(OnMessage(c, Cut(r), lines))
  {
    EmptySuffix(r.raw);
    match c.parse(lines) {
      case Rejected => PhaseFrom(r, Failed(BadMessage));
      case Parsed(m) =>
        PhaseFrom(r, Failed(BadLength));
        PhaseFrom(r, Failed(OldWebSocket));
    }
  }

  lemma OnLineFrom(c: Config, r: Run, lines: seq<bytes>, line: bytes)
    requires Ok(r) && !r.phase.Body?
    ensures OnLine(c, r, lines, line) == Then(r, OnLine(c, Cut(r), lines, line))
    ensures FromCut(OnLine(c, Cut(r), lines, line))
  {
    if lines == [] && line == [] {
      PhaseFrom(r, Head([], []));
    } else if r.closing {
      PhaseFrom(r, Failed(DataAfterClose));
    } else if line != [] {
      PhaseFrom(r, Head(lines + [line], []));
    } else {
      OnMessageFrom(c, r, lines + [line]);
    }
  }

  lemma FedFrom(r: Run, b: byte)
    requires Ok(r) && r.phase.Body?
    ensures Fed(r, PF.Step(r.cur.payload.p, b)) == Then(r, Fed(Cut(r), PF.Step(Cut(r).cur.payload.p, b)))
  {
    EmptySuffix(r.raw);
    PF.StepFrom(r.cur.payload.p, b);
  }

  lemma StepFrom(c: Config, r: Run, b: byte)
    requires Ok(r)
    ensures Step(c, r, b) == Then(r, Step(c, Cut(r), b))
    ensures FromCut(Step(c, Cut(r), b))
  {
    ThenCut(r);
    if !r.dropping {
      match r.phase {
        case Failed(_) =>
        case Raw => EmptyPrefix([b]);
        case Body => FedFrom(r, b);
        case Head(lines, tail) =>
          EmptySuffix(r.raw);
          var t := tail + [b];
          if PF.EndsInCrlf(t) {
            OnLineFrom(c, r, lines, t[..|t| - 2]);
          }
      }
    }
  }

  lemma CutOfThen(r: Run, s: Run)
    requires Ok(s) && (s.phase.Body? && s.past == [] ==> r.cur.payload.Stream?)
    ensures Ok(Then(r, s)) && Cut(Then(r, s)) == Cut(s)
  {
  }

  lemma {:induction false} FeedFromCut(c: Config, s: Run, data: bytes)
    requires Ok(s) && FromCut(s)
    ensures FromCut(Feed(c, s, data))
    ensures var first := if s.past == [] then s.cur else s.past[0];
            var first' := if Feed(c, s, data).past == [] then Feed(c, s, data).cur else Feed(c, s, data).past[0];
            first'.payload.Stream? <==> first.payload.Stream?
    decreases |data|
  {
    if data != [] {
      FeedFromCut(c, Step(c, s, data[0]), data[1..]);
    }
  }

  /** A run from anywhere is the run from the cut, added to what was there. */
  lemma {:induction false} FeedFrom(c: Config, r: Run, data: bytes)
    requires Ok(r)
    ensures Feed(c, r, data) == Then(r, Feed(c, Cut(r), data))
    decreases |data|
  {
    ThenCut(r);
    if data != [] {
      var q := Step(c, Cut(r), data[0]);
      StepFrom(c, r, data[0]);
      CutOfThen(r, q);
      FeedFrom(c, Then(r, q), data[1..]);
      FeedFrom(c, q, data[1..]);
      FeedFromCut(c, Cut(q), data[1..]);
      ThenAssoc(r, q, Feed(c, Cut(q), data[1..]));
    }
  }
}
