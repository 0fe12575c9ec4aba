/**
  Whole streams of messages: how far the result depends on the cuts between the
  calls of `feed_data`, and what comes out of a pipeline of well-formed messages.
 */
module MessageStreams {
  import opened Bytes
  import opened MessageFraming
  import PF = PayloadFraming
  import CR = ChunkedRoundTrip

  // ---------------------------------------------------------------------
  // What a caller has of its calls.
  // ---------------------------------------------------------------------

  function First(r: Run): Item {
    if r.past == [] then r.cur else r.past[0]
  }

  /**
    What its caller has of a call: all that it handed over; or, if it raised, the
    error and what the payload of an earlier call received, but no message.
   */
  function Kept(r: Run): (s: Run)
    ensures Ok(r) ==> Ok(s)
  {
    if r.phase.Failed? then Run(r.phase, false, [], First(r), [], false, false)
    else r.(closing := false, dropping := false)
  }

  /** A call, with what its caller has of it added to the earlier ones. */
  function OneCall(c: Config, r: Run, piece: bytes): (s: Run)
    requires Ok(r)
    ensures Ok(s)
  {
    FeedFromCut(c, NextCall(r), piece);
    CutOfThen(r, Kept(Feed(c, NextCall(r), piece)));
    Then(r, Kept(Feed(c, NextCall(r), piece)))
  }

  function Calls(c: Config, r: Run, pieces: seq<bytes>): Run
    requires Ok(r)
    decreases |pieces|
  {
    if pieces == [] then r else Calls(c, OneCall(c, r, pieces[0]), pieces[1..])
  }

  // ---------------------------------------------------------------------
  // Exactly when a cut matters.
  // ---------------------------------------------------------------------

  /** What is left when the flags of the call are forgotten. */
  function Forget(r: Run): (s: Run)
    ensures Ok(r) ==> Ok(s)
  {
    r.(closing := false, dropping := false)
  }

  lemma SecondCall(c: Config, s: Run, b: bytes)
    requires Ok(s)
    ensures Then(s, Feed(c, NextCall(s), b)) == Feed(c, Forget(s), b)
  {
    var t := Forget(s);
    FeedFrom(c, t, b);
    assert Cut(t) == NextCall(s);
    assert Then(t, Feed(c, Cut(t), b)) == Then(s, Feed(c, Cut(t), b));
  }

  /** A closing message changes nothing until a line follows it in the same call. */
  lemma {:induction false} ClosingMatters(c: Config, r: Run, b: bytes)
    requires Ok(r) && r.closing && !r.dropping
    ensures var s := Feed(c, r, b);
            || s.phase == Failed(DataAfterClose)
            || (s.closing && Feed(c, r.(closing := false), b) == s.(closing := false))
    decreases |b|
  {
    if b != [] {
      var s := Step(c, r, b[0]);
      if s.phase.Failed? || s.dropping {
        FailedStays(c, s, b[1..]);
        FailedStays(c, s.(closing := false), b[1..]);
      } else {
        ClosingMatters(c, s, b[1..]);
      }
    }
  }

  /** A call that asks to close has completed a message, and data behind an upgrade are never parsed. */
  predicate InCall(r: Run) {
    && (r.closing ==> r.past != [])
    && (r.raw != [] ==> r.phase.Raw?)
  }

  lemma {:induction false} InCallThroughout(c: Config, r: Run, b: bytes)
    requires Ok(r) && InCall(r)
    ensures InCall(Feed(c, r, b))
    decreases |b|
  {
    if b != [] {
      InCallThroughout(c, Step(c, r, b[0]), b[1..]);
    }
  }

  /** Nothing but empty lines, which are skipped between messages. */
  predicate BlankLines(b: bytes) {
    b == [] || (CRLF <= b && BlankLines(b[2..]))
  }

  /** A message, an error, or a line that has begun and is not empty. */
  predicate HasBegun(r: Run) {
    r.phase.Failed? || r.past != []
    || (r.phase.Head? && !r.dropping && (r.phase.lines != [] || |r.phase.tail| >= 2))
  }

  lemma BegunByLine(c: Config, r: Run, lines: seq<bytes>, line: bytes)
    requires !r.dropping && (lines != [] || line != [])
    ensures HasBegun(OnLine(c, r, lines, line))
  {
    if !r.closing && line == [] {
      var s := OnMessage(c, r, lines + [line]);
      assert s.phase.Failed? || s.past == r.past + [r.cur];
    }
  }

  lemma BegunStep(c: Config, r: Run, b: byte)
    requires Ok(r) && HasBegun(r)
    ensures HasBegun(Step(c, r, b))
  {
    if r.phase.Head? && !r.dropping {
      var lines, t := r.phase.lines, r.phase.tail + [b];
      if PF.EndsInCrlf(t) {
        if lines != [] || |t| > 2 {
          BegunByLine(c, r, lines, t[..|t| - 2]);
        } else {
          assert OnLine(c, r, [], []).past == r.past;
          assert t[..|t| - 2] == [];
        }
      }
    } else if r.phase.Body? && !r.dropping {
      assert Step(c, r, b).past == r.past;
    }
  }

  lemma {:induction false} BegunStays(c: Config, r: Run, b: bytes)
    requires Ok(r) && HasBegun(r)
    ensures HasBegun(Feed(c, r, b))
    decreases |b|
  {
    if b != [] {
      BegunStep(c, r, b[0]);
      BegunStays(c, Step(c, r, b[0]), b[1..]);
    }
  }

  lemma FeedOne(c: Config, r: Run, b: byte)
    requires Ok(r)
    ensures Feed(c, r, [b]) == Step(c, r, b)
  {
    assert [b][1..] == [];
  }

  lemma FeedTwo(c: Config, r: Run, x: byte, y: byte)
    requires Ok(r)
    ensures Feed(c, r, [x, y]) == Step(c, Step(c, r, x), y)
  {
    assert [x] + [y] == [x, y];
    FeedAppend(c, r, [x], [y]);
    FeedOne(c, r, x);
    FeedOne(c, Step(c, r, x), y);
  }

  /** Two bytes between two messages: an empty line, or the beginning of something. */
  lemma TwoBytes(c: Config, r: Run, x: byte, y: byte)
    requires Ok(r) && r.phase == Head([], []) && !r.dropping
    ensures if [x, y] == CRLF then Feed(c, r, [x, y]) == r else HasBegun(Feed(c, r, [x, y]))
  {
    FeedTwo(c, r, x, y);
    EmptyPrefix([x]);
    var r1 := r.(phase := Head([], [x]));
    assert Step(c, r, x) == r1;
    assert [x] + [y] == [x, y] && [x, y][0..] == [x, y];
    if [x, y] == CRLF {
      assert [x, y][..0] == [];
      assert Step(c, r1, y) == OnLine(c, r1, [], []);
    } else {
      assert Step(c, r1, y) == r1.(phase := Head([], [x, y]));
    }
  }

  lemma {:induction false} OnlyBlankLines(c: Config, r: Run, b: bytes)
    requires Ok(r) && r.phase == Head([], []) && !r.dropping && r.past == []
    ensures if BlankLines(b) then Feed(c, r, b) == r
            else HasBegun(Feed(c, r, b)) || Feed(c, r, b).phase != Head([], [])
    decreases |b|
  {
    if |b| == 1 {
      FeedOne(c, r, b[0]);
      EmptyPrefix(b);
    } else if b != [] {
      assert b == [b[0], b[1]] + b[2..] && b[..2] == [b[0], b[1]];
      FeedAppend(c, r, [b[0], b[1]], b[2..]);
      TwoBytes(c, r, b[0], b[1]);
      if CRLF <= b {
        OnlyBlankLines(c, r, b[2..]);
      } else {
        BegunStays(c, Feed(c, r, [b[0], b[1]]), b[2..]);
      }
    }
  }

  /** What of a run shows through whatever it is added to. */
  lemma ThenShows(r: Run, s: Run)
    ensures Then(r, s).phase == s.phase
    ensures |Then(r, s).past| == |r.past| + |s.past| && |Then(r, s).raw| == |r.raw| + |s.raw|
  {
  }

  /** The two calls seen from the first one. */
  lemma FromFirstCall(c: Config, r: Run, a: bytes, b: bytes)
    requires Ok(r)
    ensures var s := Feed(c, NextCall(r), a);
            && OneCall(c, r, a + b) == Then(r, Kept(Feed(c, s, b)))
            && OneCall(c, OneCall(c, r, a), b) == Then(r, OneCall(c, Kept(s), b))
  {
    var s := Feed(c, NextCall(r), a);
    FeedAppend(c, NextCall(r), a, b);
    FeedFromCut(c, NextCall(r), a);
    CutOfThen(r, Kept(s));
    assert NextCall(Then(r, Kept(s))) == NextCall(Kept(s));
    var t := Kept(Feed(c, NextCall(Kept(s)), b));
    FeedFromCut(c, NextCall(Kept(s)), b);
    ThenAssoc(r, Kept(s), t);
  }

  lemma AfterError(c: Config, s: Run, b: bytes)
    requires Ok(s) && s.phase.Failed?
    ensures OneCall(c, Kept(s), b) == Kept(Feed(c, s, b))
  {
    FailedStays(c, s, b);
    FailedStays(c, NextCall(Kept(s)), b);
    ThenCut(Kept(s));
  }

  /** After a broken payload the rest of the call is lost, which only blank lines do not show. */
  lemma AfterBroken(c: Config, s: Run, b: bytes)
    requires Ok(s) && s.dropping
    ensures var one, two := Kept(Feed(c, s, b)), OneCall(c, Kept(s), b);
            if (if s.upgraded then b == [] else BlankLines(b)) then one == two
            else one.phase != two.phase || |one.past| != |two.past| || |one.raw| != |two.raw|
  {
    FailedStays(c, s, b);
    var n := NextCall(Kept(s));
    ThenCut(Kept(s));
    ThenShows(Kept(s), Kept(Feed(c, n, b)));
    if s.upgraded {
      EmptyPrefix(b);
      FeedRaw(c, n, b);
    } else {
      OnlyBlankLines(c, n, b);
    }
  }

  /** What a call that raises keeps of two stretches. */
  lemma KeptOfThen(s: Run, t: Run)
    requires t.phase.Failed? && s.past == [] && s.raw == [] && !s.phase.Failed?
    ensures Kept(Then(s, t)) == Then(Kept(s), Kept(t))
  {
    EmptySuffix(s.raw);
  }

  lemma AfterGoodCall(c: Config, s: Run, b: bytes)
    requires Ok(s) && InCall(s) && !s.dropping && !s.phase.Failed? && !Feed(c, s, b).phase.Failed?
    ensures Kept(Feed(c, s, b)) == OneCall(c, Kept(s), b)
  {
    var t := Feed(c, NextCall(s), b);
    assert NextCall(Kept(s)) == NextCall(s);
    SecondCall(c, s, b);
    if s.closing {
      ClosingMatters(c, s, b);
    }
    assert Feed(c, Forget(s), b) == Feed(c, s, b).(closing := Feed(c, Forget(s), b).closing);
  }

  lemma AfterRaise(c: Config, s: Run, b: bytes)
    requires Ok(s) && InCall(s) && !s.dropping && !s.phase.Failed? && Feed(c, s, b).phase.Failed?
    ensures var one, two := Kept(Feed(c, s, b)), OneCall(c, Kept(s), b);
            if s.past == [] then one == two else |one.past| < |two.past|
  {
    var t := Feed(c, NextCall(s), b);
    assert NextCall(Kept(s)) == NextCall(s);
    ThenShows(Kept(s), Kept(t));
    if s.past == [] {
      if s.phase.Raw? {
        FeedRaw(c, s, b);
      }
      SecondCall(c, s, b);
      KeptOfThen(s, t);
    }
  }

  /**
    A cut between `a` and `b` can be told from none in exactly two cases. The call
    with all the data raises, and so loses the messages that the first of two calls
    had handed over. Or the first call ended in a broken payload, with which one call
    loses the rest of the data, and the rest is more than empty lines.
   */
  lemma CutMattersIff(c: Config, r: Run, a: bytes, b: bytes)
    requires Ok(r)
    ensures var s := Feed(c, NextCall(r), a);
            OneCall(c, r, a + b) != OneCall(c, OneCall(c, r, a), b)
            <==> if s.dropping then (if s.upgraded then b != [] else !BlankLines(b))
                 else s.past != [] && !s.phase.Failed? && Feed(c, NextCall(r), a + b).phase.Failed?
  {
    var s := Feed(c, NextCall(r), a);
    FeedAppend(c, NextCall(r), a, b);
    InCallThroughout(c, NextCall(r), a);
    FromFirstCall(c, r, a, b);
    var one, two := Kept(Feed(c, s, b)), OneCall(c, Kept(s), b);
    ThenShows(r, one);
    ThenShows(r, two);
    if s.phase.Failed? {
      AfterError(c, s, b);
    } else if s.dropping {
      AfterBroken(c, s, b);
    } else if Feed(c, s, b).phase.Failed? {
      AfterRaise(c, s, b);
    } else {
      AfterGoodCall(c, s, b);
    }
  }

  /** Two calls are one if the data raise no error and the first call breaks no payload. */
  lemma TwoCallsAreOne(c: Config, r: Run, a: bytes, b: bytes)
    requires Ok(r) && !Feed(c, NextCall(r), a).dropping && !Feed(c, NextCall(r), a + b).phase.Failed?
    ensures OneCall(c, OneCall(c, r, a), b) == OneCall(c, r, a + b)
    ensures var t := Feed(c, NextCall(OneCall(c, r, a)), b);
            !t.phase.Failed? && t.dropping == Feed(c, NextCall(r), a + b).dropping
  {
    var s := Feed(c, NextCall(r), a);
    CutMattersIff(c, r, a, b);
    FeedAppend(c, NextCall(r), a, b);
    FeedFromCut(c, NextCall(r), a);
    CutOfThen(r, Kept(s));
    if s.phase.Failed? {
      FailedStays(c, s, b);
    }
    assert NextCall(OneCall(c, r, a)) == NextCall(s);
    SecondCall(c, s, b);
    if s.closing {
      ClosingMatters(c, s, b);
    }
  }

  /** Data that one call takes without an error and without breaking a payload come out the same however they are cut. */
  lemma {:induction false} SegmentsDoNotMatter(c: Config, r: Run, pieces: seq<bytes>)
    requires Ok(r) && pieces != []
    requires var s := Feed(c, NextCall(r), Join(pieces)); !s.phase.Failed? && !s.dropping
    ensures Calls(c, r, pieces) == OneCall(c, r, Join(pieces))
    decreases |pieces|
  {
    var a, rest := pieces[0], pieces[1..];
    if rest == [] {
      EmptySuffix(a);
      assert Calls(c, OneCall(c, r, a), rest) == OneCall(c, r, a);
    } else {
      var s := Feed(c, NextCall(r), a);
      if s.dropping {
        FeedAppend(c, NextCall(r), a, Join(rest));
        FailedStays(c, s, Join(rest));
      }
      TwoCallsAreOne(c, r, a, Join(rest));
      SegmentsDoNotMatter(c, OneCall(c, r, a), rest);
    }
  }

  // ---------------------------------------------------------------------
  // A pipeline of messages.
  // ---------------------------------------------------------------------

  datatype SentBody = NoBody | Exactly(data: bytes) | InChunks(chunks: seq<bytes>, last: bytes)

  datatype Sent = Sent(lines: seq<bytes>, msg: Message, body: SentBody)

  function LinesWire(lines: seq<bytes>): bytes {
    if lines == [] then [] else (lines[0] + CRLF) + LinesWire(lines[1..])
  }

  function BodyWire(body: SentBody): bytes {
    match body
    case NoBody => []
    case Exactly(data) => data
    case InChunks(chunks, last) => CR.Encoding(chunks, last)
  }

  function Wire(s: Sent): bytes {
    LinesWire(s.lines + [[]]) + BodyWire(s.body)
  }

  function WireAll(all: seq<Sent>): bytes {
    if all == [] then [] else Wire(all[0]) + WireAll(all[1..])
  }

  /** How the parser is to take the body. */
  function Announced(body: SentBody): Payload {
    match body
    case NoBody => Empty
    case Exactly(data) => Stream(PF.Start(PF.Length(|data|)))
    case InChunks(_, _) => Stream(PF.Start(PF.Chunked(PF.Size, [])))
  }

  ghost predicate Lines(lines: seq<bytes>) {
    lines != [] && forall i :: 0 <= i < |lines| ==> lines[i] != [] && PF.NoCrlf(lines[i])
  }

  // What a head calls for, by its header values.

  /** The head announces a payload of its own kind: there is one, and the connection is not upgraded. */
  predicate Announces(m: Message) {
    !m.emptyBody && !m.upgrade && (m.chunked || (m.length.Digits? && m.length.n > 0))
  }

  /** Neither: the payload lasts as long as the connection, if it is read at all. */
  predicate LastsToTheEnd(c: Config, m: Message) {
    !m.connect && !m.emptyBody && m.length.NoLength? && c.readUntilEof && !Announces(m)
  }

  predicate ReadsChunks(c: Config, m: Message) {
    c.responseWithBody && m.chunked && (Announces(m) || LastsToTheEnd(c, m))
  }

  predicate ReadsLength(c: Config, m: Message, n: nat) {
    c.responseWithBody && Announces(m) && !m.chunked && m.length == Digits(n)
  }

  predicate ReadsUntilEof(c: Config, m: Message) {
    (m.connect && !Announces(m)) || (c.responseWithBody && !m.chunked && LastsToTheEnd(c, m))
  }

  /** A body that is announced but never sent: a stream that is complete at once. */
  predicate IsComplete(c: Config, m: Message) {
    !c.responseWithBody && (Announces(m) || LastsToTheEnd(c, m))
  }

  /** The message that the head has started: its payload by the header values, and where the run goes on. */
  ghost predicate Started(c: Config, r: Run, r': Run, lines: seq<bytes>, m: Message) {
    && r'.past == r.past + [r.cur] && r'.raw == r.raw && r'.closing == m.shouldClose && r'.dropping == r.dropping
    && r'.cur.Msg? && r'.cur.lines == lines && r'.cur.msg == m
    && (r'.cur.payload == Stream(PF.Start(PF.Chunked(PF.Size, []))) <==> ReadsChunks(c, m))
    && (forall n: nat :: r'.cur.payload == Stream(PF.Start(PF.Length(n))) <==> ReadsLength(c, m, n))
    && (r'.cur.payload == Stream(PF.Start(PF.UntilEof)) <==> ReadsUntilEof(c, m))
    && (r'.cur.payload == Stream(PF.Start(PF.Finished([]))) <==> IsComplete(c, m))
    && (r'.cur.payload == Empty <==> !m.connect && !Announces(m) && !LastsToTheEnd(c, m))
    && (r'.upgraded <==> m.upgrade || (m.connect && !Announces(m)))
    && r'.phase == if ReadsChunks(c, m) || ReadsUntilEof(c, m) || (Announces(m) && c.responseWithBody) then Body
                   else if r'.upgraded then Raw else Head([], [])
  }

  /**
    The end of a head: the error it is refused with, or the message, whose payload is
    chunked, of exactly so many bytes, until the end of the connection, complete, or
    none, exactly as its headers say.
   */
  lemma HeadIsRead(c: Config, r: Run, lines: seq<bytes>)
    requires Ok(r) && Between(r) && Lines(lines)
    ensures var r', all := Feed(c, r, LinesWire(lines + [[]])), lines + [[]];
            match c.parse(all)
            case Rejected => r' == r.(phase := Failed(BadMessage))
            case Parsed(m) =>
              if m.length.NotDigits? then r' == r.(phase := Failed(BadLength))
              else if m.key1 then r' == r.(phase := Failed(OldWebSocket))
              else Started(c, r, r', all, m)
  {
    FeedLines(c, r, lines);
    assert [] + lines + [[]] == lines + [[]];
    match c.parse(lines + [[]]) {
      case Rejected =>
      case Parsed(m) =>
        if !m.length.NotDigits? && !m.key1 {
          OpenedByHeaders(c, r, lines + [[]], m);
        }
    }
  }

  lemma OpenedByHeaders(c: Config, r: Run, lines: seq<bytes>, m: Message)
    requires c.parse(lines) == Parsed(m) && !m.length.NotDigits? && !m.key1
    ensures Started(c, r, OnMessage(c, r, lines), lines, m)
  {
  }

  /**
    Data that belong to a payload: all of them, if it goes on; up to its end, with the
    rest taken for what comes next; or all of the call's data are gone, if it breaks.
   */
  lemma BodyIsRead(c: Config, r: Run, data: bytes)
    requires Ok(r) && r.phase.Body? && !r.dropping
    ensures var p := PF.Feed(r.cur.payload.p, data);
            var next := if r.upgraded then Raw else Head([], []);
            match p.mode
            case Broken(_) =>
              Feed(c, r, data) == r.(cur := r.cur.(payload := Stream(p)), phase := next, dropping := true)
            case Finished(rest) =>
              var r' := r.(cur := r.cur.(payload := Stream(p.(mode := PF.Finished([])))), phase := next);
              |rest| < |data| && Ok(r') && Feed(c, r, data) == Feed(c, r', rest)
            case _ => Feed(c, r, data) == r.(cur := r.cur.(payload := Stream(p)))
  {
    FeedBody(c, r, data);
  }

  /** Behind a closing message, within the call, blank lines are skipped and any other line is refused. */
  lemma LineBehindClosing(c: Config, r: Run, line: bytes)
    requires Ok(r) && r.phase == Head([], []) && r.closing && !r.dropping && PF.NoCrlf(line)
    ensures Feed(c, r, line + CRLF) == if line == [] then r else r.(phase := Failed(DataAfterClose))
  {
    OneHeaderLine(c, r, line);
  }

  /** The headers announce the body that follows. */
  predicate Describes(c: Config, m: Message, body: SentBody) {
    match body
    case NoBody => !m.upgrade && !m.connect && !Announces(m) && !LastsToTheEnd(c, m)
    case Exactly(data) => data != [] && ReadsLength(c, m, |data|)
    case InChunks(_, _) => c.responseWithBody && m.chunked && Announces(m)
  }

  /** A message whose header lines announce the body that follows, on a connection that stays open. */
  ghost predicate WellFormed(c: Config, s: Sent) {
    && Lines(s.lines) && c.parse(s.lines + [[]]) == Parsed(s.msg)
    && !s.msg.length.NotDigits? && !s.msg.key1 && !s.msg.shouldClose
    && Describes(c, s.msg, s.body)
  }

  /** On a server, which never reads to the end of the connection, a request is described by two headers. */
  lemma ServerRequests(c: Config, m: Message, body: SentBody)
    requires c.responseWithBody && !c.readUntilEof && !m.emptyBody && !m.upgrade && !m.connect
    ensures Describes(c, m, body) <==>
              match body
              case NoBody => !m.chunked && !(m.length.Digits? && m.length.n > 0)
              case Exactly(data) => data != [] && !m.chunked && m.length == Digits(|data|)
              case InChunks(_, _) => m.chunked
  {
  }

  lemma AnnouncedIsOpened(c: Config, s: Sent)
    requires WellFormed(c, s)
    ensures Opened(c, s.msg) == (Announced(s.body), false)
  {
  }

  function Arrived(s: Sent): Item {
    Msg(s.lines + [[]], s.msg,
        match s.body
        case NoBody => Empty
        case Exactly(data) => Stream(PF.Parse(PF.Finished([]), data, false, []))
        case InChunks(chunks, last) => Stream(CR.AllChunks(chunks + [last]).(mode := PF.Finished([]))))
  }

  function Push(r: Run, i: Item): Run {
    r.(past := r.past + [r.cur], cur := i)
  }

  function PushAll(r: Run, all: seq<Sent>): Run
    decreases |all|
  {
    if all == [] then r else PushAll(Push(r, Arrived(all[0])), all[1..])
  }

  /** Between two messages. */
  predicate Between(r: Run) {
    r.phase == Head([], []) && !r.upgraded && !r.closing && !r.dropping
  }

  lemma LineEnds(line: bytes, rest: bytes)
    requires PF.NoCrlf(line)
    ensures OccursAt(line + CRLF + rest, CRLF, |line|)
    ensures forall i :: 0 <= i < |line| ==> !OccursAt(line + CRLF + rest, CRLF, i)
  {
    var s := line + CRLF + rest;
    assert s[|line|..|line| + 2] == CRLF;
    forall i | 0 <= i < |line|
      ensures !OccursAt(s, CRLF, i)
    {
      if i + 2 <= |line| {
        assert s[i..i + 2] == line[i..i + 2];
        assert !OccursAt(line, CRLF, i);
      } else {
        assert s[i..i + 2][1] == 13;
      }
    }
  }

  lemma OneHeaderLine(c: Config, r: Run, line: bytes)
    requires Ok(r) && r.phase.Head? && r.phase.tail == [] && !r.dropping && PF.NoCrlf(line)
    ensures Feed(c, r, line + CRLF) == OnLine(c, r, r.phase.lines, line)
  {
    LineEnds(line, []);
    EmptySuffix(line + CRLF);
    FeedLine(c, r, line + CRLF, |line|);
    assert (line + CRLF)[..|line| + 2] == line + CRLF && (line + CRLF)[..|line|] == line;
  }

  /** Header lines collect; the empty one ends them. */
  lemma {:induction false} FeedLines(c: Config, r: Run, lines: seq<bytes>)
    requires Ok(r) && r.phase.Head? && r.phase.tail == [] && !r.dropping && !r.closing
    requires lines != [] || r.phase.lines != []
    requires forall i :: 0 <= i < |lines| ==> lines[i] != [] && PF.NoCrlf(lines[i])
    ensures Feed(c, r, LinesWire(lines + [[]])) == OnMessage(c, r, r.phase.lines + lines + [[]])
    decreases |lines|
  {
    var known := r.phase.lines;
    if lines == [] {
      NoneCollected(known, lines);
      LastHeaderLine(c, r);
    } else {
      var r1 := r.(phase := Head(known + [lines[0]], []));
      FirstHeaderLine(c, r, lines);
      FeedLines(c, r1, lines[1..]);
      OneCollected(known, lines);
      OnMessageIgnoresPhase(c, r, r1.phase, known + lines + [[]]);
    }
  }

  lemma NoneCollected(known: seq<bytes>, lines: seq<bytes>)
    requires lines == []
    ensures lines + [[]] == [[]] && known + lines + [[]] == known + [[]]
  {
    assert known + lines == known;
  }

  lemma OneCollected(known: seq<bytes>, lines: seq<bytes>)
    requires lines != []
    ensures known + [lines[0]] + lines[1..] + [[]] == known + lines + [[]]
  {
    assert known + [lines[0]] + lines[1..] == known + lines;
  }

  lemma LastHeaderLine(c: Config, r: Run)
    requires Ok(r) && r.phase.Head? && r.phase.tail == [] && !r.dropping && !r.closing && r.phase.lines != []
    ensures Feed(c, r, LinesWire([[]])) == OnMessage(c, r, r.phase.lines + [[]])
  {
    assert PF.NoCrlf([]);
    OneHeaderLine(c, r, []);
    var one: seq<bytes> := [[]];
    assert one[1..] == [];
    EmptySuffix([] + CRLF);
  }

  lemma FirstHeaderLine(c: Config, r: Run, lines: seq<bytes>)
    requires Ok(r) && r.phase.Head? && r.phase.tail == [] && !r.dropping && !r.closing
    requires lines != [] && lines[0] != [] && PF.NoCrlf(lines[0])
    ensures Feed(c, r, LinesWire(lines + [[]]))
         == Feed(c, r.(phase := Head(r.phase.lines + [lines[0]], [])), LinesWire(lines[1..] + [[]]))
  {
    assert (lines + [[]])[0] == lines[0] && (lines + [[]])[1..] == lines[1..] + [[]];
    OneHeaderLine(c, r, lines[0]);
    FeedAppend(c, r, lines[0] + CRLF, LinesWire(lines[1..] + [[]]));
  }

  lemma OnMessageIgnoresPhase(c: Config, r: Run, phase: Phase, lines: seq<bytes>)
    ensures OnMessage(c, r.(phase := phase), lines) == OnMessage(c, r, lines)
  {
  }

  /** What the body on the wire does to a payload parser that expects it. */
  lemma BodyArrives(body: SentBody)
    requires !body.NoBody? && (body.Exactly? ==> body.data != [])
    ensures PF.Feed(Announced(body).p, BodyWire(body))
         == if body.Exactly? then PF.Parse(PF.Finished([]), body.data, false, [])
            else CR.AllChunks(body.chunks + [body.last]).(mode := PF.Finished([]))
  {
    if body.Exactly? {
      PF.FeedLengthWhole(Announced(body).p, body.data);
      EmptyPrefix(body.data);
    } else {
      CR.RoundTrip(body.chunks, body.last, []);
      EmptySuffix(BodyWire(body));
    }
  }

  lemma OneMessage(c: Config, r: Run, s: Sent)
    requires Ok(r) && Between(r) && WellFormed(c, s)
    ensures Feed(c, r, Wire(s)) == Push(r, Arrived(s))
  {
    FeedAppend(c, r, LinesWire(s.lines + [[]]), BodyWire(s.body));
    FeedLines(c, r, s.lines);
    assert [] + s.lines + [[]] == s.lines + [[]];
    var r1 := OnMessage(c, r, s.lines + [[]]);
    AnnouncedIsOpened(c, s);
    if !s.body.NoBody? {
      BodyArrives(s.body);
      FeedBody(c, r1, BodyWire(s.body));
    }
  }

  /**
    Messages sent back to back come apart again: each with its own lines and, as
    its payload, the bytes that were sent as its body.
   */
  lemma {:induction false} PipelineComesApart(c: Config, r: Run, all: seq<Sent>)
    requires Ok(r) && Between(r) && forall s :: s in all ==> WellFormed(c, s)
    ensures Feed(c, r, WireAll(all)) == PushAll(r, all)
    decreases |all|
  {
    if all != [] {
      FeedAppend(c, r, Wire(all[0]), WireAll(all[1..]));
      OneMessage(c, r, all[0]);
      PipelineComesApart(c, Push(r, Arrived(all[0])), all[1..]);
    }
  }

  lemma {:induction false} PushedIsBetween(r: Run, all: seq<Sent>)
    requires Between(r)
    ensures Between(PushAll(r, all))
    decreases |all|
  {
    if all != [] {
      PushedIsBetween(Push(r, Arrived(all[0])), all[1..]);
    }
  }

  lemma WireIsNotEmpty(all: seq<Sent>)
    ensures all == [] <==> WireAll(all) == []
  {
    if all != [] {
      var lines := all[0].lines + [[]];
      assert LinesWire(lines) == (lines[0] + CRLF) + LinesWire(lines[1..]);
      assert |Wire(all[0])| >= 2;
    }
  }

  /** ... whatever the calls in which they arrive. */
  lemma PipelineInAnyPieces(c: Config, all: seq<Sent>, pieces: seq<bytes>)
    requires (forall s :: s in all ==> WellFormed(c, s)) && Join(pieces) == WireAll(all)
    ensures Calls(c, Idle, pieces) == PushAll(Idle, all)
  {
    WireIsNotEmpty(all);
    if pieces == [] {
      return;
    }
    PipelineComesApart(c, Idle, all);
    PushedIsBetween(Idle, all);
    SegmentsDoNotMatter(c, Idle, pieces);
    FeedFrom(c, Idle, WireAll(all));
  }
}
