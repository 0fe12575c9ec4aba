/**
  The `HttpPayloadParser` object of http_parser.py in strict mode: it searches
  whole buffers, keeps an unfinished tail between calls and feeds a
  `StreamReader`. `FeedData` is proved to do what the byte automaton of
  PayloadFraming does with the same data.
 */
module HttpPayloadParsers {
  import opened Options
  import opened Bytes
  import opened Streams
  import opened StreamReaders
  import PF = PayloadFraming

  datatype ParseState = PARSE_NONE | PARSE_LENGTH | PARSE_CHUNKED | PARSE_UNTIL_EOF

  datatype ChunkState =
    | PARSE_CHUNKED_SIZE
    | PARSE_CHUNKED_CHUNK
    | PARSE_CHUNKED_CHUNK_EOF
    | PARSE_MAYBE_TRAILERS
    | PARSE_TRAILERS

  /** (False, b""), (True, rest) or a raised exception. */
  datatype FeedResult = NeedMore | AtEof(rest: bytes) | Error(error: PF.PayloadError)

  /** What one state of the chunked loop does: fall through with the rest, or return. */
  datatype StepResult = Go(rest: bytes) | Stop(result: FeedResult)

  // ---------------------------------------------------------------------
  // What a run leaves in the stream.
  // ---------------------------------------------------------------------

  function SplitsOf(s: Stream): seq<int> {
    if s.splits.Some? then s.splits.value else []
  }

  ghost predicate Gave(s0: Stream, s1: Stream, p: PF.Parse) {
    && s1.Pending() == s0.Pending() + p.body
    && s1.total == s0.total + |p.body| && s1.cursor == s0.cursor
    && s1.eof == (s0.eof || p.mode.Finished?)
    && s1.splits.Some? == (s0.splits.Some? || p.begun)
    && SplitsOf(s1) == SplitsOf(s0) + PF.Shift(p.ends, s0.total)
  }

  lemma GaveThen(s0: Stream, s1: Stream, s2: Stream, p: PF.Parse, q: PF.Parse)
    requires Gave(s0, s1, p) && Gave(s1, s2, q) && !p.mode.Finished?
    ensures Gave(s0, s2, PF.Then(p, q))
  {
    Assoc(s0.Pending(), p.body, q.body);
    assert PF.Shift(p.ends, s0.total) + PF.Shift(q.ends, s1.total)
        == PF.Shift(p.ends + PF.Shift(q.ends, |p.body|), s0.total);
  }

  lemma GaveNothing(s: Stream, mode: PF.Mode)
    requires !mode.Finished?
    ensures Gave(s, s, PF.Start(mode))
  {
    EmptySuffix(s.Pending());
  }

  /** What a buffer does in one of the two phases that look for a line. */
  lemma LinePhase(phase: PF.Phase, data: bytes)
    requires PF.CollectsLines(phase)
    ensures var p := PF.Start(PF.Chunked(phase, []));
            var pos := Find(data, CRLF, 0);
            if pos < 0 then
              PF.NoCrlf(data) && PF.Feed(p, data) == p.(mode := PF.Chunked(phase, data))
            else
              && PF.Feed(p, data[..pos + 2]) == PF.OnLine(p, phase, data[..pos])
              && (PF.OnLine(p, phase, data[..pos]).mode.Broken? ==>
                    PF.Feed(p, data) == PF.OnLine(p, phase, data[..pos]))
  {
    var p := PF.Start(PF.Chunked(phase, []));
    FindIsFirst(data, CRLF, 0);
    var pos := Find(data, CRLF, 0);
    if pos < 0 {
      PF.FeedNoLineYet(p, phase, data);
    } else {
      PF.FeedLine(p, phase, data, pos);
      var q := PF.OnLine(p, phase, data[..pos]);
      if q.mode.Broken? {
        PF.FeedSplit(p, data, pos + 2);
        PF.FeedIgnored(q, data[pos + 2..]);
      }
    }
  }

  lemma ChunkEofPhase(data: bytes)
    ensures var p := PF.Start(PF.Chunked(PF.ChunkEof, []));
            if |data| >= 2 && data[..2] == CRLF then
              PF.Feed(p, data[..2]) == PF.Start(PF.Chunked(PF.Size, []))
            else
              PF.Feed(p, data) == PF.Start(PF.Chunked(PF.ChunkEof, data))
  {
    if |data| >= 2 && data[..2] == CRLF {
      PF.BareCrlf();
    } else {
      forall k | 0 <= k <= |data|
        ensures [] + data[..k] != CRLF
      {
        EmptyPrefix(data[..k]);
      }
      PF.FeedChunkEofStuck(PF.Start(PF.Chunked(PF.ChunkEof, [])), [], data);
      EmptyPrefix(data);
    }
  }

  lemma MaybeTrailersEnd(data: bytes)
    requires |data| >= 2 && data[..2] == CRLF
    ensures PF.Feed(PF.Start(PF.Chunked(PF.MaybeTrailers, [])), data) == PF.Start(PF.Finished(data[2..]))
  {
    PF.BareCrlf();
    PF.FeedSplit(PF.Start(PF.Chunked(PF.MaybeTrailers, [])), data, 2);
    PF.FeedFinished(PF.Start(PF.Finished([])), data[2..]);
    EmptyPrefix(data[2..]);
  }

  lemma FirstTrailerBytes(b: byte, c: byte)
    ensures var p, q := PF.Start(PF.Chunked(PF.MaybeTrailers, [])), PF.Start(PF.Chunked(PF.Trailers, []));
            && (b != CR ==> PF.Step(p, b) == PF.Step(q, b))
            && (c != LF ==> PF.Feed(p, [CR, c]) == PF.Feed(q, [CR, c]))
  {
    var p, q := PF.Start(PF.Chunked(PF.MaybeTrailers, [])), PF.Start(PF.Chunked(PF.Trailers, []));
    EmptyPrefix([b]);
    EmptyPrefix([CR]);
    PF.FeedTwo(p, CR, c);
    PF.FeedTwo(q, CR, c);
    assert [CR] + [c] == [CR, c];
  }

  /** Bytes that are not the final CRLF start a trailer: both phases read them alike. */
  lemma MaybeTrailersIsTrailers(data: bytes)
    requires data != [] && data != [CR] && (|data| >= 2 ==> data[..2] != CRLF)
    ensures PF.Feed(PF.Start(PF.Chunked(PF.MaybeTrailers, [])), data)
         == PF.Feed(PF.Start(PF.Chunked(PF.Trailers, [])), data)
  {
    var p, q := PF.Start(PF.Chunked(PF.MaybeTrailers, [])), PF.Start(PF.Chunked(PF.Trailers, []));
    if data[0] == CR {
      FirstTrailerBytes(CR, data[1]);
      assert data[..2] == [CR, data[1]];
      PF.FeedSplit(p, data, 2);
      PF.FeedSplit(q, data, 2);
    } else {
      FirstTrailerBytes(data[0], LF);
    }
  }

  lemma SoOnPrefixes(data: bytes, k: nat)
    requires data != [] && data != [CR] && (|data| >= 2 ==> data[..2] != CRLF)
    requires k <= |data| && (k == |data| || 2 <= k)
    ensures PF.Feed(PF.Start(PF.Chunked(PF.MaybeTrailers, [])), data[..k])
         == PF.Feed(PF.Start(PF.Chunked(PF.Trailers, [])), data[..k])
  {
    assert k == |data| ==> data[..k] == data;
    assert k >= 2 ==> data[..k][..2] == data[..2];
    MaybeTrailersIsTrailers(data[..k]);
  }

  /** A chunk that has just received bytes is recorded by its end. */
  lemma EndAfterData(s: Stream, data: bytes)
    requires s.Ok() && !s.eof && s.splits.Some? && data != []
    ensures var t := s.Feed(data);
            && t.Ok() && t.splits.Some? && t.EndChunk().Ok()
            && Gave(s, t.EndChunk(), PF.Parse(PF.Chunked(PF.ChunkEof, []), data, false, [|data|]))
  {
    FeedFlat(s, data);
    EndChunkOk(s.Feed(data));
    SplitsOkMeans(s.splits.value, Max(1, s.cursor), s.total);
    assert PF.Shift([|data|], s.total) == [s.total + |data|];
  }

  /** The tail carried by a phase is what that phase makes of those bytes. */
  lemma TailIsState(phase: PF.Phase, tail: bytes)
    requires match phase
             case Chunk(left) => tail == []
             case ChunkEof => |tail| < 2 || tail[..2] != CRLF
             case MaybeTrailers => tail == [] || tail == [CR]
             case _ => PF.NoCrlf(tail)
    ensures PF.Feed(PF.Start(PF.Chunked(phase, [])), tail) == PF.Start(PF.Chunked(phase, tail))
  {
    var p := PF.Start(PF.Chunked(phase, []));
    match phase {
      case Chunk(left) =>
      case ChunkEof => ChunkEofPhase(tail);
      case MaybeTrailers => PF.FeedOne(p, CR);
      case _ => PF.FeedNoLineYet(p, phase, tail);
    }
  }

  lemma LengthReached(p: PF.Parse, data: bytes)
    requires p.mode.Length? && 0 < p.mode.left <= |data| && p.body == []
    ensures PF.Feed(p, data) == p.(mode := PF.Finished(data[p.mode.left..]), body := data[..p.mode.left])
  {
    var n := p.mode.left;
    PF.FeedLengthWhole(p, data[..n]);
    EmptyPrefix(data[..n]);
    PF.FeedSplit(p, data, n);
    PF.FeedFinished(PF.Feed(p, data[..n]), data[n..]);
    EmptyPrefix(data[n..]);
  }

  class HttpPayloadParser {
    const payload: StreamReader
    const parseType: ParseState
    var length: nat
    var chunk: ChunkState
    var chunkSize: nat
    var chunkTail: bytes
    const done: bool

    ghost function Phase(): PF.Phase
      reads this
    {
      match chunk
      case PARSE_CHUNKED_SIZE => PF.Size
      case PARSE_CHUNKED_CHUNK => PF.Chunk(chunkSize)
      case PARSE_CHUNKED_CHUNK_EOF => PF.ChunkEof
      case PARSE_MAYBE_TRAILERS => PF.MaybeTrailers
      case PARSE_TRAILERS => PF.Trailers
    }

    ghost function Mode(): PF.Mode
      reads this
    {
      match parseType
      case PARSE_NONE => PF.Discard
      case PARSE_LENGTH => PF.Length(length)
      case PARSE_CHUNKED => PF.Chunked(Phase(), chunkTail)
      case PARSE_UNTIL_EOF => PF.UntilEof
    }

    /** A tail is only kept where the automaton, too, would still be collecting it. */
    ghost predicate TailOk()
      reads this
    {
      match chunk
      case PARSE_CHUNKED_SIZE => PF.NoCrlf(chunkTail)
      case PARSE_CHUNKED_CHUNK => chunkTail == []
      case PARSE_CHUNKED_CHUNK_EOF => |chunkTail| < 2 || chunkTail[..2] != CRLF
      case PARSE_MAYBE_TRAILERS => chunkTail == [] || chunkTail == [CR]
      case PARSE_TRAILERS => PF.NoCrlf(chunkTail)
    }

    ghost predicate Valid()
      reads this, payload
    {
      && payload.Valid() && payload.inbox == []
      && (chunk.PARSE_CHUNKED_CHUNK? ==> 0 < chunkSize)
      && (parseType.PARSE_LENGTH? && !done ==> 0 < length)
      && (parseType.PARSE_CHUNKED? ==>
            && (chunk.PARSE_CHUNKED_CHUNK? || chunk.PARSE_CHUNKED_CHUNK_EOF? ==> payload.httpChunkSplits.Some?)
            && (payload.httpChunkSplits.None? ==> payload.totalBytes == 0))
      && TailOk()
    }

    constructor (payload: StreamReader, length: Option<nat>, chunked: bool, responseWithBody: bool)
      requires payload.Valid() && payload.inbox == [] && !payload.eof
      requires payload.httpChunkSplits.None? ==> payload.totalBytes == 0
      modifies payload
      ensures Valid() && this.payload == payload
      ensures Mode() == if !responseWithBody then PF.Discard
                        else if chunked then PF.Chunked(PF.Size, [])
                        else if length.Some? then PF.Length(length.value)
                        else PF.UntilEof
      ensures done == (!responseWithBody || (!chunked && length == Some(0)))
      ensures payload.Abs() == old(payload.Abs()).(eof := done)
    {
      this.payload := payload;
      this.length := if !chunked && length.Some? then length.value else 0;
      parseType := if !responseWithBody then PARSE_NONE
                   else if chunked then PARSE_CHUNKED
                   else if length.Some? then PARSE_LENGTH
                   else PARSE_UNTIL_EOF;
      chunk, chunkSize, chunkTail := PARSE_CHUNKED_SIZE, 0, [];
      done := !responseWithBody || (!chunked && length == Some(0));
      new;
      if done {
        payload.FeedEof();
      }
    }

    /** What the call did is what the automaton does with `data`. */
    twostate predicate Did(data: bytes, r: FeedResult)
      reads this, payload
      requires payload.OffsetOk() && old(payload.OffsetOk())
    {
      var p := PF.Feed(PF.Start(old(Mode())), data);
      && Gave(old(payload.Abs()), payload.Abs(), p)
      && match r
         case NeedMore => p.mode == Mode()
         case AtEof(rest) => p.mode == PF.Finished(rest)
         case Error(error) => p.mode == PF.Broken(error)
    }

    /** One state of the loop: `data` consumed up to `rest`, or a result for all of it. */
    twostate predicate Stepped(data: bytes, r: StepResult)
      reads this, payload
      requires payload.OffsetOk() && old(payload.OffsetOk())
    {
      match r
      case Go(rest) =>
        chunkTail == [] && |rest| <= |data| && rest == data[|data| - |rest|..]
        && Did(data[..|data| - |rest|], NeedMore)
      case Stop(result) => Did(data, result)
    }

    /** After an end or an error only the stream is of any further use. */
    ghost predicate ValidAfter(r: StepResult)
      reads this, payload
    {
      if r.Go? || r.result.NeedMore? then Valid() else payload.Valid()
    }

    method ReadChunkSize(data: bytes) returns (r: StepResult)
      requires Valid() && parseType.PARSE_CHUNKED? && chunk.PARSE_CHUNKED_SIZE? && chunkTail == []
      modifies this, payload
      ensures ValidAfter(r) && Stepped(data, r)
      ensures r.Go? ==> |r.rest| < |data|
    {
      GaveNothing(payload.Abs(), Mode());
      LinePhase(PF.Size, data);
      var pos := Find(data, CRLF, 0);
      if pos < 0 {
        chunkTail := data;
        return Stop(NeedMore);
      }
      var line := PF.ParseSizeLine(data[..pos]);
      if line.Bad? {
        payload.SetException();
        return Stop(Error(line.error));
      }
      r := Go(data[pos + 2..]);
      assert |data| - |r.rest| == pos + 2;
      if line.size == 0 {
        chunk := PARSE_MAYBE_TRAILERS;
      } else {
        BeginChunk(line.size);
      }
    }

    method BeginChunk(n: nat)
      requires Valid() && parseType.PARSE_CHUNKED? && chunk.PARSE_CHUNKED_SIZE? && chunkTail == [] && 0 < n
      modifies this`chunk, this`chunkSize, payload`httpChunkSplits
      ensures Valid() && chunk.PARSE_CHUNKED_CHUNK? && chunkSize == n
      ensures Gave(old(payload.Abs()), payload.Abs(), PF.Start(Mode()).(begun := true))
    {
      EmptySuffix(payload.Abs().Pending());
      chunk := PARSE_CHUNKED_CHUNK;
      chunkSize := n;
      var _ := payload.BeginHttpChunkReceiving();
    }

    /** The buffer ends before the chunk does. */
    method ReadChunkPart(data: bytes)
      requires Valid() && parseType.PARSE_CHUNKED? && chunk.PARSE_CHUNKED_CHUNK? && chunkTail == []
      requires !payload.eof && |data| < chunkSize
      modifies this`chunkSize, payload, payload.protocol
      ensures Valid() && Did(data, NeedMore)
    {
      PF.FeedChunkPart(PF.Start(Mode()), data);
      EmptyPrefix(data);
      FeedFlat(payload.Abs(), data);
      chunkSize := chunkSize - |data|;
      payload.FeedData(data);
    }

    method ReadChunkData(data: bytes) returns (r: StepResult)
      requires Valid() && parseType.PARSE_CHUNKED? && chunk.PARSE_CHUNKED_CHUNK? && chunkTail == []
      requires !payload.eof
      modifies this, payload, payload.protocol
      ensures ValidAfter(r) && Stepped(data, r)
      ensures r.Go? ==> |r.rest| < |data| && !payload.eof
    {
      var required := chunkSize;
      if required > |data| {
        ReadChunkPart(data);
        return Stop(NeedMore);
      }
      FinishChunk(data[..required]);
      r := Go(data[required..]);
      assert |data| - |r.rest| == required;
    }

    /** The last bytes of the chunk are here. */
    method FinishChunk(head: bytes)
      requires Valid() && parseType.PARSE_CHUNKED? && chunk.PARSE_CHUNKED_CHUNK? && chunkTail == []
      requires !payload.eof && |head| == chunkSize
      modifies this`chunk, this`chunkSize, payload, payload.protocol
      ensures Valid() && !payload.eof && Did(head, NeedMore)
    {
      PF.FeedChunkWhole(PF.Start(Mode()), head);
      EmptyPrefix(head);
      EndAfterData(payload.Abs(), head);
      chunkSize := 0;
      payload.FeedData(head);
      var _ := payload.EndHttpChunkReceiving();
      chunk := PARSE_CHUNKED_CHUNK_EOF;
      assert payload.Abs() == old(payload.Abs()).Feed(head).EndChunk();
    }

    method TossCrlf(data: bytes) returns (r: StepResult)
      requires Valid() && parseType.PARSE_CHUNKED? && chunk.PARSE_CHUNKED_CHUNK_EOF? && chunkTail == []
      modifies this
      ensures ValidAfter(r) && Stepped(data, r)
      ensures r.Go? ==> |r.rest| < |data|
    {
      ChunkEofPhase(data);
      GaveNothing(payload.Abs(), Mode());
      if |data| >= 2 && data[..2] == CRLF {
        chunk := PARSE_CHUNKED_SIZE;
        r := Go(data[2..]);
        assert |data| - |r.rest| == 2;
      } else {
        chunkTail := data;
        r := Stop(NeedMore);
      }
    }

    method SkipTrailerLine(data: bytes) returns (r: StepResult)
      requires Valid() && parseType.PARSE_CHUNKED? && chunk.PARSE_TRAILERS? && chunkTail == []
      modifies this
      ensures ValidAfter(r) && Stepped(data, r)
      ensures r.Go? ==> |r.rest| + 2 <= |data|
      ensures chunkSize == old(chunkSize)
    {
      GaveNothing(payload.Abs(), Mode());
      LinePhase(PF.Trailers, data);
      var pos := Find(data, CRLF, 0);
      if pos >= 0 {
        chunk := PARSE_MAYBE_TRAILERS;
        r := Go(data[pos + 2..]);
        assert |data| - |r.rest| == pos + 2;
      } else {
        chunkTail := data;
        r := Stop(NeedMore);
      }
    }

    method SkipTrailers(data: bytes) returns (r: StepResult)
      requires Valid() && parseType.PARSE_CHUNKED? && chunkTail == []
      requires chunk.PARSE_MAYBE_TRAILERS? || chunk.PARSE_TRAILERS?
      modifies this, payload
      ensures ValidAfter(r) && Stepped(data, r)
      ensures r.Go? ==> |r.rest| < |data|
    {
      if chunk == PARSE_TRAILERS {
        r := SkipTrailerLine(data);
        return;
      }
      var head := if |data| < 2 then data else data[..2];
      if head == CRLF || head == [] || head == [CR] {
        r := EndOrWait(data);
        return;
      }
      chunk := PARSE_TRAILERS;
      r := SkipTrailerLine(data);
      assert data[..|data|] == data;
      SoOnPrefixes(data, if r.Go? then |data| - |r.rest| else |data|);
    }

    /** The last CRLF, or not yet enough to tell it from a trailer. */
    method EndOrWait(data: bytes) returns (r: StepResult)
      requires Valid() && parseType.PARSE_CHUNKED? && chunk.PARSE_MAYBE_TRAILERS? && chunkTail == []
      requires data == [] || data == [CR] || (|data| >= 2 && data[..2] == CRLF)
      modifies this, payload
      ensures r.Stop? && ValidAfter(r) && Stepped(data, r)
    {
      GaveNothing(payload.Abs(), Mode());
      if |data| >= 2 {
        MaybeTrailersEnd(data);
        payload.FeedEof();
        r := Stop(AtEof(data[2..]));
      } else {
        TailIsState(PF.MaybeTrailers, data);
        chunkTail := data;
        r := Stop(NeedMore);
      }
    }

    /** The state of the loop decides; the ifs of the source fall through to the next turn. */
    method Turn(data: bytes) returns (r: StepResult)
      requires Valid() && parseType.PARSE_CHUNKED? && chunkTail == [] && !payload.eof
      modifies this, payload, payload.protocol
      ensures ValidAfter(r) && Stepped(data, r)
      ensures r.Go? ==> |r.rest| < |data| && !payload.eof
    {
      match chunk {
        case PARSE_CHUNKED_SIZE => r := ReadChunkSize(data);
        case PARSE_CHUNKED_CHUNK => r := ReadChunkData(data);
        case PARSE_CHUNKED_CHUNK_EOF => r := TossCrlf(data);
        case _ => r := SkipTrailers(data);
      }
    }

    method FeedChunked(data: bytes) returns (r: FeedResult)
      requires Valid() && parseType.PARSE_CHUNKED? && !payload.eof
      modifies this, payload, payload.protocol
      ensures ValidAfter(Stop(r)) && Did(data, r)
    {
      ghost var s0 := payload.Abs();
      ghost var mode0 := PF.Chunked(Phase(), []);
      var buffer := chunkTail + data;
      ghost var whole := buffer;
      TailIsState(Phase(), chunkTail);
      PF.FeedAppend(PF.Start(mode0), chunkTail, data);
      chunkTail := [];
      ghost var acc := PF.Start(Mode());
      GaveNothing(s0, Mode());
      while buffer != []
        invariant Valid() && chunkTail == [] && !payload.eof
        invariant acc.mode == Mode() && Gave(s0, payload.Abs(), acc)
        invariant PF.Feed(acc, buffer) == PF.Feed(PF.Start(mode0), whole)
        decreases |buffer|
      {
        ghost var s1 := payload.Abs();
        ghost var before := buffer;
        var step := Turn(buffer);
        ghost var used := if step.Go? then before[..|before| - |step.rest|] else before;
        ghost var q := PF.Feed(PF.Start(acc.mode), used);
        GaveThen(s0, s1, payload.Abs(), acc, q);
        PF.FeedFrom(acc, used);
        if step.Stop? {
          return step.result;
        }
        PF.FeedSplit(acc, before, |used|);
        acc := PF.Then(acc, q);
        buffer := step.rest;
      }
      return NeedMore;
    }

    /** `feed_data`, strict mode. */
    method FeedData(data: bytes) returns (r: FeedResult)
      requires Valid() && !payload.eof && !done
      modifies this, payload, payload.protocol
      ensures ValidAfter(Stop(r)) && Did(data, r)
    {
      match parseType {
        case PARSE_NONE =>
          PF.FeedIgnored(PF.Start(Mode()), data);
          GaveNothing(payload.Abs(), Mode());
          r := NeedMore;
        case PARSE_LENGTH => r := FeedLength(data);
        case PARSE_CHUNKED => r := FeedChunked(data);
        case PARSE_UNTIL_EOF =>
          PF.FeedUntilEof(PF.Start(Mode()), data);
          EmptyPrefix(data);
          FeedFlat(payload.Abs(), data);
          payload.FeedData(data);
          r := NeedMore;
      }
    }

    method FeedLength(data: bytes) returns (r: FeedResult)
      requires Valid() && parseType.PARSE_LENGTH? && !payload.eof && !done
      modifies this, payload, payload.protocol
      ensures ValidAfter(Stop(r)) && Did(data, r)
    {
      ghost var p := PF.Start(Mode());
      ghost var s0 := payload.Abs();
      var required := length;
      var head := if required >= |data| then data else data[..required];
      var rest := if required >= |data| then [] else data[required..];
      FeedFlat(s0, head);
      EmptyPrefix(head);
      payload.FeedData(head);
      length := required - |head|;
      if required > |data| {
        PF.FeedLength(p, data);
        assert PF.Feed(p, data).body == head;
        return NeedMore;
      }
      LengthReached(p, data);
      assert head == data[..required] && rest == data[required..];
      payload.FeedEof();
      assert payload.Abs() == s0.Feed(head).(eof := true);
      return AtEof(rest);
    }
  }
}
