/**
  After a message that closes the connection: whether a cut behind it can still
  matter. It can exactly if the call may get back to reading lines, which is
  decided by the place the parser has come to.
 */
module ClosingCuts {
  import opened Bytes
  import opened PayloadFraming
  import SW = StreamWriters
  import CR = ChunkedRoundTrip
  import MF = MessageFraming
  import MS = MessageStreams

  // ---------------------------------------------------------------------
  // Payloads that may still end.
  // ---------------------------------------------------------------------

  /** The chunk-size line that begins with `tail` may still turn out to be one. */
  predicate SizeMayEnd(tail: bytes) {
    var i := Find(tail, [SEMICOLON], 0);
    if i >= 0 then i != 0 && AllHex(tail[..i]) && LF !in tail[i..]
    else AllHex(tail) || (|tail| >= 2 && tail[|tail| - 1] == 13 && AllHex(tail[..|tail| - 1]))
  }

  /** Some continuation ends the payload. */
  predicate MayEnd(mode: Mode) {
    match mode
    case Length(_) => true
    case Chunked(Size, tail) => SizeMayEnd(tail)
    case Chunked(ChunkEof, tail) => tail == [] || tail == [13]
    case Chunked(_, _) => true
    case _ => false
  }

  /** The first semicolon, or the end. */
  predicate IsFirst(s: bytes, i: int) {
    && -1 <= i < |s| && (0 <= i ==> s[i] == SEMICOLON)
    && forall k :: 0 <= k < (if 0 <= i then i else |s|) ==> s[k] != SEMICOLON
  }

  lemma FirstIsFound(s: bytes, i: int)
    ensures IsFirst(s, Find(s, [SEMICOLON], 0))
    ensures IsFirst(s, i) ==> i == Find(s, [SEMICOLON], 0)
  {
    var j := Find(s, [SEMICOLON], 0);
    FindByte(s, SEMICOLON, 0);
    var before := s[0..if 0 <= j then j else |s|];
    assert SEMICOLON !in before;
    assert forall k :: 0 <= k < |before| ==> before[k] == s[k];
  }

  lemma OneByteMore(tail: bytes, b: byte)
    ensures var i, j := Find(tail, [SEMICOLON], 0), Find(tail + [b], [SEMICOLON], 0);
            j == if i >= 0 then i else if b == SEMICOLON then |tail| else -1
  {
    var i := Find(tail, [SEMICOLON], 0);
    FirstIsFound(tail, i);
    FirstIsFound(tail + [b], if i >= 0 then i else if b == SEMICOLON then |tail| else -1);
  }

  /** A line that is complete is right only if what came before its last CR was. */
  lemma WrongLine(line: bytes)
    requires !SizeMayEnd(line + [13])
    ensures ParseSizeLine(line).Bad?
  {
    var tail := line + [13];
    OneByteMore(line, 13);
    var i := Find(line, [SEMICOLON], 0);
    if i >= 0 {
      assert line[..i] == tail[..i];
      assert tail[i..] == line[i..] + [13];
    } else {
      assert tail[..|tail| - 1] == line;
    }
  }

  /** A size line that has gone wrong stays wrong. */
  lemma SizeStaysBad(tail: bytes, b: byte)
    requires !SizeMayEnd(tail) && !EndsInCrlf(tail + [b])
    ensures !SizeMayEnd(tail + [b])
  {
    var t := tail + [b];
    OneByteMore(tail, b);
    var i := Find(tail, [SEMICOLON], 0);
    if i >= 0 {
      assert t[..i] == tail[..i];
      assert t[i..] == tail[i..] + [b];
    } else {
      assert t[..|tail|] == tail;
      assert AllHex(t) ==> AllHex(tail);
    }
  }

  lemma LineStays(tail: bytes, b: byte)
    requires !SizeMayEnd(tail)
    ensures var t := tail + [b];
            if EndsInCrlf(t) then ParseSizeLine(t[..|t| - 2]).Bad? else !SizeMayEnd(t)
  {
    var t := tail + [b];
    if EndsInCrlf(t) {
      assert t[|t| - 2..][0] == 13;
      assert tail == t[..|t| - 2] + [13];
      WrongLine(t[..|t| - 2]);
    } else {
      SizeStaysBad(tail, b);
    }
  }

  lemma StepNeverEnds(p: Parse, b: byte)
    requires !MayEnd(p.mode) && !p.mode.Finished?
    ensures !MayEnd(Step(p, b).mode) && !Step(p, b).mode.Finished?
  {
    if p.mode.Chunked? {
      var t := p.mode.tail + [b];
      assert t[..|t| - 1] == p.mode.tail;
      if p.mode.phase.Size? {
        LineStays(p.mode.tail, b);
      } else {
        assert p.mode.phase.ChunkEof?;
        assert CRLF[..1] == [13];
      }
    }
  }

  lemma {:induction false} NeverEnds(p: Parse, data: bytes)
    requires !MayEnd(p.mode) && !p.mode.Finished?
    ensures !MayEnd(Feed(p, data).mode) && !Feed(p, data).mode.Finished?
    decreases |data|
  {
    if data != [] {
      StepNeverEnds(p, data[0]);
      NeverEnds(Step(p, data[0]), data[1..]);
    }
  }

  /** Two stretches one after the other; the first leaves the mode in which the second starts. */
  lemma Chain(p: Parse, a: bytes, b: bytes)
    ensures Feed(p, a + b) == Feed(Feed(p, a), b)
  {
    FeedAppend(p, a, b);
  }

  lemma EndFromSize(p: Parse)
    requires p.mode == Chunked(Size, [])
    ensures Feed(p, SW.LAST_CHUNK).mode == Finished([])
  {
    CR.FeedLastChunk();
    FeedFrom(p, SW.LAST_CHUNK);
  }

  lemma EndFromMaybeTrailers(p: Parse)
    requires p.mode == Chunked(MaybeTrailers, [])
    ensures Feed(p, CRLF).mode == Finished([])
  {
    BareCrlf();
    FeedFrom(p, CRLF);
  }

  lemma EndFromChunkEof(p: Parse)
    requires p.mode == Chunked(ChunkEof, [])
    ensures Feed(p, CRLF + SW.LAST_CHUNK).mode == Finished([])
  {
    BareCrlf();
    FeedFrom(p, CRLF);
    Chain(p, CRLF, SW.LAST_CHUNK);
    EndFromSize(Feed(p, CRLF));
  }

  /** Two bytes that end the line which `tail` began. */
  lemma EndLine(p: Parse, phase: Phase, tail: bytes)
    requires p.mode == Chunked(phase, tail) && CollectsLines(phase) && !EndsInCrlf(tail + [13])
    ensures Feed(p, CRLF) == OnLine(p, phase, tail)
  {
    FeedTwo(p, 13, 10);
    var t := tail + [13];
    var p1 := p.(mode := Chunked(phase, t));
    assert Step(p, 13) == p1;
    assert (t + [10])[|t| - 1..] == CRLF && (t + [10])[..|t| - 1] == tail;
  }

  lemma NoLineEndsInCr(tail: bytes)
    ensures !EndsInCrlf(tail + [13])
  {
    var t := tail + [13];
    assert |t| >= 2 ==> t[|t| - 2..][1] == 13;
  }

  lemma EndFromChunk(p: Parse) returns (data: bytes)
    requires p.mode.Chunked? && p.mode.phase.Chunk?
    ensures Feed(p, data).mode == Finished([])
  {
    var n := p.mode.phase.left;
    var s := seq(if n == 0 then 1 else n, _ => 0);
    if n == 0 {
      FeedOne(p, 0);
      assert s == [0];
    } else {
      FeedChunkWhole(p, s);
    }
    data := s + (CRLF + SW.LAST_CHUNK);
    Chain(p, s, CRLF + SW.LAST_CHUNK);
    EndFromChunkEof(Feed(p, s));
  }

  /** Behind a chunk-size line that is one. */
  lemma EndBehindSize(p: Parse, line: bytes) returns (data: bytes)
    requires ParseSizeLine(line).Bytes?
    ensures Feed(OnLine(p, Size, line), data).mode == Finished([])
  {
    var q := OnLine(p, Size, line);
    if ParseSizeLine(line).size == 0 {
      EndFromMaybeTrailers(q);
      data := CRLF;
    } else {
      data := EndFromChunk(q);
    }
  }

  lemma EndSizeLine(p: Parse, tail: bytes) returns (data: bytes)
    requires p.mode == Chunked(Size, tail) && SizeMayEnd(tail)
    ensures Feed(p, data).mode == Finished([])
  {
    var i := Find(tail, [SEMICOLON], 0);
    FirstIsFound(tail, i);
    if tail == [] {
      EndFromSize(p);
      data := SW.LAST_CHUNK;
    } else if i >= 0 || AllHex(tail) {
      NoLineEndsInCr(tail);
      EndLine(p, Size, tail);
      var rest := EndBehindSize(p, tail);
      data := CRLF + rest;
      Chain(p, CRLF, rest);
    } else {
      var line := tail[..|tail| - 1];
      FirstIsFound(line, -1);
      var rest := EndBehindSize(p, line);
      data := [10] + rest;
      FeedOne(p, 10);
      assert (tail + [10])[|tail| - 1..] == CRLF && (tail + [10])[..|tail| - 1] == line;
      Chain(p, [10], rest);
    }
  }

  lemma EndTrailers(p: Parse, tail: bytes)
    requires p.mode == Chunked(Trailers, tail)
    ensures Feed(p, CRLF + CRLF).mode == Finished([])
  {
    NoLineEndsInCr(tail);
    EndLine(p, Trailers, tail);
    Chain(p, CRLF, CRLF);
    EndFromMaybeTrailers(Feed(p, CRLF));
  }

  lemma EndMaybeTrailers(p: Parse, tail: bytes) returns (data: bytes)
    requires p.mode == Chunked(MaybeTrailers, tail)
    ensures Feed(p, data).mode == Finished([])
  {
    if tail == [] {
      EndFromMaybeTrailers(p);
      data := CRLF;
    } else if tail == [13] {
      FeedOne(p, 10);
      assert [13] + [10] == CRLF;
      data := [10];
    } else {
      var t := tail + [13];
      assert t[|t| - 1] == 13 && |t| >= 2;
      assert Step(p, 13) == p.(mode := Chunked(Trailers, t));
      FeedOne(p, 13);
      data := [13] + (CRLF + CRLF);
      Chain(p, [13], CRLF + CRLF);
      EndTrailers(Feed(p, [13]), t);
    }
  }

  lemma EndIt(p: Parse) returns (data: bytes)
    requires MayEnd(p.mode) && MF.Live(p.mode)
    ensures Feed(p, data).mode == Finished([])
  {
    match p.mode {
      case Length(left) =>
        data := seq(left, _ => 0);
        FeedLengthWhole(p, data);
      case Chunked(Size, tail) => data := EndSizeLine(p, tail);
      case Chunked(Chunk(_), _) => data := EndFromChunk(p);
      case Chunked(ChunkEof, tail) =>
        if tail == [] {
          EndFromChunkEof(p);
          data := CRLF + SW.LAST_CHUNK;
        } else {
          data := [10] + SW.LAST_CHUNK;
          FeedOne(p, 10);
          assert [13] + [10] == CRLF;
          Chain(p, [10], SW.LAST_CHUNK);
          EndFromSize(Feed(p, [10]));
        }
      case Chunked(MaybeTrailers, tail) => data := EndMaybeTrailers(p, tail);
      case Chunked(Trailers, tail) =>
        EndTrailers(p, tail);
        data := CRLF + CRLF;
    }
  }

  /** A payload that is being read can still end exactly if its mode is one of these. */
  lemma EndsIff(p: Parse)
    requires MF.Live(p.mode)
    ensures MayEnd(p.mode) <==> exists data :: Feed(p, data).mode.Finished?
  {
    if MayEnd(p.mode) {
      var data := EndIt(p);
      assert Feed(p, data).mode.Finished?;
    } else {
      forall data
        ensures !Feed(p, data).mode.Finished?
      {
        NeverEnds(p, data);
      }
    }
  }

  // ---------------------------------------------------------------------
  // Cuts behind a closing message.
  // ---------------------------------------------------------------------

  /** The call may get back to reading lines. */
  predicate MayReadLines(r: MF.Run) {
    && !r.dropping
    && (r.phase.Head? || (r.phase.Body? && !r.upgraded && r.cur.payload.Stream? && MayEnd(r.cur.payload.p.mode)))
  }

  lemma LinesAreNeverRead(c: MF.Config, s: MF.Run, b: bytes)
    requires MF.Ok(s) && !s.phase.Failed? && !MayReadLines(s)
    ensures !MF.Feed(c, s, b).phase.Failed?
  {
    if s.dropping {
      MF.FailedStays(c, s, b);
    } else if s.phase.Raw? {
      MF.FeedRaw(c, s, b);
    } else {
      var p := Feed(s.cur.payload.p, b);
      MF.FeedBody(c, s, b);
      if p.mode.Finished? {
        if !MayEnd(s.cur.payload.p.mode) {
          NeverEnds(s.cur.payload.p, b);
        }
        MF.FeedRaw(c, MF.Fed(s, p.(mode := Finished([]))), p.mode.leftover);
      }
    }
  }

  lemma NoLineYet(c: MF.Config, r: MF.Run, b: byte)
    requires MF.Ok(r) && r.phase.Head? && !r.dropping && b != 10
    ensures MF.Step(c, r, b) == r.(phase := MF.Head(r.phase.lines, r.phase.tail + [b]))
  {
    var t := r.phase.tail + [b];
    assert |t| >= 2 ==> t[|t| - 2..][1] == b;
  }

  lemma LineEnds(c: MF.Config, r: MF.Run, line: bytes)
    requires MF.Ok(r) && r.phase.Head? && !r.dropping && r.phase.tail == line + [13]
    ensures MF.Step(c, r, 10) == MF.OnLine(c, r, r.phase.lines, line)
  {
    var t := r.phase.tail + [10];
    assert t[|t| - 2..] == CRLF && t[..|t| - 2] == line;
  }

  /** A line to send after a closing message. */
  const LINE: bytes := [65] + CRLF

  /** After a closing message any line is one too many. */
  lemma LineTooMany(c: MF.Config, s: MF.Run)
    requires MF.Ok(s) && s.closing && !s.dropping && s.phase.Head?
    ensures MF.Feed(c, s, LINE).phase.Failed?
  {
    var lines, line := s.phase.lines, s.phase.tail + [65];
    var s1 := s.(phase := MF.Head(lines, line));
    var s2 := s.(phase := MF.Head(lines, line + [13]));
    MF.FeedAppend(c, s, [65], CRLF);
    MS.FeedOne(c, s, 65);
    NoLineYet(c, s, 65);
    MS.FeedTwo(c, s1, 13, 10);
    NoLineYet(c, s1, 13);
    LineEnds(c, s2, line);
    assert line != [];
  }

  /** The same data that end the payload lead back to the lines. */
  lemma BackToLines(c: MF.Config, s: MF.Run) returns (b: bytes)
    requires MF.Ok(s) && s.closing && s.phase.Body? && MayReadLines(s)
    ensures var t := MF.Feed(c, s, b); t.closing && !t.dropping && t.phase.Head?
  {
    b := EndIt(s.cur.payload.p);
    MF.FeedBody(c, s, b);
  }

  /**
    Behind a closing message there are data for which the cut matters exactly if the
    call may get back to reading lines: if it is reading lines, or the connection is
    not upgraded and the payload that is being read can still end.
   */
  lemma ClosingCutMattersIff(c: MF.Config, r: MF.Run, a: bytes)
    requires MF.Ok(r)
    requires var s := MF.Feed(c, MF.NextCall(r), a); s.closing && !s.dropping && !s.phase.Failed?
    ensures var s := MF.Feed(c, MF.NextCall(r), a);
            (exists b :: MS.OneCall(c, r, a + b) != MS.OneCall(c, MS.OneCall(c, r, a), b)) <==> MayReadLines(s)
  {
    var s := MF.Feed(c, MF.NextCall(r), a);
    forall b
      ensures (MS.OneCall(c, r, a + b) != MS.OneCall(c, MS.OneCall(c, r, a), b)) == MF.Feed(c, s, b).phase.Failed?
    {
      MS.CutMattersIff(c, r, a, b);
      MF.FeedAppend(c, MF.NextCall(r), a, b);
      MS.InCallThroughout(c, MF.NextCall(r), a);
    }
    if MayReadLines(s) {
      var e: bytes := [];
      if s.phase.Body? {
        e := BackToLines(c, s);
      }
      MF.FeedAppend(c, s, e, LINE);
      LineTooMany(c, MF.Feed(c, s, e));
      assert MF.Feed(c, s, e + LINE).phase.Failed?;
    } else {
      forall b
        ensures !MF.Feed(c, s, b).phase.Failed?
      {
        LinesAreNeverRead(c, s, b);
      }
    }
  }
}
