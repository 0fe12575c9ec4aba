/**
  From `StreamWriter` to `HttpPayloadParser` (section 7.1 of RFC 9112): what the
  writer sends, cut anywhere and followed by anything, is read back as the
  chunks that were written, and the parser stops at the last byte of the body.
 */
module ChunkedRoundTrip {
  import opened Options
  import opened Bytes
  import opened Streams
  import opened StreamWriters
  import opened PayloadFraming
  import HP = HttpPayloadParsers

  const Fresh: Parse := Start(Chunked(Size, []))

  // ---------------------------------------------------------------------
  // Hexadecimal.
  // ---------------------------------------------------------------------

  /** The size is printed in lower case, without leading zeros, and parses to the same number. */
  lemma {:induction false} HexRoundTrip(n: nat)
    ensures HexText(n) != [] && AllHex(HexText(n)) && HexValue(HexText(n)) == n
    ensures n > 0 ==> HexText(n)[0] != 48
    ensures forall b :: b in HexText(n) ==> 48 <= b <= 57 || 97 <= b <= 102
  {
    if n >= 16 {
      HexRoundTrip(n / 16);
      var a, d := HexText(n / 16), HexDigit(n % 16);
      assert (a + [d])[..|a|] == a;
    } else {
      assert HexText(n)[..0] == [];
    }
  }

  lemma SizeLineRoundTrip(n: nat)
    ensures ParseSizeLine(HexText(n)) == PayloadFraming.Bytes(n)
  {
    HexRoundTrip(n);
    FindByte(HexText(n), SEMICOLON, 0);
    assert SEMICOLON !in HexText(n);
  }

  lemma HexLineEnds(n: nat, rest: bytes)
    ensures var s := HexText(n) + CRLF + rest;
            OccursAt(s, CRLF, |HexText(n)|) && forall i :: 0 <= i < |HexText(n)| ==> !OccursAt(s, CRLF, i)
  {
    HexRoundTrip(n);
    var h := HexText(n);
    var s := h + CRLF + rest;
    forall i | 0 <= i < |h|
      ensures !OccursAt(s, CRLF, i)
    {
      assert IsHexDigit(h[i]);
      assert s[i..i + 2][0] == s[i] == h[i];
    }
  }

  /** Reading a chunk-size line that the writer printed. */
  lemma FeedSizeLine(n: nat)
    ensures Feed(Fresh, HexText(n) + CRLF)
         == if n == 0 then Start(Chunked(MaybeTrailers, []))
            else Start(Chunked(Chunk(n), [])).(begun := true)
  {
    var h := HexText(n);
    var s := h + CRLF;
    HexLineEnds(n, []);
    EmptySuffix(s);
    FeedLine(Fresh, Size, s, |h|);
    assert s[..|h| + 2] == s && s[..|h|] == h;
    SizeLineRoundTrip(n);
  }

  // ---------------------------------------------------------------------
  // One frame, all frames, the end.
  // ---------------------------------------------------------------------

  /** The run of one non-empty chunk. */
  function OneChunk(chunk: bytes): Parse {
    Parse(Chunked(Size, []), chunk, true, [|chunk|])
  }

  lemma FeedSizeAndData(chunk: bytes)
    requires chunk != []
    ensures Feed(Fresh, HexText(|chunk|) + CRLF + chunk)
         == Parse(Chunked(ChunkEof, []), chunk, true, [|chunk|])
  {
    var n := |chunk|;
    FeedSizeLine(n);
    FeedAppend(Fresh, HexText(n) + CRLF, chunk);
    FeedChunkWhole(Start(Chunked(Chunk(n), [])).(begun := true), chunk);
    EmptyPrefix(chunk);
  }

  lemma FeedFrame(chunk: bytes)
    requires chunk != []
    ensures Feed(Fresh, Frame(chunk)) == OneChunk(chunk)
  {
    var head := HexText(|chunk|) + CRLF + chunk;
    FeedSizeAndData(chunk);
    var q := Feed(Fresh, head);
    FeedAppend(Fresh, head, CRLF);
    FeedFrom(q, CRLF);
    BareCrlf();
    ThenIdle(q, Start(Chunked(Size, [])));
  }

  /** A continuation that only changes the mode. */
  lemma ThenIdle(p: Parse, q: Parse)
    requires q == Start(q.mode)
    ensures Then(p, q) == p.(mode := q.mode)
  {
    EmptySuffix(p.body);
  }

  /** The offsets at which the non-empty chunks end. */
  function EndOffsets(chunks: seq<bytes>, base: int): seq<int>
    decreases |chunks|
  {
    if chunks == [] then []
    else if chunks[0] == [] then EndOffsets(chunks[1..], base)
    else [base + |chunks[0]|] + EndOffsets(chunks[1..], base + |chunks[0]|)
  }

  lemma {:induction false} EndOffsetsShift(chunks: seq<bytes>, base: int)
    ensures EndOffsets(chunks, base) == Shift(EndOffsets(chunks, 0), base)
    decreases |chunks|
  {
    if chunks != [] {
      EndOffsetsShift(chunks[1..], base);
      EndOffsetsShift(chunks[1..], |chunks[0]|);
      EndOffsetsShift(chunks[1..], base + |chunks[0]|);
    }
  }

  /** What a run over the frames of `chunks` delivers. */
  function AllChunks(chunks: seq<bytes>): Parse {
    Parse(Chunked(Size, []), Join(chunks), Join(chunks) != [], EndOffsets(chunks, 0))
  }

  lemma {:induction false} FeedFrames(chunks: seq<bytes>)
    ensures Feed(Fresh, Frames(chunks)) == AllChunks(chunks)
    decreases |chunks|
  {
    if chunks != [] {
      var first, rest := chunks[0], chunks[1..];
      FeedFrames(rest);
      if first == [] {
        EmptyPrefix(Frames(rest));
        EmptyPrefix(Join(rest));
      } else {
        FeedFrame(first);
        FeedAppend(Fresh, Frame(first), Frames(rest));
        FeedFrom(OneChunk(first), Frames(rest));
        EndOffsetsShift(rest, |first|);
      }
    }
  }

  lemma FeedLastChunk()
    ensures Feed(Fresh, LAST_CHUNK) == Start(Finished([]))
  {
    assert LAST_CHUNK == (HexText(0) + CRLF) + CRLF;
    FeedSizeLine(0);
    FeedAppend(Fresh, HexText(0) + CRLF, CRLF);
    BareCrlf();
  }

  /** Everything `SendChunked` puts on the wire for one body. */
  function Encoding(chunks: seq<bytes>, last: bytes): bytes {
    Frames(chunks) + (Frame(last) + LAST_CHUNK)
  }

  lemma EncodingIsFrames(chunks: seq<bytes>, last: bytes)
    ensures Encoding(chunks, last) == Frames(chunks + [last]) + LAST_CHUNK
  {
    FramesSnoc(chunks, last);
    Assoc(Frames(chunks), Frame(last), LAST_CHUNK);
  }

  lemma {:induction false} FramesSnoc(chunks: seq<bytes>, last: bytes)
    ensures Frames(chunks + [last]) == Frames(chunks) + Frame(last)
    decreases |chunks|
  {
    if chunks == [] {
      assert chunks + [last] == [last];
      EmptyPrefix(Frame(last));
      EmptySuffix(Frame(last));
    } else {
      assert (chunks + [last])[1..] == chunks[1..] + [last];
      FramesSnoc(chunks[1..], last);
      Assoc(Frame(chunks[0]), Frames(chunks[1..]), Frame(last));
    }
  }

  /**
    The round trip: the body is the concatenation of what was written, the chunk
    ends are those of the non-empty chunks, and what follows is handed back.
   */
  lemma RoundTrip(chunks: seq<bytes>, last: bytes, trailing: bytes)
    ensures Feed(Fresh, Encoding(chunks, last) + trailing)
         == AllChunks(chunks + [last]).(mode := Finished(trailing))
  {
    var all := chunks + [last];
    var p := AllChunks(all);
    EncodingIsFrames(chunks, last);
    FeedFrames(all);
    FeedLastChunk();
    FeedAppend(Fresh, Frames(all), LAST_CHUNK);
    FeedFrom(p, LAST_CHUNK);
    ThenIdle(p, Start(Finished([])));
    FeedAppend(Fresh, Frames(all) + LAST_CHUNK, trailing);
    FeedFinished(p.(mode := Finished([])), trailing);
    EmptyPrefix(trailing);
  }

  /** However far the wire has been read, the end is known exactly when its last byte has been. */
  lemma EndsExactlyAtTheTerminator(chunks: seq<bytes>, last: bytes, trailing: bytes, k: nat)
    requires k <= |Encoding(chunks, last) + trailing|
    ensures var wire := Encoding(chunks, last) + trailing;
            var p := Feed(Fresh, wire[..k]);
            && (p.mode.Finished? <==> |Encoding(chunks, last)| <= k)
            && (p.mode.Finished? ==> p == AllChunks(chunks + [last]).(
                  mode := Finished(wire[|Encoding(chunks, last)|..k])))
            && !p.mode.Broken?
  {
    var code := Encoding(chunks, last);
    var wire := code + trailing;
    var p := Feed(Fresh, wire[..k]);
    if |code| <= k {
      assert wire[..k] == code + wire[|code|..k];
      RoundTrip(chunks, last, wire[|code|..k]);
    } else {
      assert wire[..k] == code[..k];
      RoundTrip(chunks, last, []);
      EmptySuffix(code);
      FeedSplit(Fresh, code, k);
      Unfinished(p, code[k..]);
    }
  }

  /** A run that ends with nothing left over had neither ended nor failed before its last byte. */
  lemma Unfinished(p: Parse, data: bytes)
    requires data != [] && Feed(p, data).mode == Finished([])
    ensures !p.mode.Finished? && !p.mode.Broken?
  {
    if p.mode.Finished? {
      FeedFinished(p, data);
    } else if p.mode.Broken? {
      FeedIgnored(p, data);
    }
  }

  /**
    The receiving side: one `feed_data` call for each piece the network delivers,
    until the parser reports the end of the body.
   */
  method Receive(parser: HP.HttpPayloadParser, pieces: seq<bytes>,
                 ghost chunks: seq<bytes>, ghost last: bytes, ghost trailing: bytes)
    returns (calls: nat, rest: bytes)
    requires parser.Valid() && !parser.payload.eof && !parser.done
    requires parser.Mode() == Chunked(Size, [])
    requires Join(pieces) == Encoding(chunks, last) + trailing
    modifies parser, parser.payload, parser.payload.protocol
    ensures parser.payload.Valid() && parser.payload.eof
    ensures parser.payload.Abs().Pending() == old(parser.payload.Abs()).Pending() + Join(chunks + [last])
    ensures parser.payload.Abs().splits.Some? ==>
              HP.SplitsOf(parser.payload.Abs())
              == HP.SplitsOf(old(parser.payload.Abs()))
                 + Shift(EndOffsets(chunks + [last], 0), old(parser.payload.totalBytes))
    // the end is reported by the call that carries the last byte of the terminator
    ensures 0 < calls <= |pieces|
    ensures |Join(pieces[..calls - 1])| < |Encoding(chunks, last)| <= |Join(pieces[..calls])|
    ensures rest + Join(pieces[calls..]) == trailing
  {
    ghost var s0 := parser.payload.Abs();
    ghost var acc := Fresh;
    HP.GaveNothing(s0, acc.mode);
    calls := 0;
    while true
      invariant 0 <= calls <= |pieces|
      invariant parser.Valid() && !parser.payload.eof && !parser.done
      invariant acc == Feed(Fresh, Join(pieces[..calls])) && acc.mode == parser.Mode()
      invariant HP.Gave(s0, parser.payload.Abs(), acc)
      decreases |pieces| - calls
    {
      NotYet(pieces, calls, chunks, last, trailing);
      ghost var s1 := parser.payload.Abs();
      var r := parser.FeedData(pieces[calls]);
      ghost var q := Feed(Start(acc.mode), pieces[calls]);
      HP.GaveThen(s0, s1, parser.payload.Abs(), acc, q);
      OneMorePiece(pieces, calls);
      calls := calls + 1;
      acc := Then(acc, q);
      AfterPieces(pieces, calls, chunks, last, trailing);
      if r.AtEof? {
        return calls, r.rest;
      }
    }
  }

  lemma OneMorePiece(pieces: seq<bytes>, k: nat)
    requires k < |pieces|
    ensures var p := Feed(Fresh, Join(pieces[..k]));
            Feed(Fresh, Join(pieces[..k + 1])) == Then(p, Feed(Start(p.mode), pieces[k]))
  {
    JoinPrefix(pieces, k);
    TwoCallsAreOne(Fresh.mode, Join(pieces[..k]), pieces[k]);
  }

  /** The state of the reception after k pieces. */
  lemma AfterPieces(pieces: seq<bytes>, k: nat, chunks: seq<bytes>, last: bytes, trailing: bytes)
    requires k <= |pieces| && Join(pieces) == Encoding(chunks, last) + trailing
    ensures var p := Feed(Fresh, Join(pieces[..k]));
            && !p.mode.Broken?
            && (p.mode.Finished? <==> |Encoding(chunks, last)| <= |Join(pieces[..k])|)
            && (p.mode.Finished? ==> p.mode.leftover + Join(pieces[k..]) == trailing
                                     && p.body == Join(chunks + [last])
                                     && p.ends == EndOffsets(chunks + [last], 0))
  {
    var n, a := |Encoding(chunks, last)|, Join(pieces[..k]);
    var wire := Encoding(chunks, last) + trailing;
    JoinPrefix(pieces, k);
    EndsExactlyAtTheTerminator(chunks, last, trailing, |a|);
    if n <= |a| {
      RestOfWire(wire, n, a, Join(pieces[k..]));
      assert wire[n..] == trailing;
    }
  }

  /** Before the end there is another piece to come. */
  lemma NotYet(pieces: seq<bytes>, k: nat, chunks: seq<bytes>, last: bytes, trailing: bytes)
    requires k <= |pieces| && Join(pieces) == Encoding(chunks, last) + trailing
    requires !Feed(Fresh, Join(pieces[..k])).mode.Finished?
    ensures k < |pieces| && |Join(pieces[..k])| < |Encoding(chunks, last)|
  {
    AfterPieces(pieces, k, chunks, last, trailing);
    assert pieces[..|pieces|] == pieces;
  }

  lemma JoinPrefix(pieces: seq<bytes>, k: nat)
    requires k <= |pieces|
    ensures Join(pieces[..k]) + Join(pieces[k..]) == Join(pieces)
    ensures |Join(pieces[..k])| <= |Join(pieces)|
    ensures Join(pieces[..k]) == Join(pieces)[..|Join(pieces[..k])|]
    ensures k < |pieces| ==> Join(pieces[..k + 1]) == Join(pieces[..k]) + pieces[k]
  {
    assert pieces == pieces[..k] + pieces[k..];
    JoinAppend(pieces[..k], pieces[k..]);
    if k < |pieces| {
      assert pieces[..k + 1] == pieces[..k] + [pieces[k]];
      JoinSnoc(pieces[..k], pieces[k]);
    }
  }

  lemma RestOfWire(wire: bytes, n: nat, a: bytes, b: bytes)
    requires wire == a + b && n <= |a|
    ensures wire[n..|a|] + b == wire[n..]
  {
  }
}
