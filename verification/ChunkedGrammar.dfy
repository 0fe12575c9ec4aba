/**
  Chunked bodies as the standard writes them (section 7.1 of RFC 9112), not only as
  our own writer does: sizes in digits of either case and with leading zeros, chunk
  extensions, trailer lines. The payload parser takes them all, and refuses every
  other size line.
 */
module ChunkedGrammar {
  import opened Bytes
  import opened PayloadFraming
  import CR = ChunkedRoundTrip

  // ---------------------------------------------------------------------
  // Size lines.
  // ---------------------------------------------------------------------

  const LOWER: string := "0123456789abcdef"
  const UPPER: string := "0123456789ABCDEF"

  /** The sixteen digits, in either case. */
  lemma DigitValues(d: nat)
    requires d < 16
    ensures var l, u := LOWER[d] as int, UPPER[d] as int;
            l < 256 && u < 256 && IsHexDigit(l) && IsHexDigit(u) && HexDigitValue(l) == d && HexDigitValue(u) == d
  {
  }

  /** ... and nothing else is one. */
  lemma OnlyDigits(b: byte)
    ensures IsHexDigit(b) <==> exists d :: 0 <= d < 16 && (LOWER[d] as int == b || UPPER[d] as int == b)
  {
    if IsHexDigit(b) {
      DigitValues(HexDigitValue(b));
      var d := HexDigitValue(b);
      assert LOWER[d] as int == b || UPPER[d] as int == b;
    } else {
      forall d | 0 <= d < 16
        ensures LOWER[d] as int != b && UPPER[d] as int != b
      {
        DigitValues(d);
      }
    }
  }

  /** Nothing, or a semicolon and what follows it in the line. */
  predicate IsExtension(ext: bytes) {
    ext == [] || (ext[0] == 59 && LF !in ext)
  }

  lemma ExtensionFound(size: bytes, ext: bytes)
    requires 59 !in size && (ext == [] || ext[0] == 59)
    ensures Find(size + ext, [SEMICOLON], 0) == if ext == [] then -1 else |size|
  {
    var s := size + ext;
    FindByte(s, SEMICOLON, 0);
    forall i | 0 <= i < |size|
      ensures !OccursAt(s, [SEMICOLON], i)
    {
      assert s[i..i + 1] == [size[i]];
    }
    if ext != [] {
      assert s[|size|..|size| + 1] == [SEMICOLON];
      FindUnique(s, [SEMICOLON], 0, |size|);
    } else {
      assert s == size;
    }
  }

  lemma NoSemicolon(size: bytes)
    requires AllHex(size)
    ensures 59 !in size && LF !in size && 13 !in size
  {
  }

  /** A size line is hex digits and perhaps an extension, and stands for the number they spell. */
  lemma SizeLineTaken(size: bytes, ext: bytes)
    requires size != [] && AllHex(size) && IsExtension(ext)
    ensures ParseSizeLine(size + ext) == PayloadFraming.Bytes(HexValue(size))
  {
    NoSemicolon(size);
    ExtensionFound(size, ext);
    assert (size + ext)[..|size|] == size && (size + ext)[|size|..] == ext;
    assert ext == [] ==> size + ext == size;
  }

  /** Any other line is an error, which tells a line feed behind a semicolon from a wrong size. */
  lemma SizeLineRefused(size: bytes, ext: bytes)
    requires 59 !in size && (ext == [] || ext[0] == 59) && (size == [] || !AllHex(size) || LF in ext)
    ensures ParseSizeLine(size + ext) == Bad(if LF in ext then LfInChunkExtension else BadChunkSize)
  {
    ExtensionFound(size, ext);
    assert (size + ext)[..|size|] == size && (size + ext)[|size|..] == ext;
    assert ext == [] ==> size + ext == size;
  }

  lemma LineEnds(line: bytes)
    requires LF !in line
    ensures OccursAt(line + CRLF, CRLF, |line|) && forall i :: 0 <= i < |line| ==> !OccursAt(line + CRLF, CRLF, i)
    ensures NoCrlf(line)
  {
    var s := line + CRLF;
    assert s[|line|..|line| + 2] == CRLF;
    forall i | 0 <= i < |line|
      ensures !OccursAt(s, CRLF, i)
    {
      assert s[i..i + 2][1] == s[i + 1] && (i + 1 < |line| ==> s[i + 1] == line[i + 1]);
    }
    forall i
      ensures !OccursAt(line, CRLF, i)
    {
      if 0 <= i && i + 2 <= |line| {
        assert line[i..i + 2][1] == line[i + 1];
      }
    }
  }

  /** One line in a phase that collects lines. */
  lemma FeedOneLine(p: Parse, phase: Phase, line: bytes)
    requires CollectsLines(phase) && p.mode == Chunked(phase, []) && LF !in line
    ensures Feed(p, line + CRLF) == OnLine(p, phase, line)
  {
    LineEnds(line);
    FeedLine(p, phase, line + CRLF, |line|);
    assert (line + CRLF)[..|line| + 2] == line + CRLF && (line + CRLF)[..|line|] == line;
  }

  /** What a size line without a line feed leads to. */
  lemma FeedSize(p: Parse, size: bytes, ext: bytes)
    requires p.mode == Chunked(Size, []) && LF !in size + ext && 59 !in size && (ext == [] || ext[0] == 59)
    ensures Feed(p, size + ext + CRLF) ==
              if size == [] || !AllHex(size) then p.(mode := Broken(BadChunkSize))
              else if HexValue(size) == 0 then p.(mode := Chunked(MaybeTrailers, []))
              else p.(mode := Chunked(Chunk(HexValue(size)), []), begun := true)
  {
    assert forall b :: b in ext ==> b in size + ext;
    FeedOneLine(p, Size, size + ext);
    if size == [] || !AllHex(size) {
      SizeLineRefused(size, ext);
    } else {
      SizeLineTaken(size, ext);
    }
  }

  // ---------------------------------------------------------------------
  // Whole bodies.
  // ---------------------------------------------------------------------

  datatype WireChunk = WireChunk(size: bytes, ext: bytes, data: bytes)

  /** The digits spell the number of bytes, which is not 0. */
  predicate ChunkOk(w: WireChunk) {
    w.data != [] && w.size != [] && AllHex(w.size) && HexValue(w.size) == |w.data| && IsExtension(w.ext)
  }

  /** The digits of the last chunk spell 0. */
  predicate LastOk(w: WireChunk) {
    w.data == [] && w.size != [] && AllHex(w.size) && HexValue(w.size) == 0 && IsExtension(w.ext)
  }

  predicate TrailerOk(line: bytes) {
    line != [] && LF !in line
  }

  function ChunkWire(w: WireChunk): bytes {
    (w.size + w.ext + CRLF) + (w.data + CRLF)
  }

  function ChunksWire(all: seq<WireChunk>): bytes {
    if all == [] then [] else ChunkWire(all[0]) + ChunksWire(all[1..])
  }

  function TrailersWire(lines: seq<bytes>): bytes {
    if lines == [] then CRLF else (lines[0] + CRLF) + TrailersWire(lines[1..])
  }

  function BodyWire(all: seq<WireChunk>, last: WireChunk, trailers: seq<bytes>): bytes {
    ChunksWire(all) + ((last.size + last.ext + CRLF) + TrailersWire(trailers))
  }

  function Datas(all: seq<WireChunk>): seq<bytes> {
    if all == [] then [] else [all[0].data] + Datas(all[1..])
  }

  lemma FeedSizeOf(w: WireChunk)
    requires ChunkOk(w)
    ensures Feed(CR.Fresh, w.size + w.ext + CRLF) == Start(Chunked(Chunk(|w.data|), [])).(begun := true)
  {
    NoSemicolon(w.size);
    assert forall b :: b in w.size + w.ext ==> b in w.size || b in w.ext;
    FeedSize(CR.Fresh, w.size, w.ext);
  }

  lemma FeedData(data: bytes)
    requires data != []
    ensures Feed(Start(Chunked(Chunk(|data|), [])).(begun := true), data)
         == Parse(Chunked(ChunkEof, []), data, true, [|data|])
  {
    var p := Start(Chunked(Chunk(|data|), [])).(begun := true);
    FeedChunkWhole(p, data);
    EmptyPrefix(data);
    assert p.ends + [0 + |data|] == [|data|];
  }

  lemma FeedDataEnd(data: bytes)
    ensures Feed(Parse(Chunked(ChunkEof, []), data, true, [|data|]), CRLF) == CR.OneChunk(data)
  {
    var q := Parse(Chunked(ChunkEof, []), data, true, [|data|]);
    FeedFrom(q, CRLF);
    BareCrlf();
    CR.ThenIdle(q, Start(Chunked(Size, [])));
  }

  lemma FeedChunk(w: WireChunk)
    requires ChunkOk(w)
    ensures Feed(CR.Fresh, ChunkWire(w)) == CR.OneChunk(w.data)
  {
    FeedSizeOf(w);
    FeedData(w.data);
    FeedDataEnd(w.data);
    FeedAppend(CR.Fresh, w.size + w.ext + CRLF, w.data + CRLF);
    FeedAppend(Start(Chunked(Chunk(|w.data|), [])).(begun := true), w.data, CRLF);
  }

  lemma {:induction false} FeedChunks(all: seq<WireChunk>)
    requires forall i :: 0 <= i < |all| ==> ChunkOk(all[i])
    ensures Feed(CR.Fresh, ChunksWire(all)) == CR.AllChunks(Datas(all))
    decreases |all|
  {
    if all != [] {
      var first, rest := all[0], all[1..];
      FeedChunks(rest);
      FeedChunk(first);
      FeedAppend(CR.Fresh, ChunkWire(first), ChunksWire(rest));
      FeedFrom(CR.OneChunk(first.data), ChunksWire(rest));
      CR.EndOffsetsShift(Datas(rest), |first.data|);
      assert Datas(all)[1..] == Datas(rest);
    }
  }

  /** Behind a byte or two that are no CRLF, a line is a trailer line. */
  lemma SameAfterTwo(b: byte)
    requires b != 10
    ensures Feed(Start(Chunked(MaybeTrailers, [])), [13, b]) == Feed(Start(Chunked(Trailers, [])), [13, b])
  {
    var p, q := Start(Chunked(MaybeTrailers, [])), Start(Chunked(Trailers, []));
    EmptyPrefix([13]);
    FeedTwo(p, 13, b);
    FeedTwo(q, 13, b);
    assert [13] + [b] == [13, b];
    assert [13, b][0..] == [13, b];
  }

  lemma SameAfterOne(b: byte)
    requires b != 13
    ensures Feed(Start(Chunked(MaybeTrailers, [])), [b]) == Feed(Start(Chunked(Trailers, [])), [b])
  {
    EmptyPrefix([b]);
    FeedOne(Start(Chunked(MaybeTrailers, [])), b);
    FeedOne(Start(Chunked(Trailers, [])), b);
  }

  lemma SameForALine(s: bytes)
    requires |s| >= 2 && !(s[0] == 13 && s[1] == 10)
    ensures Feed(Start(Chunked(MaybeTrailers, [])), s) == Feed(Start(Chunked(Trailers, [])), s)
  {
    var k := if s[0] == 13 then 2 else 1;
    if s[0] == 13 {
      assert s[..k] == [13, s[1]];
      SameAfterTwo(s[1]);
    } else {
      assert s[..k] == [s[0]];
      SameAfterOne(s[0]);
    }
    FeedSplit(Start(Chunked(MaybeTrailers, [])), s, k);
    FeedSplit(Start(Chunked(Trailers, [])), s, k);
  }

  /** A trailer line is skipped, also where only the end could have come. */
  lemma FeedTrailer(line: bytes)
    requires TrailerOk(line)
    ensures Feed(Start(Chunked(MaybeTrailers, [])), line + CRLF) == Start(Chunked(MaybeTrailers, []))
  {
    var s := line + CRLF;
    assert s[1] == if |line| > 1 then line[1] else 13;
    FeedOneLine(Start(Chunked(Trailers, [])), Trailers, line);
    SameForALine(s);
  }

  lemma {:induction false} FeedTrailers(lines: seq<bytes>)
    requires forall i :: 0 <= i < |lines| ==> TrailerOk(lines[i])
    ensures Feed(Start(Chunked(MaybeTrailers, [])), TrailersWire(lines)) == Start(Finished([]))
    decreases |lines|
  {
    var p := Start(Chunked(MaybeTrailers, []));
    if lines == [] {
      BareCrlf();
    } else {
      FeedTrailer(lines[0]);
      FeedAppend(p, lines[0] + CRLF, TrailersWire(lines[1..]));
      FeedTrailers(lines[1..]);
    }
  }

  /** Every body of the grammar: its data, its chunk ends, and what follows it untouched. */
  lemma EveryBodyIsRead(all: seq<WireChunk>, last: WireChunk, trailers: seq<bytes>, trailing: bytes)
    requires (forall i :: 0 <= i < |all| ==> ChunkOk(all[i])) && LastOk(last)
    requires forall i :: 0 <= i < |trailers| ==> TrailerOk(trailers[i])
    ensures Feed(CR.Fresh, BodyWire(all, last, trailers) + trailing)
         == CR.AllChunks(Datas(all)).(mode := Finished(trailing))
  {
    var p, line := CR.AllChunks(Datas(all)), last.size + last.ext + CRLF;
    var q := p.(mode := Chunked(MaybeTrailers, []));
    FeedChunks(all);
    FeedAppend(CR.Fresh, ChunksWire(all), line + TrailersWire(trailers));
    NoSemicolon(last.size);
    assert forall b :: b in last.size + last.ext ==> b in last.size || b in last.ext;
    FeedSize(p, last.size, last.ext);
    FeedAppend(p, line, TrailersWire(trailers));
    FeedTrailers(trailers);
    FeedFrom(q, TrailersWire(trailers));
    CR.ThenIdle(q, Start(Finished([])));
    FeedAppend(CR.Fresh, BodyWire(all, last, trailers), trailing);
    FeedFinished(p.(mode := Finished([])), trailing);
    EmptyPrefix(trailing);
  }
}
