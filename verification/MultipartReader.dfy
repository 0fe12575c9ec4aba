/**
  `MultipartReader` (multipart.py) for bodies of plain parts: neither nested nor
  transfer-encoded, and not form data with a `_charset_` part. `ReadAll`, which
  takes the parts one by one off a stream that arrives in any segments, is proved
  to return what `MultipartFormat.Parts` makes of the whole body.
 */
module MultipartReaders {
  import opened Options
  import opened Bytes
  import opened StreamReaders
  import opened BodyPartReaders
  import MF = MultipartFormat

  /** `BodyPartReader.chunk_size`. */
  const CHUNK_SIZE: nat := 8192

  datatype NextResult = Part(part: BodyPartReader) | End | Failed

  /** A line as `MF.FirstLine` has it is the line that the stream returns. */
  lemma LineIsFirst(whole: bytes, line: bytes, rest: bytes)
    requires whole == line + rest && (EndsLine(line, LF) || (LF !in line && rest == []))
    ensures line == MF.FirstLine(whole) && rest == whole[|line|..]
  {
    var n := |line| - 1;
    assert whole[..|line|] == line;
    if EndsLine(line, LF) {
      forall i | 0 <= i < n
        ensures !OccursAt(whole, [LF], i)
      {
        assert whole[i..i + 1] == [whole[i]] && whole[i] == line[..n][i];
      }
      assert whole[n..n + 1] == [LF];
      FindUnique(whole, [LF], 0, n);
    } else {
      EmptySuffix(line);
      FindByte(whole, LF, 0);
    }
  }

  /** A line that has grown too long belongs to a first line that is too long. */
  lemma TooLongIsFirst(whole: bytes, lost: bytes, rest: bytes)
    requires whole == lost + rest && lost != [] && (EndsLine(lost, LF) || LF !in lost)
    ensures |lost| <= |MF.FirstLine(whole)|
  {
    FindByte(whole, LF, 0);
    assert forall i :: 0 <= i < |lost| - 1 ==> whole[i] == lost[..|lost| - 1][i];
  }

  method ReadLine(content: StreamReader) returns (r: ReadResult)
    requires content.Valid()
    modifies content, content.protocol
    ensures r.Got? ==>
      && content.Valid() && (old(content.Healthy()) ==> content.Healthy())
      && r.data == MF.FirstLine(old(content.Whole())) && |r.data| <= content.highWater
      && content.Whole() == old(content.Whole())[|r.data|..]
    ensures old(content.Healthy()) ==> (r.Got? <==> |MF.FirstLine(old(content.Whole()))| <= content.highWater)
  {
    ghost var whole := content.Whole();
    r := content.ReadUntil(LF);
    if r.Got? {
      LineIsFirst(whole, r.data, content.Whole());
    } else if r.TooBig? {
      TooLongIsFirst(whole, r.lost, content.Whole());
    }
  }

  /** The header lines of a whole are `lines` and then those of what follows. */
  ghost predicate Continues(all: Option<(seq<bytes>, bytes)>, lines: seq<bytes>, more: Option<(seq<bytes>, bytes)>) {
    && (all.Some? <==> more.Some?)
    && (all.Some? ==> all.value.0 == lines + more.value.0 && all.value.1 == more.value.1)
  }

  lemma NoHeadersYet(all: Option<(seq<bytes>, bytes)>)
    ensures Continues(all, [], all)
  {
    assert all.Some? ==> [] + all.value.0 == all.value.0;
  }

  lemma HeadersEnd(all: Option<(seq<bytes>, bytes)>, lines: seq<bytes>, rest: bytes)
    requires Continues(all, lines, Some(([], rest)))
    ensures all == Some((lines, rest))
  {
    assert lines + [] == lines;
  }

  lemma HeadersGoOn(all: Option<(seq<bytes>, bytes)>, lines: seq<bytes>, line: bytes,
                    before: Option<(seq<bytes>, bytes)>, after: Option<(seq<bytes>, bytes)>)
    requires Continues(all, lines, before)
    requires before.Some? <==> after.Some?
    requires before.Some? ==> before.value.0 == [line] + after.value.0 && before.value.1 == after.value.1
    ensures Continues(all, lines + [line], after)
  {
    if after.Some? {
      assert lines + ([line] + after.value.0) == (lines + [line]) + after.value.0;
    }
  }

  class MultipartReader {
    const c: MF.Config                 // its boundary has the two dashes
    const content: StreamReader
    var lastPart: BodyPartReader?
    var atEof: bool
    var atBof: bool

    ghost predicate ConfigOk()
      reads content
    {
      c.limit == content.highWater && 2 <= c.limit && c.boundary != [] && |CRLF + c.boundary| <= CHUNK_SIZE
    }

    ghost predicate PartOk(part: BodyPartReader)
      reads part, content
    {
      && part.content == content && part.boundary == c.boundary && content.Valid()
      && (!part.atEof ==> part.InBody(CHUNK_SIZE))
    }

    ghost predicate Valid()
      reads this, lastPart, content
    {
      ConfigOk() && content.Valid() && (lastPart != null ==> PartOk(lastPart))
    }

    /** What the stream holds behind the part that is being read; nothing if that part has no end. */
    ghost function Ahead(): Option<bytes>
      reads this, lastPart, content
      requires Valid()
    {
      if lastPart == null || lastPart.atEof then Some(content.Whole())
      else
        var e := lastPart.End();
        if 0 <= e && e + 2 <= |lastPart.Rest()| then Some(lastPart.Rest()[e + 2..]) else None
    }

    constructor (c: MF.Config, content: StreamReader)
      requires content.Valid() && c.limit == content.highWater && 2 <= c.limit
      requires c.boundary != [] && |CRLF + c.boundary| <= CHUNK_SIZE
      ensures Valid() && this.c == c && this.content == content && atBof && !atEof
      ensures Ahead() == Some(content.Whole()) && lastPart == null
    {
      this.c, this.content, lastPart, atEof, atBof := c, content, null, false, true;
    }

    /** `_maybe_release_last_part`. */
    method ReleaseLastPart() returns (r: ReadResult)
      requires Valid()
      modifies this`lastPart, lastPart, content, content.protocol
      ensures r.Got? ==>
        && content.Valid() && (old(content.Healthy()) ==> content.Healthy()) && lastPart == null
        && old(Ahead()) == Some(content.Whole())
      ensures old(content.Healthy()) ==> (r.Got? <==> old(Ahead()).Some?)
    {
      r := Got([]);
      if lastPart != null {
        if !lastPart.atEof {
          var _ :- lastPart.Read(CHUNK_SIZE);
        }
        lastPart := null;
      }
    }

    /** `_read_until_first_boundary`. */
    method SkipToBoundary() returns (r: ReadResult)
      requires ConfigOk() && content.Valid() && !atEof
      modifies this`atEof, content, content.protocol
      ensures r.Got? ==> content.Valid() && (old(content.Healthy()) ==> content.Healthy())
      ensures var found := MF.SkipToBoundary(c, old(content.Whole()));
              && (r.Got? && !atEof ==> found == MF.Part(content.Whole()))
              && (r.Got? && atEof ==> found.End?)
              && (old(content.Healthy()) ==> (r.Got? <==> !found.Nothing?))
    {
      ghost var whole := content.Whole();
      while true
        invariant ConfigOk() && content.Valid() && !atEof
        invariant old(content.Healthy()) ==> content.Healthy()
        invariant MF.SkipToBoundary(c, content.Whole()) == MF.SkipToBoundary(c, whole)
        decreases |content.Whole()|
      {
        var line :- ReadLine(content);
        if line == [] {
          return Raised;
        }
        var chunk := MF.RStrip(line);
        if chunk == c.boundary {
          return Got([]);
        } else if chunk == c.boundary + MF.DASHES {
          atEof := true;
          return Got([]);
        }
      }
    }

    /** `_read_boundary`. */
    method ReadBoundary() returns (r: ReadResult)
      requires ConfigOk() && content.Valid() && !atEof
      modifies this`atEof, content, content.protocol
      ensures r.Got? ==> content.Valid() && (old(content.Healthy()) ==> content.Healthy())
      ensures var found := MF.NextBoundary(c, old(content.Whole()));
              && (r.Got? && !atEof ==> found == MF.Part(content.Whole()))
              && (r.Got? && atEof ==> found.End?)
              && (old(content.Healthy()) ==> (r.Got? <==> !found.Nothing?))
    {
      var line :- ReadLine(content);
      var chunk := MF.RStrip(line);
      if chunk == c.boundary {
        r := Got([]);
      } else if chunk == c.boundary + MF.DASHES {
        atEof := true;
        r := ReadEpilogue();
      } else {
        r := Raised;
      }
    }

    /** The two lines behind the last boundary, kept for an outer reader, which there is none of here. */
    method ReadEpilogue() returns (r: ReadResult)
      requires ConfigOk() && content.Valid()
      modifies content, content.protocol
      ensures r.Got? ==> content.Valid() && (old(content.Healthy()) ==> content.Healthy())
      ensures r.Got? ==> MF.EpilogueOk(c, old(content.Whole()))
      ensures old(content.Healthy()) ==> (r.Got? <==> MF.EpilogueOk(c, old(content.Whole())))
    {
      var _ :- ReadLine(content);
      r := ReadLine(content);
    }

    /** `_read_headers`. */
    method ReadHeaders() returns (r: ReadResult, lines: seq<bytes>)
      requires ConfigOk() && content.Valid()
      modifies content, content.protocol
      ensures r.Got? ==> content.Valid() && (old(content.Healthy()) ==> content.Healthy())
      ensures r.Got? ==> MF.HeaderLines(c, old(content.Whole())) == Some((lines, content.Whole()))
      ensures old(content.Healthy()) ==> (r.Got? <==> MF.HeaderLines(c, old(content.Whole())).Some?)
    {
      lines := [];
      ghost var whole := content.Whole();
      NoHeadersYet(MF.HeaderLines(c, whole));
      while true
        invariant ConfigOk() && content.Valid() && (old(content.Healthy()) ==> content.Healthy())
        invariant Continues(MF.HeaderLines(c, whole), lines, MF.HeaderLines(c, content.Whole()))
        decreases |content.Whole()|
      {
        ghost var before := MF.HeaderLines(c, content.Whole());
        r := ReadLine(content);
        if !r.Got? {
          return;
        }
        var chunk := MF.Strip(r.data);
        if chunk == [] {
          HeadersEnd(MF.HeaderLines(c, whole), lines, content.Whole());
          return;
        }
        HeadersGoOn(MF.HeaderLines(c, whole), lines, chunk, before, MF.HeaderLines(c, content.Whole()));
        lines := lines + [chunk];
      }
    }

    /** The next boundary, and the headers behind it. */
    method Seek() returns (r: ReadResult, length: Option<nat>)
      requires ConfigOk() && content.Valid() && !atEof
      modifies this`atEof, this`atBof, content, content.protocol
      ensures r.Got? ==> content.Valid() && (old(content.Healthy()) ==> content.Healthy()) && !atBof
      ensures var opening := MF.Open(c, old(content.Whole()), old(atBof));
              && (r.Got? && !atEof ==> opening == MF.OpenPart(length, content.Whole()))
              && (r.Got? && atEof ==> opening.AtEnd?)
              && (old(content.Healthy()) ==> (r.Got? <==> !opening.Bad?))
    {
      length := None;
      if atBof {
        r := SkipToBoundary();
        atBof := false;
      } else {
        r := ReadBoundary();
      }
      if !r.Got? || atEof {
        return;
      }
      var lines;
      r, lines := ReadHeaders();
      if r.Got? {
        var headers := c.headersOf(lines);
        if headers.BadHeaders? {
          r := Raised;
        } else {
          length := headers.length;
        }
      }
    }

    /** `next`: the parts in order, whether the one before was read or not. */
    method Next() returns (r: NextResult)
      requires Valid()
      modifies this, lastPart, content, content.protocol
      ensures !r.Failed? ==> content.Valid() && (old(content.Healthy()) ==> content.Healthy())
      ensures r.End? ==> atEof
      ensures r.Part? ==> Valid() && fresh(r.part) && lastPart == r.part && !atEof && !atBof
      ensures old(atEof) ==> r.End?
      ensures !old(atEof) && !r.Failed? ==> old(Ahead()).Some?
      ensures !old(atEof) && old(Ahead()).Some? ==>
        var opening := MF.Open(c, old(Ahead()).value, old(atBof));
        && (r.End? ==> opening.AtEnd?)
        && (r.Part? ==> opening == MF.OpenPart(r.part.length, content.Whole()) && IsNew(r.part))
        && (old(content.Healthy()) ==> (r.Failed? <==> opening.Bad?))
    {
      if atEof {
        return End;
      }
      var released := ReleaseLastPart();
      if !released.Got? {
        return Failed;
      }
      var found, length := Seek();
      if !found.Got? {
        return Failed;
      }
      if atEof {
        return End;
      }
      var part := new BodyPartReader(c.boundary, length, content);
      lastPart := part;
      return Part(part);
    }

    /** Nothing of the part has been read. */
    ghost predicate IsNew(part: BodyPartReader)
      reads part, content
    {
      PartOk(part) && !part.atEof && part.Rest() == content.Whole()
      && part.End() == MF.BodyEnd(c.boundary, part.length, content.Whole())
    }
  }

  datatype Turn = Body(data: bytes) | NoMore | Broken

  /** The reader has met the end of each part it handed out. */
  ghost predicate AtBoundary(reader: MultipartReader)
    reads reader, reader.lastPart, reader.content
  {
    reader.Valid() && !reader.atEof && reader.Ahead() == Some(reader.content.Whole())
  }

  /** A turn that meets what the stream held, and leaves `rest` behind. */
  ghost predicate TurnOk(turn: Turn, boundary: bytes, opening: MF.Opening, rest: bytes, healthy: bool) {
    var e := if opening.OpenPart? then MF.BodyEnd(boundary, opening.length, opening.body) else -1;
    match turn
    case NoMore => opening.AtEnd?
    case Body(data) => 0 <= e && data == opening.body[..e] && rest == opening.body[e + 2..]
    case Broken => healthy ==> !opening.AtEnd? && e < 0
  }

  lemma TurnOfParts(c: MF.Config, s: bytes, atBof: bool, turn: Turn, rest: bytes, healthy: bool)
    requires c.boundary != [] && TurnOk(turn, c.boundary, MF.Open(c, s, atBof), rest, healthy)
    ensures var before := MF.Parts(c, s, atBof);
            match turn
            case NoMore => before == MF.Bodies([])
            case Body(data) => |rest| < |s| && Precedes(data, before, MF.Parts(c, rest, false))
            case Broken => healthy ==> before.Malformed?
  {
  }

  /** The body of a part that has just been handed out. */
  method ReadBody(reader: MultipartReader, part: BodyPartReader) returns (r: ReadResult)
    requires reader.Valid() && !reader.atEof && reader.lastPart == part && reader.IsNew(part)
    modifies part, reader.content, reader.content.protocol
    ensures r.Got? ==> AtBoundary(reader) && (old(reader.content.Healthy()) ==> reader.content.Healthy())
    ensures r.Got? ==>
      var rest := old(reader.content.Whole());
      var e := MF.BodyEnd(reader.c.boundary, part.length, rest);
      0 <= e && r.data == rest[..e] && reader.content.Whole() == rest[e + 2..]
    ensures old(reader.content.Healthy()) ==>
      (r.Got? <==> 0 <= MF.BodyEnd(reader.c.boundary, part.length, old(reader.content.Whole())))
  {
    ghost var whole, e := reader.content.Whole(), part.End();
    assert part.Rest() == whole && e == MF.BodyEnd(reader.c.boundary, part.length, whole);
    r := part.Read(CHUNK_SIZE);
    if r.Got? {
      assert r.data == whole[..e] && reader.content.Whole() == whole[e + 2..];
      assert reader.Ahead() == Some(reader.content.Whole());
    }
  }

  /** One part, from its boundary to its end. */
  method ReadPart(reader: MultipartReader) returns (r: Turn)
    requires AtBoundary(reader)
    modifies reader, reader.lastPart, reader.content, reader.content.protocol
    ensures r.Body? ==> AtBoundary(reader) && !reader.atBof && fresh(reader.lastPart)
    ensures r.Body? && old(reader.content.Healthy()) ==> reader.content.Healthy()
    ensures TurnOk(r, reader.c.boundary, MF.Open(reader.c, old(reader.content.Whole()), old(reader.atBof)),
                   if r.Body? then reader.content.Whole() else [], old(reader.content.Healthy()))
  {
    var next := reader.Next();
    if next.Failed? {
      return Broken;
    }
    if next.End? {
      return NoMore;
    }
    var body := ReadBody(reader, next.part);
    if !body.Got? {
      return Broken;
    }
    return Body(body.data);
  }

  /** Reads all the parts; None if the reader stops with an error. */
  method ReadAll(reader: MultipartReader) returns (bodies: Option<seq<bytes>>)
    requires AtBoundary(reader) && reader.atBof && reader.lastPart == null
    modifies reader, reader.content, reader.content.protocol
    ensures old(reader.content.Healthy()) ==>
              bodies == match MF.Parts(reader.c, old(reader.content.Whole()), true)
                        case Bodies(all) => Some(all)
                        case Malformed => None
  {
    ghost var all := MF.Parts(reader.c, reader.content.Whole(), true);
    var done: seq<bytes> := [];
    NothingYet(all);
    while true
      invariant AtBoundary(reader) && (reader.lastPart == null || fresh(reader.lastPart))
      invariant old(reader.content.Healthy()) ==> reader.content.Healthy()
      invariant GoesOn(all, done, MF.Parts(reader.c, reader.content.Whole(), reader.atBof))
      decreases |reader.content.Whole()|
    {
      ghost var s, atBof := reader.content.Whole(), reader.atBof;
      ghost var before, healthy := MF.Parts(reader.c, s, atBof), reader.content.Healthy();
      var turn := ReadPart(reader);
      TurnOfParts(reader.c, s, atBof, turn, if turn.Body? then reader.content.Whole() else [], healthy);
      if turn.Broken? {
        return None;
      }
      if turn.NoMore? {
        NothingMore(all, done, before);
        return Some(done);
      }
      OneMore(all, done, turn.data, before, MF.Parts(reader.c, reader.content.Whole(), false));
      done := done + [turn.data];
    }
  }

  ghost predicate Precedes(body: bytes, before: MF.Parsed, more: MF.Parsed) {
    && (before.Bodies? <==> more.Bodies?)
    && (before.Bodies? ==> before.bodies == [body] + more.bodies)
  }

  /** The bodies of a whole are `done` and then those of what follows. */
  ghost predicate GoesOn(all: MF.Parsed, done: seq<bytes>, more: MF.Parsed) {
    && (all.Bodies? <==> more.Bodies?)
    && (all.Bodies? ==> all.bodies == done + more.bodies)
  }

  lemma NothingYet(all: MF.Parsed)
    ensures GoesOn(all, [], all)
  {
    assert all.Bodies? ==> [] + all.bodies == all.bodies;
  }

  lemma NothingMore(all: MF.Parsed, done: seq<bytes>, more: MF.Parsed)
    requires GoesOn(all, done, more) && more == MF.Bodies([])
    ensures all == MF.Bodies(done)
  {
    assert done + [] == done;
  }

  lemma OneMore(all: MF.Parsed, done: seq<bytes>, body: bytes, before: MF.Parsed, more: MF.Parsed)
    requires GoesOn(all, done, before) && Precedes(body, before, more)
    ensures GoesOn(all, done + [body], more)
  {
    if more.Bodies? {
      assert done + ([body] + more.bodies) == (done + [body]) + more.bodies;
    }
  }
}
