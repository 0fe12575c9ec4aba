/**
  The multipart body of multipart.py as a byte string: what the writer produces,
  and what reading it means when the whole body is at hand. The reader objects,
  which see the body through a stream, are proved to follow `Parts`.
 */
module MultipartFormat {
  import opened Options
  import opened Bytes
  import MS = MessageStreams

  // ---------------------------------------------------------------------
  // Lines.
  // ---------------------------------------------------------------------

  /** What `readline` returns: up to and including the first LF, or everything. */
  function FirstLine(s: bytes): (line: bytes)
    ensures line <= s && (s != [] ==> line != [])
  {
    var i := Find(s, [LF], 0);
    if i < 0 then s else s[..i + 1]
  }

  predicate Space(b: byte) {
    b == 32 || 9 <= b <= 13
  }

  /** `bytes.rstrip()`. */
  function RStrip(s: bytes): bytes {
    if s != [] && Space(s[|s| - 1]) then RStrip(s[..|s| - 1]) else s
  }

  function LStrip(s: bytes): bytes {
    if s != [] && Space(s[0]) then LStrip(s[1..]) else s
  }

  function Strip(s: bytes): bytes {
    RStrip(LStrip(s))
  }

  lemma LineEnds(line: bytes, rest: bytes)
    requires LF !in line
    ensures FirstLine(line + CRLF + rest) == line + CRLF
    ensures (line + CRLF + rest)[|line + CRLF|..] == rest
  {
    var s, n := line + CRLF + rest, |line| + 1;
    forall i | 0 <= i < n
      ensures !OccursAt(s, [LF], i)
    {
      assert s[i..i + 1] == [s[i]] && s[i] == if i < |line| then line[i] else CR;
    }
    assert s[n..n + 1] == [LF];
    FindUnique(s, [LF], 0, n);
    assert s[..n + 1] == line + CRLF;
  }

  lemma RStripLine(line: bytes)
    requires line != [] ==> !Space(line[|line| - 1])
    ensures RStrip(line + CRLF) == line
  {
    var s := line + CRLF;
    assert s[..|s| - 1] == line + [CR] && (line + [CR])[..|line|] == line;
    assert RStrip(s) == RStrip(line + [CR]) == RStrip(line);
  }

  lemma StripLine(line: bytes)
    requires line != [] ==> !Space(line[0]) && !Space(line[|line| - 1])
    ensures Strip(line + CRLF) == line
  {
    if line == [] {
      assert CRLF[1..] == [LF] && [LF][1..] == [];
      assert LStrip([LF]) == LStrip([]) == [];
      assert line + CRLF == CRLF;
    } else {
      assert LStrip(line + CRLF) == line + CRLF;
      RStripLine(line);
    }
  }

  // ---------------------------------------------------------------------
  // Reading a whole body.
  // ---------------------------------------------------------------------

  /** What the headers of a part say: its length, if any, or that they are not headers. */
  datatype Headers = BadHeaders | Headers(length: Option<nat>)

  /** A boundary with its dashes, what parsing header lines yields, and the longest line a stream accepts. */
  datatype Config = Config(boundary: bytes, headersOf: seq<bytes> -> Headers, limit: nat)

  const DASHES: bytes := [45, 45]

  /** Where a search for a boundary line has led. */
  datatype Found = Part(rest: bytes) | End(rest: bytes) | Nothing

  /** `_read_until_first_boundary`. */
  function SkipToBoundary(c: Config, s: bytes): (r: Found)
    ensures !r.Nothing? ==> |r.rest| < |s|
    decreases |s|
  {
    var line := FirstLine(s);
    var chunk := RStrip(line);
    if line == [] || |line| > c.limit then Nothing
    else if chunk == c.boundary then Part(s[|line|..])
    else if chunk == c.boundary + DASHES then End(s[|line|..])
    else SkipToBoundary(c, s[|line|..])
  }

  /** The two lines that are read behind the last boundary. */
  predicate EpilogueOk(c: Config, s: bytes) {
    var epilogue := FirstLine(s);
    |epilogue| <= c.limit && |FirstLine(s[|epilogue|..])| <= c.limit
  }

  /** `_read_boundary`. */
  function NextBoundary(c: Config, s: bytes): (r: Found)
    ensures r.Part? && 0 < |c.boundary| ==> |r.rest| < |s|
  {
    var line := FirstLine(s);
    var chunk := RStrip(line);
    if |line| > c.limit then Nothing
    else if chunk == c.boundary then
      RStripShorter(line);
      Part(s[|line|..])
    else if chunk == c.boundary + DASHES && EpilogueOk(c, s[|line|..]) then End(s[|line|..])
    else Nothing
  }

  lemma {:induction false} RStripShorter(s: bytes)
    ensures |RStrip(s)| <= |s|
  {
    if s != [] && Space(s[|s| - 1]) {
      RStripShorter(s[..|s| - 1]);
    }
  }

  /** `_read_headers`: the stripped lines before the first blank one, and what follows it. */
  function HeaderLines(c: Config, s: bytes): (r: Option<(seq<bytes>, bytes)>)
    ensures r.Some? ==> |r.value.1| <= |s|
    decreases |s|
  {
    var line := FirstLine(s);
    if |line| > c.limit then None
    else if Strip(line) == [] then Some(([], s[|line|..]))
    else
      assert line != [];
      var more := HeaderLines(c, s[|line|..]);
      if more.None? then None else Some(([Strip(line)] + more.value.0, more.value.1))
  }

  /** `n` if a line end follows the first `n` bytes, else -1. */
  function CrlfAfter(all: bytes, n: int): int {
    if OccursAt(all, CRLF, n) then n else -1
  }

  /** Where a body ends, or -1. A length of 0 is taken for none, since the source tests it for truth. */
  function BodyEnd(boundary: bytes, length: Option<nat>, s: bytes): (e: int)
    ensures 0 <= e ==> e + 2 <= |s|
  {
    if length.Some? && length.value != 0 then CrlfAfter(s, length.value) else Find(s, CRLF + boundary, 0)
  }

  /** All the bodies, or the error that stops the reader. */
  datatype Parsed = Bodies(bodies: seq<bytes>) | Malformed

  /** What `next` comes to: a part, of which `body` and all that follows is still ahead, the end, or an error. */
  datatype Opening = OpenPart(length: Option<nat>, body: bytes) | AtEnd | Bad

  function Open(c: Config, s: bytes, atBof: bool): (r: Opening)
    ensures r.OpenPart? && c.boundary != [] ==> |r.body| < |s|
  {
    match if atBof then SkipToBoundary(c, s) else NextBoundary(c, s)
    case Nothing => Bad
    case End(_) => AtEnd
    case Part(rest) =>
      var head := HeaderLines(c, rest);
      if head.None? || c.headersOf(head.value.0).BadHeaders? then Bad
      else OpenPart(c.headersOf(head.value.0).length, head.value.1)
  }

  function Parts(c: Config, s: bytes, atBof: bool): Parsed
    requires c.boundary != []
    decreases |s|
  {
    match Open(c, s, atBof)
    case Bad => Malformed
    case AtEnd => Bodies([])
    case OpenPart(length, body) =>
      var e := BodyEnd(c.boundary, length, body);
      if e < 0 then Malformed
      else
        var more := Parts(c, body[e + 2..], false);
        if more.Malformed? then Malformed else Bodies([body[..e]] + more.bodies)
  }

  // ---------------------------------------------------------------------
  // Writing, and reading it back.
  // ---------------------------------------------------------------------

  /** A part as it goes on the wire: its header lines and its body. */
  datatype Plain = Plain(lines: seq<bytes>, body: bytes)

  function PartWire(boundary: bytes, p: Plain): bytes {
    boundary + CRLF + (MS.LinesWire(p.lines + [[]]) + (p.body + CRLF))
  }

  function CloseWire(boundary: bytes): bytes {
    boundary + DASHES + CRLF
  }

  function PartsWire(boundary: bytes, parts: seq<Plain>): bytes {
    if parts == [] then [] else PartWire(boundary, parts[0]) + PartsWire(boundary, parts[1..])
  }

  function BodiesOf(parts: seq<Plain>): seq<bytes> {
    if parts == [] then [] else [parts[0].body] + BodiesOf(parts[1..])
  }

  /** A boundary that can be told from what surrounds it, and fits a line. */
  predicate BoundaryOk(c: Config) {
    && c.boundary != [] && !Space(c.boundary[|c.boundary| - 1])
    && CR !in c.boundary && LF !in c.boundary
    && |c.boundary| + 4 <= c.limit
  }

  /** A header line without surrounding blanks. */
  predicate HeaderOk(c: Config, line: bytes) {
    line != [] && !Space(line[0]) && !Space(line[|line| - 1]) && LF !in line && |line| + 2 <= c.limit
  }

  /** The headers give the length of the body, or the body does not hold the delimiter. */
  ghost predicate PlainOk(c: Config, p: Plain) {
    && (forall i :: 0 <= i < |p.lines| ==> HeaderOk(c, p.lines[i]))
    && c.headersOf(p.lines).Headers?
    && match c.headersOf(p.lines).length
       case Some(n) => n == |p.body|
       case None => forall i :: !OccursAt(p.body, CRLF + c.boundary, i)
  }

  lemma {:induction false} HeadersReadBack(c: Config, lines: seq<bytes>, rest: bytes)
    requires 2 <= c.limit && forall i :: 0 <= i < |lines| ==> HeaderOk(c, lines[i])
    ensures HeaderLines(c, MS.LinesWire(lines + [[]]) + rest) == Some((lines, rest))
    decreases |lines|
  {
    var all := lines + [[]];
    var more := MS.LinesWire(all[1..]);
    Assoc(all[0] + CRLF, more, rest);
    LineEnds(all[0], more + rest);
    StripLine(all[0]);
    if lines == [] {
      assert all[1..] == [];
      EmptyPrefix(rest);
    } else {
      assert all[1..] == lines[1..] + [[]];
      HeadersReadBack(c, lines[1..], rest);
      assert [lines[0]] + lines[1..] == lines;
    }
  }

  /** A delimiter that starts in the body lies in the body: it has no second CR. */
  lemma NoOverlap(boundary: bytes, body: bytes, rest: bytes, i: nat)
    requires CR !in boundary && i < |body|
    ensures OccursAt(body + (CRLF + rest), CRLF + boundary, i) ==> OccursAt(body, CRLF + boundary, i)
  {
    var sub, s := CRLF + boundary, body + (CRLF + rest);
    var k := |body| - i;
    if i + |sub| <= |body| {
      assert s[i..i + |sub|] == body[i..i + |sub|];
    } else if i + |sub| <= |s| {
      assert s[i..i + |sub|][k] == s[|body|] == CR;
      assert sub[k] == if k == 1 then LF else boundary[k - 2];
    }
  }

  lemma AtOffset(a: bytes, sub: bytes, rest: bytes)
    ensures OccursAt(a + (sub + rest), sub, |a|)
  {
    var s := a + (sub + rest);
    assert s[|a|..|a| + |sub|] == sub;
  }

  /** No delimiter starts inside a body that holds none and is followed by one. */
  lemma DelimiterAfterBody(boundary: bytes, body: bytes, rest: bytes)
    requires CR !in boundary && forall i :: !OccursAt(body, CRLF + boundary, i)
    ensures Find(body + (CRLF + (boundary + rest)), CRLF + boundary, 0) == |body|
  {
    var sub := CRLF + boundary;
    var s := body + (CRLF + (boundary + rest));
    forall i | 0 <= i < |body|
      ensures !OccursAt(s, sub, i)
    {
      assert !OccursAt(body, sub, i);
      NoOverlap(boundary, body, boundary + rest, i);
    }
    Assoc(CRLF, boundary, rest);
    AtOffset(body, sub, rest);
    FindUnique(s, sub, 0, |body|);
  }

  lemma BodyReadBack(c: Config, p: Plain, rest: bytes)
    requires BoundaryOk(c) && PlainOk(c, p)
    ensures var s := p.body + CRLF + (c.boundary + rest);
            var e := BodyEnd(c.boundary, c.headersOf(p.lines).length, s);
            && e == |p.body| && s[..e] == p.body && s[e + 2..] == c.boundary + rest
  {
    var s := p.body + CRLF + (c.boundary + rest);
    Assoc(p.body, CRLF, c.boundary + rest);
    var length := c.headersOf(p.lines).length;
    if length.Some? && length.value != 0 {
      assert s[|p.body|..|p.body| + 2] == CRLF;
    } else {
      if length.Some? {
        assert p.body == [];
        assert forall i :: !OccursAt(p.body, CRLF + c.boundary, i);
      }
      DelimiterAfterBody(c.boundary, p.body, rest);
    }
  }

  lemma BoundaryReadBack(c: Config, rest: bytes)
    requires BoundaryOk(c)
    ensures SkipToBoundary(c, c.boundary + CRLF + rest) == Part(rest)
    ensures NextBoundary(c, c.boundary + CRLF + rest) == Part(rest)
  {
    LineEnds(c.boundary, rest);
    RStripLine(c.boundary);
  }

  lemma CloseReadBack(c: Config, atBof: bool)
    requires BoundaryOk(c)
    ensures Parts(c, CloseWire(c.boundary), atBof) == Bodies([])
  {
    LineEnds(c.boundary + DASHES, []);
    EmptySuffix(CloseWire(c.boundary));
    RStripLine(c.boundary + DASHES);
    assert FirstLine([]) == [];
  }

  /** What comes after a part begins with the boundary. */
  lemma StartsWithBoundary(boundary: bytes, parts: seq<Plain>) returns (rest: bytes)
    ensures PartsWire(boundary, parts) + CloseWire(boundary) == boundary + rest
  {
    if parts == [] {
      EmptyPrefix(CloseWire(boundary));
      Assoc(boundary, DASHES, CRLF);
      rest := DASHES + CRLF;
    } else {
      var p := parts[0];
      var tail := CRLF + (MS.LinesWire(p.lines + [[]]) + (p.body + CRLF));
      Assoc(boundary, CRLF, MS.LinesWire(p.lines + [[]]) + (p.body + CRLF));
      rest := tail + PartsWire(boundary, parts[1..]) + CloseWire(boundary);
      Assoc(boundary, tail, PartsWire(boundary, parts[1..]));
      Assoc(boundary, tail + PartsWire(boundary, parts[1..]), CloseWire(boundary));
    }
  }

  /** The multipart round trip: reading what was written yields the same bodies, in order, and then the end. */
  lemma {:induction false} RoundTrip(c: Config, parts: seq<Plain>, atBof: bool)
    requires BoundaryOk(c) && forall i :: 0 <= i < |parts| ==> PlainOk(c, parts[i])
    ensures Parts(c, PartsWire(c.boundary, parts) + CloseWire(c.boundary), atBof) == Bodies(BodiesOf(parts))
    decreases |parts|
  {
    if parts == [] {
      EmptyPrefix(CloseWire(c.boundary));
      CloseReadBack(c, atBof);
    } else {
      var p := parts[0];
      var more := PartsWire(c.boundary, parts[1..]) + CloseWire(c.boundary);
      var rest := StartsWithBoundary(c.boundary, parts[1..]);
      RoundTrip(c, parts[1..], false);
      OnePart(c, p, more, rest, atBof);
      Assoc(PartWire(c.boundary, p), PartsWire(c.boundary, parts[1..]), CloseWire(c.boundary));
    }
  }

  lemma OnePart(c: Config, p: Plain, more: bytes, rest: bytes, atBof: bool)
    requires BoundaryOk(c) && PlainOk(c, p) && more == c.boundary + rest && Parts(c, more, false).Bodies?
    ensures Parts(c, PartWire(c.boundary, p) + more, atBof)
         == Bodies([p.body] + Parts(c, more, false).bodies)
  {
    var body := p.body + CRLF;
    OpenReadBack(c, p, more, atBof);
    BodyReadBack(c, p, rest);
    PartsOfOpen(c, PartWire(c.boundary, p) + more, atBof, c.headersOf(p.lines).length, body + more);
  }

  lemma OpenReadBack(c: Config, p: Plain, more: bytes, atBof: bool)
    requires BoundaryOk(c) && PlainOk(c, p)
    ensures Open(c, PartWire(c.boundary, p) + more, atBof)
         == OpenPart(c.headersOf(p.lines).length, p.body + CRLF + more)
  {
    var headers, body := MS.LinesWire(p.lines + [[]]), p.body + CRLF;
    Assoc(c.boundary + CRLF, headers + body, more);
    Assoc(headers, body, more);
    BoundaryReadBack(c, headers + (body + more));
    HeadersReadBack(c, p.lines, body + more);
  }

  /** A part that has a body, and then the others. */
  lemma PartsOfOpen(c: Config, s: bytes, atBof: bool, length: Option<nat>, body: bytes)
    requires c.boundary != [] && Open(c, s, atBof) == OpenPart(length, body)
    requires var e := BodyEnd(c.boundary, length, body); 0 <= e && Parts(c, body[e + 2..], false).Bodies?
    ensures var e := BodyEnd(c.boundary, length, body);
            Parts(c, s, atBof) == Bodies([body[..e]] + Parts(c, body[e + 2..], false).bodies)
  {
  }
}
