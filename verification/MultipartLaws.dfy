/**
  Multipart bodies as anyone may write them (section 5.1 of RFC 2046), not only as
  our own writer does: a preamble, blanks behind boundaries and around headers, any
  line ends, an epilogue. What `MultipartFormat` makes of each line is stated here
  by the line, and `EveryBodyIsParsed` puts it together.
 */
module MultipartLaws {
  import opened Options
  import opened Bytes
  import opened MultipartFormat
  import MR = MultipartReaders

  // ---------------------------------------------------------------------
  // Lines.
  // ---------------------------------------------------------------------

  /** A line with its line feed. */
  predicate IsLine(line: bytes) {
    line != [] && line[|line| - 1] == 10 && 10 !in line[..|line| - 1]
  }

  /** The line begins `line + rest`; at the end of everything it may lack its line feed. */
  predicate Leads(line: bytes, rest: bytes) {
    IsLine(line) || (10 !in line && rest == [])
  }

  predicate IsBlank(s: bytes) {
    forall i :: 0 <= i < |s| ==> s[i] in [9, 10, 11, 12, 13, 32]
  }

  /** The line is the text, which does not end in a blank, and blanks. */
  predicate Says(line: bytes, text: bytes) {
    text <= line && IsBlank(line[|text|..]) && (text != [] ==> !IsBlank([text[|text| - 1]]))
  }

  /** The line is the text between blanks, with none at its ends. */
  ghost predicate Holds(line: bytes, text: bytes) {
    exists i :: 0 <= i <= |line| && IsBlank(line[..i]) && Says(line[i..], text) && (text != [] ==> !IsBlank([text[0]]))
  }

  lemma LeadIsFirst(line: bytes, rest: bytes)
    requires Leads(line, rest)
    ensures FirstLine(line + rest) == line && (line + rest)[|line|..] == rest
  {
    MR.LineIsFirst(line + rest, line, rest);
  }

  lemma SpaceIsBlank(b: byte)
    ensures Space(b) <==> IsBlank([b])
  {
    assert [b][0] == b;
  }

  lemma {:induction false} SaidIsStripped(line: bytes, text: bytes)
    requires Says(line, text)
    ensures RStrip(line) == text
    decreases |line|
  {
    if line == text {
      if text != [] {
        SpaceIsBlank(text[|text| - 1]);
      }
    } else {
      var n := |line| - 1;
      assert line[n] == line[|text|..][n - |text|];
      assert line[..n][|text|..] == line[|text|..][..n - |text|];
      SaidIsStripped(line[..n], text);
    }
  }

  lemma {:induction false} HeldIsStripped(line: bytes, text: bytes, i: nat)
    requires i <= |line| && IsBlank(line[..i]) && Says(line[i..], text) && (text != [] ==> !IsBlank([text[0]]))
    ensures Strip(line) == text
    decreases i
  {
    if i == 0 {
      assert line[0..] == line;
      if text != [] {
        SpaceIsBlank(line[0]);
        assert line[0] == text[0];
        SaidIsStripped(line, text);
      } else {
        BlankIsNothing(line);
      }
    } else {
      assert line[..i][0] == line[0];
      assert line[1..][..i - 1] == line[..i][1..];
      assert line[1..][i - 1..] == line[i..];
      HeldIsStripped(line[1..], text, i - 1);
    }
  }

  lemma {:induction false} BlankIsNothing(s: bytes)
    requires IsBlank(s)
    ensures LStrip(s) == [] && Strip(s) == []
    decreases |s|
  {
    if s != [] {
      BlankIsNothing(s[1..]);
    }
  }

  // ---------------------------------------------------------------------
  // Boundaries.
  // ---------------------------------------------------------------------

  /** A line in front of the first boundary is passed over. */
  lemma PreambleLine(c: Config, line: bytes, text: bytes, s: bytes)
    requires c.boundary != [] && IsLine(line) && |line| <= c.limit && Says(line, text)
    requires text != c.boundary && text != c.boundary + [45, 45]
    ensures Parts(c, line + s, true) == Parts(c, s, true)
  {
    LeadIsFirst(line, s);
    SaidIsStripped(line, text);
    assert SkipToBoundary(c, line + s) == SkipToBoundary(c, s);
    assert Open(c, line + s, true) == Open(c, s, true);
  }

  lemma {:induction false} PreambleIsSkipped(c: Config, lines: seq<bytes>, texts: seq<bytes>, s: bytes)
    requires c.boundary != [] && |texts| == |lines|
    requires forall i :: 0 <= i < |lines| ==>
      && IsLine(lines[i]) && |lines[i]| <= c.limit && Says(lines[i], texts[i])
      && texts[i] != c.boundary && texts[i] != c.boundary + [45, 45]
    ensures Parts(c, Join(lines) + s, true) == Parts(c, s, true)
    decreases |lines|
  {
    if lines == [] {
      EmptyPrefix(s);
    } else {
      Assoc(lines[0], Join(lines[1..]), s);
      PreambleLine(c, lines[0], texts[0], Join(lines[1..]) + s);
      PreambleIsSkipped(c, lines[1..], texts[1..], s);
    }
  }

  /** A boundary may be followed by blanks, anywhere in the body. */
  lemma BoundaryIsTaken(c: Config, line: bytes, rest: bytes)
    requires c.boundary != [] && Leads(line, rest) && |line| <= c.limit && Says(line, c.boundary)
    ensures SkipToBoundary(c, line + rest) == NextBoundary(c, line + rest) == Part(rest)
  {
    LeadIsFirst(line, rest);
    SaidIsStripped(line, c.boundary);
  }

  /**
    The last boundary ends the body: at once in place of the first one, and behind
    parts if the next two lines, which are read with it, are not too long.
   */
  lemma LastBoundaryEnds(c: Config, line: bytes, epilogue: bytes, next: bytes, rest: bytes)
    requires c.boundary != [] && Leads(line, epilogue + (next + rest)) && |line| <= c.limit
    requires Says(line, c.boundary + [45, 45]) && Leads(epilogue, next + rest) && Leads(next, rest)
    ensures Parts(c, line + (epilogue + (next + rest)), true) == Bodies([])
    ensures Parts(c, line + (epilogue + (next + rest)), false)
         == if |epilogue| <= c.limit && |next| <= c.limit then Bodies([]) else Malformed
  {
    var s := line + (epilogue + (next + rest));
    LeadIsFirst(line, epilogue + (next + rest));
    LeadIsFirst(epilogue, next + rest);
    LeadIsFirst(next, rest);
    SaidIsStripped(line, c.boundary + [45, 45]);
    assert SkipToBoundary(c, s).End?;
    assert NextBoundary(c, s).End? <==> |epilogue| <= c.limit && |next| <= c.limit;
  }

  /** Behind a part nothing but a boundary may come, and no line may be too long. */
  lemma NoBoundaryIsMalformed(c: Config, line: bytes, text: bytes, rest: bytes, atBof: bool)
    requires c.boundary != [] && Leads(line, rest) && Says(line, text)
    requires |line| > c.limit || line == [] || (!atBof && text != c.boundary && text != c.boundary + [45, 45])
    ensures Parts(c, line + rest, atBof) == Malformed
  {
    LeadIsFirst(line, rest);
    SaidIsStripped(line, text);
    assert Open(c, line + rest, atBof).Bad?;
  }

  // ---------------------------------------------------------------------
  // Headers.
  // ---------------------------------------------------------------------

  ghost predicate HeaderLine(c: Config, line: bytes, text: bytes) {
    IsLine(line) && |line| <= c.limit && text != [] && Holds(line, text)
  }

  lemma OneHeader(c: Config, line: bytes, text: bytes, rest: bytes)
    requires HeaderLine(c, line, text)
    ensures HeaderLines(c, line + rest)
         == match HeaderLines(c, rest)
            case Some(more) => Some(([text] + more.0, more.1))
            case None => None
  {
    LeadIsFirst(line, rest);
    var i :| 0 <= i <= |line| && IsBlank(line[..i]) && Says(line[i..], text) && (text != [] ==> !IsBlank([text[0]]));
    HeldIsStripped(line, text, i);
  }

  /** The headers are what stands between the blanks of each line up to a blank one. */
  lemma {:induction false} HeadersAre(c: Config, lines: seq<bytes>, texts: seq<bytes>, blank: bytes, body: bytes)
    requires |texts| == |lines| && forall i :: 0 <= i < |lines| ==> HeaderLine(c, lines[i], texts[i])
    requires Leads(blank, body) && IsBlank(blank) && |blank| <= c.limit
    ensures HeaderLines(c, Join(lines) + (blank + body)) == Some((texts, body))
    decreases |lines|
  {
    if lines == [] {
      EmptyPrefix(blank + body);
      LeadIsFirst(blank, body);
      BlankIsNothing(blank);
    } else {
      Assoc(lines[0], Join(lines[1..]), blank + body);
      HeadersAre(c, lines[1..], texts[1..], blank, body);
      OneHeader(c, lines[0], texts[0], Join(lines[1..]) + (blank + body));
      assert [texts[0]] + texts[1..] == texts;
    }
  }

  /** A line that is too long is no header. */
  lemma {:induction false} LongHeaderIsBad(c: Config, lines: seq<bytes>, texts: seq<bytes>, line: bytes, rest: bytes)
    requires |texts| == |lines| && forall i :: 0 <= i < |lines| ==> HeaderLine(c, lines[i], texts[i])
    requires Leads(line, rest) && |line| > c.limit
    ensures HeaderLines(c, Join(lines) + (line + rest)) == None
    decreases |lines|
  {
    if lines == [] {
      EmptyPrefix(line + rest);
      LeadIsFirst(line, rest);
    } else {
      Assoc(lines[0], Join(lines[1..]), line + rest);
      LongHeaderIsBad(c, lines[1..], texts[1..], line, rest);
      OneHeader(c, lines[0], texts[0], Join(lines[1..]) + (line + rest));
    }
  }

  // ---------------------------------------------------------------------
  // Bodies.
  // ---------------------------------------------------------------------

  /**
    Where a body ends: with a length other than 0, there, if CRLF follows; else in
    front of the first CRLF and boundary. It is -1 if there is no such place.
   */
  lemma BodyEndIs(boundary: bytes, length: Option<nat>, s: bytes, e: int)
    ensures e == BodyEnd(boundary, length, s) <==>
              if length.None? || length.value == 0 then
                if e == -1 then forall i :: !OccursAt(s, CRLF + boundary, i)
                else OccursAt(s, CRLF + boundary, e) && forall i :: 0 <= i < e ==> !OccursAt(s, CRLF + boundary, i)
              else if e == -1 then !OccursAt(s, CRLF, length.value)
              else e == length.value && OccursAt(s, CRLF, e)
  {
    FindIsFirst(s, CRLF + boundary, 0);
  }

  // ---------------------------------------------------------------------
  // A whole body.
  // ---------------------------------------------------------------------

  /** A part as it stands in a body: its boundary line, its header lines, what they say, a blank line, its body. */
  datatype WirePart = WirePart(line: bytes, lines: seq<bytes>, texts: seq<bytes>, blank: bytes, body: bytes)

  ghost predicate WirePartOk(c: Config, p: WirePart) {
    && IsLine(p.line) && |p.line| <= c.limit && Says(p.line, c.boundary)
    && |p.texts| == |p.lines| && (forall i :: 0 <= i < |p.lines| ==> HeaderLine(c, p.lines[i], p.texts[i]))
    && IsLine(p.blank) && IsBlank(p.blank) && |p.blank| <= c.limit
    && PlainOf(c, p.texts, p.body)
  }

  /** Either the headers give the length of the body, or it does not hold the delimiter. */
  ghost predicate PlainOf(c: Config, texts: seq<bytes>, body: bytes) {
    && c.headersOf(texts).Headers?
    && (c.headersOf(texts).length == Some(|body|)
        || (c.headersOf(texts).length == None && forall i :: !OccursAt(body, CRLF + c.boundary, i)))
  }

  function WireOf(p: WirePart): bytes {
    p.line + (Join(p.lines) + (p.blank + (p.body + CRLF)))
  }

  function WiresOf(parts: seq<WirePart>): bytes {
    if parts == [] then [] else WireOf(parts[0]) + WiresOf(parts[1..])
  }

  function BodiesIn(parts: seq<WirePart>): seq<bytes> {
    if parts == [] then [] else [parts[0].body] + BodiesIn(parts[1..])
  }

  lemma OpensPart(c: Config, p: WirePart, more: bytes, atBof: bool)
    requires c.boundary != [] && WirePartOk(c, p)
    ensures Open(c, WireOf(p) + more, atBof) == OpenPart(c.headersOf(p.texts).length, p.body + CRLF + more)
  {
    var headers, body := Join(p.lines), p.body + CRLF;
    Assoc(p.line, headers + (p.blank + body), more);
    Assoc(headers, p.blank + body, more);
    Assoc(p.blank, body, more);
    BoundaryIsTaken(c, p.line, headers + (p.blank + (body + more)));
    HeadersAre(c, p.lines, p.texts, p.blank, body + more);
  }

  lemma BodyIsFound(c: Config, p: WirePart, rest: bytes)
    requires CR !in c.boundary && PlainOf(c, p.texts, p.body)
    ensures var s := p.body + CRLF + (c.boundary + rest);
            var e := BodyEnd(c.boundary, c.headersOf(p.texts).length, s);
            && e == |p.body| && s[..e] == p.body && s[e + 2..] == c.boundary + rest
  {
    var length, s := c.headersOf(p.texts).length, p.body + CRLF + (c.boundary + rest);
    Assoc(p.body, CRLF, c.boundary + rest);
    if length.Some? && length.value != 0 {
      assert s[|p.body|..|p.body| + 2] == CRLF;
    } else {
      assert length.Some? ==> p.body == [];
      assert forall i :: !OccursAt(p.body, CRLF + c.boundary, i);
      DelimiterAfterBody(c.boundary, p.body, rest);
    }
  }

  lemma OnePartThen(c: Config, p: WirePart, rest: bytes, atBof: bool)
    requires c.boundary != [] && CR !in c.boundary && WirePartOk(c, p) && Parts(c, c.boundary + rest, false).Bodies?
    ensures Parts(c, WireOf(p) + (c.boundary + rest), atBof)
         == Bodies([p.body] + Parts(c, c.boundary + rest, false).bodies)
  {
    OpensPart(c, p, c.boundary + rest, atBof);
    BodyIsFound(c, p, rest);
    PartsOfOpen(c, WireOf(p) + (c.boundary + rest), atBof, c.headersOf(p.texts).length,
                p.body + CRLF + (c.boundary + rest));
  }

  /** Headers that are none, or a body without an end. */
  lemma BadPartIsMalformed(c: Config, line: bytes, lines: seq<bytes>, texts: seq<bytes>, blank: bytes, body: bytes,
                           atBof: bool)
    requires c.boundary != [] && IsLine(line) && |line| <= c.limit && Says(line, c.boundary)
    requires |texts| == |lines| && forall i :: 0 <= i < |lines| ==> HeaderLine(c, lines[i], texts[i])
    requires Leads(blank, body) && IsBlank(blank) && |blank| <= c.limit
    requires c.headersOf(texts).BadHeaders? || BodyEnd(c.boundary, c.headersOf(texts).length, body) == -1
    ensures Parts(c, line + (Join(lines) + (blank + body)), atBof) == Malformed
  {
    BoundaryIsTaken(c, line, Join(lines) + (blank + body));
    HeadersAre(c, lines, texts, blank, body);
    assert Open(c, line + (Join(lines) + (blank + body)), atBof)
        == if c.headersOf(texts).BadHeaders? then Bad else OpenPart(c.headersOf(texts).length, body);
  }

  lemma PrefixStays(b: bytes, s: bytes, more: bytes)
    requires b <= s
    ensures b <= s + more
  {
    assert (s + more)[..|b|] == s[..|b|];
  }

  /** What follows a part begins with the boundary. */
  lemma BoundaryComesNext(c: Config, parts: seq<WirePart>, last: bytes) returns (rest: bytes)
    requires forall i :: 0 <= i < |parts| ==> WirePartOk(c, parts[i])
    requires c.boundary <= last
    ensures WiresOf(parts) + last == c.boundary + rest
  {
    var s, n := WiresOf(parts) + last, |c.boundary|;
    if parts != [] {
      var p := parts[0];
      PrefixStays(c.boundary, p.line, Join(p.lines) + (p.blank + (p.body + CRLF)));
      PrefixStays(c.boundary, WireOf(p), WiresOf(parts[1..]));
      PrefixStays(c.boundary, WiresOf(parts), last);
    } else {
      EmptyPrefix(last);
    }
    rest := s[n..];
    assert s == s[..n] + rest;
  }

  lemma {:induction false} PartsAreRead(c: Config, parts: seq<WirePart>, last: bytes, atBof: bool)
    requires c.boundary != [] && CR !in c.boundary
    requires forall i :: 0 <= i < |parts| ==> WirePartOk(c, parts[i])
    requires c.boundary <= last && Parts(c, last, true) == Parts(c, last, false) == Bodies([])
    ensures Parts(c, WiresOf(parts) + last, atBof) == Bodies(BodiesIn(parts))
    decreases |parts|
  {
    if parts == [] {
      EmptyPrefix(last);
    } else {
      var rest := BoundaryComesNext(c, parts[1..], last);
      PartsAreRead(c, parts[1..], last, false);
      OnePartThen(c, parts[0], rest, atBof);
      Assoc(WireOf(parts[0]), WiresOf(parts[1..]), last);
    }
  }

  /** Every body with a preamble, parts, a last boundary and an epilogue: the bodies of the parts, in order. */
  lemma EveryBodyIsParsed(c: Config, preamble: seq<bytes>, said: seq<bytes>, parts: seq<WirePart>,
                          line: bytes, epilogue: bytes, next: bytes, rest: bytes)
    requires c.boundary != [] && CR !in c.boundary && |said| == |preamble|
    requires forall i :: 0 <= i < |preamble| ==>
      && IsLine(preamble[i]) && |preamble[i]| <= c.limit && Says(preamble[i], said[i])
      && said[i] != c.boundary && said[i] != c.boundary + [45, 45]
    requires forall i :: 0 <= i < |parts| ==> WirePartOk(c, parts[i])
    requires Leads(line, epilogue + (next + rest)) && |line| <= c.limit && Says(line, c.boundary + [45, 45])
    requires Leads(epilogue, next + rest) && |epilogue| <= c.limit && Leads(next, rest) && |next| <= c.limit
    ensures Parts(c, Join(preamble) + (WiresOf(parts) + (line + (epilogue + (next + rest)))), true)
         == Bodies(BodiesIn(parts))
  {
    var last := line + (epilogue + (next + rest));
    LastBoundaryEnds(c, line, epilogue, next, rest);
    assert last[..|c.boundary|] == (c.boundary + [45, 45])[..|c.boundary|] == c.boundary;
    PartsAreRead(c, parts, last, true);
    PreambleIsSkipped(c, preamble, said, WiresOf(parts) + last);
  }
}
