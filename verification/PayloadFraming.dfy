/**
  What the strict payload parser of http_parser.py means, one byte at a time.

  `Feed` folds the byte step over the data, so it cannot depend on how the data
  were cut: that is `FeedAppend`. The object in HttpPayloadParser.dfy, which
  searches and slices whole buffers, is proved to compute the same fold.
 */
module PayloadFraming {
  import opened Bytes

  datatype PayloadError = BadChunkSize | LfInChunkExtension

  datatype Phase = Size | Chunk(left: nat) | ChunkEof | MaybeTrailers | Trailers

  datatype Mode =
    | Discard                            // no body expected
    | Length(left: nat)
    | UntilEof
    | Chunked(phase: Phase, tail: bytes)
    | Finished(leftover: bytes)
    | Broken(error: PayloadError)

  /** A mode, the bytes delivered, whether a chunk began, and the offsets in `body` where chunks ended. */
  datatype Parse = Parse(mode: Mode, body: bytes, begun: bool, ends: seq<int>)

  function Start(mode: Mode): Parse {
    Parse(mode, [], false, [])
  }

  // ---------------------------------------------------------------------
  // Chunk-size lines.
  // ---------------------------------------------------------------------

  predicate IsHexDigit(b: byte) {
    48 <= b <= 57 || 65 <= b <= 70 || 97 <= b <= 102
  }

  function HexDigitValue(b: byte): (v: nat)
    requires IsHexDigit(b)
    ensures v < 16
  {
    if b <= 57 then b - 48 else if b <= 70 then b - 55 else b - 87
  }

  predicate AllHex(s: bytes) {
    forall i :: 0 <= i < |s| ==> IsHexDigit(s[i])
  }

  /** `int(s, 16)`. */
  function HexValue(s: bytes): nat
    requires AllHex(s)
  {
    if s == [] then 0 else 16 * HexValue(s[..|s| - 1]) + HexDigitValue(s[|s| - 1])
  }

  datatype SizeLine = Bytes(size: nat) | Bad(error: PayloadError)

  const SEMICOLON: byte := 59

  /** A chunk-size line without its CRLF: hex digits, then perhaps an extension. */
  function ParseSizeLine(line: bytes): SizeLine {
    var i := Find(line, [SEMICOLON], 0);
    var sizeB := if i >= 0 then line[..i] else line;
    if i >= 0 && LF in line[i..] then Bad(LfInChunkExtension)
    else if sizeB == [] || !AllHex(sizeB) then Bad(BadChunkSize)
    else Bytes(HexValue(sizeB))
  }

  // ---------------------------------------------------------------------
  // The byte automaton.
  // ---------------------------------------------------------------------

  predicate EndsInCrlf(s: bytes) {
    |s| >= 2 && s[|s| - 2..] == CRLF
  }

  /** The end of a line in one of the two phases that collect lines. */
  function OnLine(p: Parse, phase: Phase, line: bytes): Parse
    requires phase.Size? || phase.Trailers?
  {
    if phase.Trailers? then p.(mode := Chunked(MaybeTrailers, []))
    else
      match ParseSizeLine(line)
      case Bad(error) => p.(mode := Broken(error))
      case Bytes(size) =>
        if size == 0 then p.(mode := Chunked(MaybeTrailers, []))
        else p.(mode := Chunked(Chunk(size), []), begun := true)
  }

  function ChunkedStep(p: Parse, phase: Phase, t: bytes, b: byte): Parse
    requires t != [] && t[|t| - 1] == b
  {
    match phase
    case Chunk(left) =>
      var body := p.body + [b];
      if left > 1 then p.(mode := Chunked(Chunk(left - 1), []), body := body)
      else p.(mode := Chunked(ChunkEof, []), body := body, ends := p.ends + [|body|])
    case ChunkEof =>
      p.(mode := if t == CRLF then Chunked(Size, []) else Chunked(ChunkEof, t))
    case MaybeTrailers =>
      p.(mode := if t == CRLF then Finished([])
                 else if t == [CR] then Chunked(MaybeTrailers, t)
                 else Chunked(Trailers, t))
    case _ =>
      if EndsInCrlf(t) then OnLine(p, phase, t[..|t| - 2])
      else p.(mode := Chunked(phase, t))
  }

  function Step(p: Parse, b: byte): Parse {
    match p.mode
    case Discard => p
    case UntilEof => p.(body := p.body + [b])
    case Length(left) =>
      if left == 0 then p.(mode := Finished([b]))
      else p.(mode := if left == 1 then Finished([]) else Length(left - 1), body := p.body + [b])
    case Finished(leftover) => p.(mode := Finished(leftover + [b]))
    case Broken(_) => p
    case Chunked(phase, tail) => ChunkedStep(p, phase, tail + [b], b)
  }

  function Feed(p: Parse, data: bytes): Parse
    decreases |data|
  {
    if data == [] then p else Feed(Step(p, data[0]), data[1..])
  }

  /** Payload parsing is a monoid action: one feed of a + b is a feed of a and then of b. */
  lemma {:induction false} FeedAppend(p: Parse, a: bytes, b: bytes)
    ensures Feed(p, a + b) == Feed(Feed(p, a), b)
    decreases |a|
  {
    if a == [] {
      EmptyPrefix(b);
    } else {
      assert (a + b)[0] == a[0] && (a + b)[1..] == a[1..] + b;
      FeedAppend(Step(p, a[0]), a[1..], b);
    }
  }

  lemma FeedSplit(p: Parse, data: bytes, k: nat)
    requires k <= |data|
    ensures Feed(p, data) == Feed(Feed(p, data[..k]), data[k..])
  {
    assert data == data[..k] + data[k..];
    FeedAppend(p, data[..k], data[k..]);
  }

  // ---------------------------------------------------------------------
  // What whole slices do, phase by phase.
  // ---------------------------------------------------------------------

  ghost predicate NoCrlf(s: bytes) {
    forall i :: !OccursAt(s, CRLF, i)
  }

  predicate CollectsLines(phase: Phase) {
    phase.Size? || phase.Trailers?
  }

  lemma OccursInPrefix(s: bytes, k: nat, i: int)
    requires k <= |s|
    ensures OccursAt(s[..k], CRLF, i) ==> OccursAt(s, CRLF, i)
  {
    if 0 <= i && i + 2 <= k {
      assert s[..k][i..i + 2] == s[i..i + 2];
    }
  }

  lemma NoCrlfPrefix(s: bytes, k: nat)
    requires NoCrlf(s) && k <= |s|
    ensures NoCrlf(s[..k]) && !EndsInCrlf(s[..k])
  {
    forall i
      ensures !OccursAt(s[..k], CRLF, i)
    {
      OccursInPrefix(s, k, i);
    }
    assert EndsInCrlf(s[..k]) ==> OccursAt(s[..k], CRLF, k - 2);
  }

  lemma {:induction false} FeedNoLine(p: Parse, phase: Phase, tail: bytes, s: bytes)
    requires CollectsLines(phase) && p.mode == Chunked(phase, tail) && NoCrlf(tail + s)
    ensures Feed(p, s) == p.(mode := Chunked(phase, tail + s))
    decreases |s|
  {
    if s == [] {
      EmptySuffix(tail);
    } else {
      var t := tail + [s[0]];
      assert tail + s == t + s[1..];
      assert (t + s[1..])[..|t|] == t;
      NoCrlfPrefix(tail + s, |t|);
      FeedNoLine(p.(mode := Chunked(phase, t)), phase, t, s[1..]);
    }
  }

  lemma BeforeFirstCrlf(s: bytes, pos: nat)
    requires OccursAt(s, CRLF, pos) && forall i :: 0 <= i < pos ==> !OccursAt(s, CRLF, i)
    ensures NoCrlf(s[..pos + 1])
    ensures s[..pos + 2] == s[..pos + 1] + [LF] && EndsInCrlf(s[..pos + 2])
  {
    assert s[pos..pos + 2] == CRLF;
    var a := s[..pos + 1];
    forall i
      ensures !OccursAt(a, CRLF, i)
    {
      OccursInPrefix(s, pos + 1, i);
    }
  }

  lemma StepEndsLine(p: Parse, phase: Phase, a: bytes)
    requires CollectsLines(phase) && EndsInCrlf(a + [LF])
    ensures Step(p.(mode := Chunked(phase, a)), LF) == OnLine(p, phase, a[..|a| - 1])
  {
    assert (a + [LF])[..|a + [LF]| - 2] == a[..|a| - 1];
  }

  lemma FeedNoLineYet(p: Parse, phase: Phase, s: bytes)
    requires CollectsLines(phase) && p.mode == Chunked(phase, []) && NoCrlf(s)
    ensures Feed(p, s) == p.(mode := Chunked(phase, s))
  {
    EmptyPrefix(s);
    FeedNoLine(p, phase, [], s);
  }

  /** A line phase up to and including the first CRLF. */
  lemma FeedLine(p: Parse, phase: Phase, s: bytes, pos: nat)
    requires CollectsLines(phase) && p.mode == Chunked(phase, [])
    requires OccursAt(s, CRLF, pos) && forall i :: 0 <= i < pos ==> !OccursAt(s, CRLF, i)
    ensures Feed(p, s[..pos + 2]) == OnLine(p, phase, s[..pos])
  {
    BeforeFirstCrlf(s, pos);
    var a := s[..pos + 1];
    FeedNoLineYet(p, phase, a);
    FeedAppend(p, a, [LF]);
    FeedOne(Feed(p, a), LF);
    StepEndsLine(p, phase, a);
    assert a[..|a| - 1] == s[..pos];
  }

  /** Chunk data, not yet all of it. */
  lemma {:induction false} FeedChunkPart(p: Parse, s: bytes)
    requires p.mode.Chunked? && p.mode.phase.Chunk? && |s| < p.mode.phase.left
    ensures Feed(p, s) == p.(mode := Chunked(Chunk(p.mode.phase.left - |s|), if s == [] then p.mode.tail else []),
                             body := p.body + s)
    decreases |s|
  {
    if s == [] {
      EmptySuffix(p.body);
    } else {
      var p' := Step(p, s[0]);
      FeedChunkPart(p', s[1..]);
      Assoc(p.body, [s[0]], s[1..]);
      assert [s[0]] + s[1..] == s;
    }
  }

  /** Chunk data up to its end. */
  lemma FeedChunkWhole(p: Parse, s: bytes)
    requires p.mode.Chunked? && p.mode.phase.Chunk? && |s| == p.mode.phase.left > 0
    ensures Feed(p, s) == p.(mode := Chunked(ChunkEof, []), body := p.body + s,
                             ends := p.ends + [|p.body| + |s|])
  {
    var k := |s| - 1;
    FeedSplit(p, s, k);
    FeedChunkPart(p, s[..k]);
    Assoc(p.body, s[..k], [s[k]]);
    assert s[k..] == [s[k]] && s[..k] + [s[k]] == s;
  }

  /** After a chunk, anything that does not start with CRLF is held back for ever. */
  lemma {:induction false} FeedChunkEofStuck(p: Parse, tail: bytes, s: bytes)
    requires p.mode == Chunked(ChunkEof, tail)
    requires forall k :: 0 <= k <= |s| ==> tail + s[..k] != CRLF
    ensures Feed(p, s) == p.(mode := Chunked(ChunkEof, tail + s))
    decreases |s|
  {
    if s == [] {
      EmptySuffix(tail);
    } else {
      var t := tail + [s[0]];
      assert tail + s[..1] == t;
      forall k | 0 <= k <= |s| - 1
        ensures t + s[1..][..k] != CRLF
      {
        assert t + s[1..][..k] == tail + s[..k + 1];
      }
      FeedChunkEofStuck(p.(mode := Chunked(ChunkEof, t)), t, s[1..]);
      assert t + s[1..] == tail + s;
    }
  }

  lemma FeedOne(p: Parse, b: byte)
    ensures Feed(p, [b]) == Step(p, b)
  {
    assert [b][1..] == [];
  }

  lemma FeedTwo(p: Parse, b0: byte, b1: byte)
    ensures Feed(p, [b0, b1]) == Step(Step(p, b0), b1)
  {
    assert [b0, b1][1..] == [b1];
    FeedOne(Step(p, b0), b1);
  }

  lemma {:induction false} FeedLength(p: Parse, s: bytes)
    requires p.mode.Length? && |s| < p.mode.left
    ensures Feed(p, s) == p.(mode := Length(p.mode.left - |s|), body := p.body + s)
    decreases |s|
  {
    if s == [] {
      EmptySuffix(p.body);
    } else {
      FeedLength(Step(p, s[0]), s[1..]);
      Assoc(p.body, [s[0]], s[1..]);
      assert [s[0]] + s[1..] == s;
    }
  }

  lemma FeedLengthWhole(p: Parse, s: bytes)
    requires p.mode.Length? && |s| == p.mode.left > 0
    ensures Feed(p, s) == p.(mode := Finished([]), body := p.body + s)
  {
    var k := |s| - 1;
    FeedSplit(p, s, k);
    FeedLength(p, s[..k]);
    Assoc(p.body, s[..k], [s[k]]);
    assert s[k..] == [s[k]] && s[..k] + [s[k]] == s;
  }

  lemma {:induction false} FeedFinished(p: Parse, s: bytes)
    requires p.mode.Finished?
    ensures Feed(p, s) == p.(mode := Finished(p.mode.leftover + s))
    decreases |s|
  {
    if s == [] {
      EmptySuffix(p.mode.leftover);
    } else {
      FeedFinished(Step(p, s[0]), s[1..]);
      Assoc(p.mode.leftover, [s[0]], s[1..]);
      assert [s[0]] + s[1..] == s;
    }
  }

  lemma {:induction false} FeedUntilEof(p: Parse, s: bytes)
    requires p.mode.UntilEof?
    ensures Feed(p, s) == p.(body := p.body + s)
    decreases |s|
  {
    if s == [] {
      EmptySuffix(p.body);
    } else {
      FeedUntilEof(Step(p, s[0]), s[1..]);
      Assoc(p.body, [s[0]], s[1..]);
      assert [s[0]] + s[1..] == s;
    }
  }

  /** A parser that drops everything, or has failed, stays as it is. */
  lemma {:induction false} FeedIgnored(p: Parse, s: bytes)
    requires p.mode.Discard? || p.mode.Broken?
    ensures Feed(p, s) == p
    decreases |s|
  {
    if s != [] {
      FeedIgnored(Step(p, s[0]), s[1..]);
    }
  }

  /** The two CRLFs that are not the end of a line. */
  lemma BareCrlf()
    ensures Feed(Start(Chunked(ChunkEof, [])), CRLF) == Start(Chunked(Size, []))
    ensures Feed(Start(Chunked(MaybeTrailers, [])), CRLF) == Start(Finished([]))
  {
    FeedTwo(Start(Chunked(ChunkEof, [])), CR, LF);
    FeedTwo(Start(Chunked(MaybeTrailers, [])), CR, LF);
    EmptyPrefix([CR]);
    assert [CR] + [LF] == CRLF;
  }

  // ---------------------------------------------------------------------
  // Composing runs.
  // ---------------------------------------------------------------------

  function Shift(ends: seq<int>, base: int): seq<int> {
    seq(|ends|, i requires 0 <= i < |ends| => ends[i] + base)
  }

  /** A run that starts where another one stopped, as one run. */
  function Then(p: Parse, q: Parse): Parse {
    Parse(q.mode, p.body + q.body, p.begun || q.begun, p.ends + Shift(q.ends, |p.body|))
  }

  lemma ThenAssoc(p: Parse, q: Parse, r: Parse)
    ensures Then(Then(p, q), r) == Then(p, Then(q, r))
  {
    Assoc(p.body, q.body, r.body);
    assert Shift(q.ends, |p.body|) + Shift(r.ends, |p.body + q.body|)
        == Shift(q.ends + Shift(r.ends, |q.body|), |p.body|);
  }

  lemma ThenStart(p: Parse)
    ensures Then(Start(p.mode), p) == p && Then(p, Start(p.mode)) == p
  {
    EmptyPrefix(p.body);
    EmptySuffix(p.body);
    assert Shift(p.ends, 0) == p.ends;
  }

  lemma StepFrom(p: Parse, b: byte)
    ensures Step(p, b) == Then(p, Step(Start(p.mode), b))
  {
    EmptySuffix(p.body);
    EmptyPrefix([b]);
  }

  lemma {:induction false} FeedFrom(p: Parse, data: bytes)
    ensures Feed(p, data) == Then(p, Feed(Start(p.mode), data))
    decreases |data|
  {
    ThenStart(p);
    if data != [] {
      var q := Step(Start(p.mode), data[0]);
      StepFrom(p, data[0]);
      FeedFrom(Then(p, q), data[1..]);
      FeedFrom(q, data[1..]);
      ThenAssoc(p, q, Feed(Start(q.mode), data[1..]));
    }
  }

  /**
    Segmentation independence for a parser kept between calls: feeding `a` and
    then, from the mode that left, `b` is feeding `a + b`: same mode, same bytes
    delivered, same chunk ends, same leftover, same error.
   */
  lemma TwoCallsAreOne(mode: Mode, a: bytes, b: bytes)
    ensures var p := Feed(Start(mode), a);
            Feed(Start(mode), a + b) == Then(p, Feed(Start(p.mode), b))
  {
    FeedAppend(Start(mode), a, b);
    FeedFrom(Feed(Start(mode), a), b);
  }
}
