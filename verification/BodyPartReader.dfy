/**
  `BodyPartReader` (multipart.py) for parts without a transfer encoding: a body
  of known length, or a body that ends where CRLF and the boundary begin. The
  second is found with a window of two chunks over the stream; `Read` is proved
  to stop exactly where a search of the whole rest of the stream would.
 */
module BodyPartReaders {
  import opened Options
  import opened Bytes
  import opened Streams
  import opened StreamReaders
  import MF = MultipartFormat

  function Prefix(s: bytes, n: nat): bytes {
    if n <= |s| then s[..n] else s
  }

  ghost predicate Nowhere(s: bytes, sub: bytes) {
    forall i :: !OccursAt(s, sub, i)
  }

  lemma OccursInPrefix(all: bytes, m: nat, sub: bytes, i: int)
    requires m <= |all|
    ensures OccursAt(all[..m], sub, i) <==> OccursAt(all, sub, i) && i + |sub| <= m
  {
    if 0 <= i && i + |sub| <= m {
      assert all[..m][i..i + |sub|] == all[i..i + |sub|];
    }
  }

  /** Where to begin when the first `k` bytes are known to hold no delimiter. */
  function SearchStart(k: nat, sub: bytes): nat {
    if k < |sub| then 0 else k - |sub|
  }

  /** A search of a window finds the first delimiter of all the rest, or shows that it ends behind the window. */
  lemma WindowSearch(all: bytes, m: nat, sub: bytes, k: nat, start: nat)
    requires k <= m <= |all| && Nowhere(all[..k], sub) && start <= SearchStart(k, sub)
    ensures var idx := Find(all[..m], sub, start);
            var p := Find(all, sub, 0);
            if idx >= 0 then p == idx else p >= 0 ==> p + |sub| > m
  {
    var idx := Find(all[..m], sub, start);
    FindIsFirst(all[..m], sub, start);
    FindIsFirst(all, sub, 0);
    forall i | 0 <= i < (if idx < 0 then m + 1 - |sub| else idx)
      ensures !OccursAt(all, sub, i)
    {
      OccursInPrefix(all, m, sub, i);
      OccursInPrefix(all, k, sub, i);
      assert !OccursAt(all[..k], sub, i);
    }
    if idx >= 0 {
      OccursInPrefix(all, m, sub, idx);
      FindUnique(all, sub, 0, idx);
    }
  }

  lemma OccursLater(all: bytes, sub: bytes, n: nat, i: int)
    requires n <= |all|
    ensures OccursAt(all[n..], sub, i) <==> 0 <= i && OccursAt(all, sub, n + i)
  {
    if 0 <= i && i + |sub| <= |all| - n {
      assert all[n..][i..i + |sub|] == all[n + i..n + i + |sub|];
    }
  }

  /** Dropping bytes before the first delimiter moves it. */
  lemma FindAfter(all: bytes, sub: bytes, n: nat)
    requires n <= |all| && (Find(all, sub, 0) >= 0 ==> n <= Find(all, sub, 0))
    ensures Find(all[n..], sub, 0) == if Find(all, sub, 0) >= 0 then Find(all, sub, 0) - n else -1
  {
    var p, q := Find(all, sub, 0), Find(all[n..], sub, 0);
    FindIsFirst(all, sub, 0);
    FindIsFirst(all[n..], sub, 0);
    OccursLater(all, sub, n, q);
    if p >= 0 {
      OccursLater(all, sub, n, p - n);
      forall i | 0 <= i < p - n
        ensures !OccursAt(all[n..], sub, i)
      {
        OccursLater(all, sub, n, i);
      }
      FindUnique(all[n..], sub, 0, p - n);
    }
  }

  lemma GiveBack(whole: bytes, chunk: bytes, rest: bytes, n: nat)
    requires whole == chunk + rest && n <= |chunk|
    ensures whole == chunk[..n] + (chunk[n..] + rest)
  {
    assert chunk == chunk[..n] + chunk[n..];
    Assoc(chunk[..n], chunk[n..], rest);
  }

  /** The delimiter is in the window: what goes out, what is kept, and what is left to come. */
  lemma Found(all: bytes, prev: bytes, chunk: bytes, rest: bytes, sub: bytes)
    requires all == (prev + chunk) + rest && 0 <= Find(all, sub, 0) <= |prev + chunk|
    ensures var idx := Find(all, sub, 0);
            var rest' := (prev + chunk)[idx..] + rest;
            if idx <= |prev| then
              all == prev[..idx] + rest' && Find(rest', sub, 0) == 0
            else
              var kept := (prev + chunk)[|prev|..idx];
              && all == prev + (kept + rest')
              && Find(kept + rest', sub, 0) == |kept| && Nowhere(kept, sub)
  {
    var idx := Find(all, sub, 0);
    GiveBack(all, prev + chunk, rest, idx);
    var rest' := (prev + chunk)[idx..] + rest;
    if idx <= |prev| {
      assert (prev + chunk)[..idx] == prev[..idx];
      FindAfter(all, sub, idx);
      assert all[idx..] == rest';
    } else {
      var kept := (prev + chunk)[|prev|..idx];
      assert (prev + chunk)[..idx] == prev + kept;
      Assoc(prev, kept, rest');
      FindAfter(all, sub, |prev|);
      assert all[|prev|..] == kept + rest';
      NothingBefore(kept + rest', sub, |kept|);
      assert (kept + rest')[..|kept|] == kept;
    }
  }

  lemma NothingBefore(all: bytes, sub: bytes, n: nat)
    requires n <= |all| && sub != [] && (0 <= Find(all, sub, 0) ==> n < Find(all, sub, 0) + |sub|)
    ensures Nowhere(all[..n], sub)
  {
    FindIsFirst(all, sub, 0);
    forall i
      ensures !OccursAt(all[..n], sub, i)
    {
      OccursInPrefix(all, n, sub, i);
    }
  }

  /** The delimiter is not in the window: the first chunk goes out whole, and the second holds none. */
  lemma NotFound(all: bytes, prev: bytes, chunk: bytes, rest: bytes, sub: bytes)
    requires all == (prev + chunk) + rest && sub != []
    requires var p := Find(all, sub, 0); 0 <= p ==> p + |sub| > |prev + chunk|
    requires |chunk| >= |sub| || rest == []
    ensures all == prev + (chunk + rest)
    ensures var p, q := Find(all, sub, 0), Find(chunk + rest, sub, 0);
            && (p < 0 <==> q < 0) && (0 <= p ==> q == p - |prev| && |sub| <= |chunk| && rest != [])
    ensures Nowhere(chunk, sub)
  {
    Assoc(prev, chunk, rest);
    FindIsFirst(all, sub, 0);
    FindAfter(all, sub, |prev|);
    assert all[|prev|..] == chunk + rest;
    NothingBefore(chunk + rest, sub, |chunk|);
    assert (chunk + rest)[..|chunk|] == chunk;
  }

  /** The window has let `data` go and kept `held`; at the last move the delimiter comes next. */
  ghost predicate Moved(all: bytes, data: bytes, held: bytes, rest: bytes, sub: bytes, last: bool) {
    var p, q := Find(all, sub, 0), Find(held + rest, sub, 0);
    && all == data + (held + rest)
    && if last then p == |data| && q == 0 && held == []
       else Nowhere(held, sub) && if 0 <= p then |data| <= p && q == p - |data| else q == -1
  }

  /** One move of the window, found or not. */
  lemma WindowMoves(all: bytes, prev: bytes, chunk: bytes, rest: bytes, sub: bytes, known: bytes, start: nat)
    requires all == (prev + chunk) + rest && sub != [] && (|chunk| >= |sub| || rest == [])
    requires known <= prev && Nowhere(known, sub) && start <= SearchStart(|known|, sub)
    ensures var window, p := prev + chunk, Find(all, sub, 0);
            var idx := Find(window, sub, start);
            var end := 0 <= idx <= |prev|;
            var data := if end then prev[..idx] else prev;
            var held := if idx < 0 then chunk else if end then [] else window[|prev|..idx];
            var rest' := if idx < 0 then rest else window[idx..] + rest;
            var q := Find(held + rest', sub, 0);
            && Moved(all, data, held, rest', sub, end)
            && |held| <= |chunk| && (!end && held == [] ==> idx < 0)
            && (!end && 0 <= p ==> |prev| < p && (|rest| < |sub| ==> q <= |held|))
  {
    assert all[..|prev + chunk|] == prev + chunk && all[..|known|] == known;
    WindowSearch(all, |prev + chunk|, sub, |known|, start);
    var idx := Find(prev + chunk, sub, start);
    if idx < 0 {
      NotFound(all, prev, chunk, rest, sub);
    } else {
      Found(all, prev, chunk, rest, sub);
      EmptyPrefix((prev + chunk)[idx..] + rest);
    }
  }

  /** The line that starts with CRLF is CRLF, and too short to be too long. */
  lemma CrlfLine(whole: bytes, line: bytes, rest: bytes)
    requires whole == line + rest && (EndsLine(line, LF) || (LF !in line && (rest == [] || |line| > 2)))
    ensures line == CRLF <==> CRLF <= whole
    ensures line == CRLF ==> rest == whole[2..]
  {
    assert EndsLine(line, LF) && |line| > 2 ==> line[..|line| - 1][1] != LF;
    assert LF !in line && |line| >= 2 ==> line[1] != LF;
    if CRLF <= whole {
      assert whole[0] == CR && whole[1] == LF;
      if |line| >= 2 {
        assert line[1] == LF;
      }
      assert whole[..2] == CRLF;
    }
  }

  /**
    A chunk taken off the front of `all`, whose body ends at `end` (or not at all,
    if negative): either the last one, with the line end after it, or an earlier one.
   */
  predicate Splits(all: bytes, data: bytes, rest: bytes, last: bool, end: int, newEnd: int) {
    if last then end == |data| && |data| + 2 <= |all| && data == all[..end] && rest == all[end + 2..]
    else all == data + rest && if 0 <= end then |data| <= end && newEnd == end - |data| else newEnd == -1
  }

  lemma SplitsThen(all: bytes, data: bytes, before: bytes, chunk: bytes, rest: bytes, last: bool,
                   e: int, e1: int, e2: int)
    requires Splits(all, data, before, false, e, e1) && Splits(before, chunk, rest, last, e1, e2)
    ensures Splits(all, data + chunk, rest, last, e, e2)
  {
    Assoc(data, chunk, rest);
    if last {
      assert before[..e1] == all[|data|..e];
    }
  }

  lemma LastChunk(all: bytes, chunk: bytes, rest: bytes)
    requires all == chunk + rest && CRLF <= rest
    ensures OccursAt(all, CRLF, |chunk|)
    ensures Splits(all, chunk, rest[2..], true, |chunk|, 0)
  {
    assert all[|chunk|..|chunk| + 2] == rest[..2];
  }

  lemma BoundedChunk(all: bytes, chunk: bytes, rest: bytes, left: nat)
    requires all == chunk + rest && |chunk| <= left
    ensures OccursAt(all, CRLF, left) <==> OccursAt(rest, CRLF, left - |chunk|)
    ensures OccursAt(all, CRLF, left) && (left == |chunk| || rest == []) ==> CRLF <= rest
  {
    assert all[|chunk|..] == rest;
    OccursLater(all, CRLF, |chunk|, left - |chunk|);
  }

  lemma BoundedFacts(all: bytes, chunk: bytes, rest: bytes, left: nat, last: bool)
    requires all == chunk + rest && |chunk| <= left
    requires last ==> CRLF <= rest && left == |chunk|
    ensures var rest' := if last then rest[2..] else rest;
            Splits(all, chunk, rest', last, MF.CrlfAfter(all, left), if last then 0 else MF.CrlfAfter(rest, left - |chunk|))
  {
    BoundedChunk(all, chunk, rest, left);
    if last {
      LastChunk(all, chunk, rest);
    }
  }

  lemma UnboundedFacts(all: bytes, chunk: bytes, held: bytes, whole: bytes, sub: bytes, last: bool)
    requires CRLF <= sub && Moved(all, chunk, held, whole, sub, last)
    requires !last && chunk == [] ==> held == [] && whole == []
    ensures last ==> CRLF <= whole && Splits(all, chunk, whole[2..], true, Find(all, sub, 0), 0)
    ensures !last ==> Splits(all, chunk, held + whole, false, Find(all, sub, 0), Find(held + whole, sub, 0))
    ensures 0 <= Find(all, sub, 0) && !last ==> chunk != []
  {
    if last {
      EmptyPrefix(whole);
      FindIsFirst(whole, sub, 0);
      assert whole[..|sub|][..2] == whole[..2];
      LastChunk(all, chunk, whole);
    } else if chunk == [] {
      assert all == [];
    }
  }

  class BodyPartReader {
    const boundary: bytes            // with its two dashes
    const content: StreamReader
    const length: Option<nat>
    var atEof: bool
    var readBytes: nat
    var prevChunk: Option<bytes>
    var contentEof: nat

    /** What ends a body of unknown length. */
    function Delimiter(): bytes {
      CRLF + boundary
    }

    function Held(): bytes
      reads this
    {
      if prevChunk.Some? then prevChunk.value else []
    }

    /** All that is left of the stream, seen from this part. */
    ghost function Rest(): bytes
      reads this, content
      requires content.OffsetOk()
    {
      Held() + content.Whole()
    }

    ghost predicate Valid()
      reads this, content
    {
      content.Valid() && 2 <= content.highWater
    }

    /** Between two chunks of at most `size` bytes. */
    ghost predicate Ready(size: nat)
      reads this, content
      requires content.OffsetOk()
    {
      && !atEof && contentEof <= 2
      && |Held()| <= size && Nowhere(Held(), Delimiter())
      && (prevChunk == Some([]) ==> AllRead())
      && (0 < contentEof ==> content.eof && prevChunk.Some?)
    }

    ghost predicate AllRead()
      reads content
      requires content.OffsetOk()
    {
      content.eof && content.Whole() == []
    }

    /** After the end of the stream was first seen, the delimiter is the next thing to come, if it comes at all. */
    ghost predicate EndInSight()
      reads this, content
      requires content.OffsetOk()
    {
      var p := Find(Rest(), Delimiter(), 0);
      0 < contentEof && 0 <= p ==> contentEof == 1 && p <= |Held()|
    }

    constructor (boundary: bytes, length: Option<nat>, content: StreamReader)
      requires content.Valid() && 2 <= content.highWater
      ensures this.boundary == boundary && this.length == length && this.content == content
      ensures Valid() && !atEof && forall size :: |CRLF + boundary| <= size ==> InBody(size)
      ensures Rest() == content.Whole() && End() == MF.BodyEnd(boundary, length, content.Whole())
    {
      this.boundary, this.length, this.content := boundary, length, content;
      atEof, readBytes, prevChunk, contentEof := false, 0, None, 0;
      new;
      EmptyPrefix(content.Whole());
      assert Nowhere([], Delimiter());
    }

    lemma AtTheEnd()
      requires content.Valid() && content.eof
      ensures content.Whole() == content.Abs().Pending()
    {
      NothingAfterEof(content.httpChunkSplits.Some?, content.inbox);
      EmptySuffix(content.Abs().Pending());
    }

    method Unread(data: bytes)
      requires Valid()
      modifies content
      ensures Valid() && content.Whole() == data + old(content.Whole())
      ensures content.cursor == old(content.cursor) - |data|
      ensures unchanged(content`eof, content`failed, content`inbox)
    {
      UnreadFlat(content.Abs(), data);
      Assoc(data, content.Abs().Pending(), Arriving(content.inbox));
      content.UnreadData(data);
    }

    /** A read, and whether it was the last. */
    method ReadSome(size: nat) returns (r: ReadResult, drained: bool)
      requires Valid() && 0 < size
      modifies content, content.protocol
      ensures r.Got? ==> Valid() && (old(content.Healthy()) ==> content.Healthy()) && (old(content.eof) ==> content.eof)
      ensures old(content.Healthy()) ==> r.Got?
      ensures r.Got? ==> content.Took(r.data) && |r.data| <= size && drained == AllRead()
      ensures r.Got? && !drained ==> r.data != [] && (content.eof ==> |r.data| == size)
    {
      drained := false;
      r := content.Read(size);
      if !r.Got? {
        return;
      }
      if content.eof {
        AtTheEnd();
      }
      drained := content.AtEof();
    }

    /** The loop that collects the second chunk of the window. */
    method Collect(size: nat) returns (r: ReadResult)
      requires Valid() && |Delimiter()| <= size && contentEof <= 2 && (0 < contentEof ==> content.eof)
      modifies this`contentEof, content, content.protocol
      ensures r.Got? ==> Valid() && (old(content.Healthy()) ==> content.Healthy()) && (old(content.eof) ==> content.eof)
      ensures !r.Got? && old(content.Healthy()) ==> old(contentEof) == 2
      ensures r.Got? ==>
        && content.Took(r.data) && |r.data| < |Delimiter()| + size
        && contentEof <= 2 && (0 < contentEof ==> content.eof)
        && ((contentEof == old(contentEof) && |r.data| >= |Delimiter()|)
            || (contentEof == old(contentEof) + 1 && AllRead()))
    {
      var chunk: bytes := [];
      EmptyPrefix(content.Whole());
      while |chunk| < |Delimiter()|
        invariant Valid() && (old(content.Healthy()) ==> content.Healthy()) && (old(content.eof) ==> content.eof)
        invariant content.Took(chunk) && |chunk| < |Delimiter()| + size
        invariant contentEof == old(contentEof) && (0 < contentEof ==> chunk == [] || |chunk| >= |Delimiter()|)
        decreases |content.Whole()|
      {
        ghost var before := content.Whole();
        var more, drained := ReadSome(size);
        if !more.Got? {
          return more;
        }
        TakeTwice(old(content.Whole()), chunk, before, more.data, content.Whole());
        chunk := chunk + more.data;
        if drained {
          contentEof := contentEof + 1;
        }
        if 3 <= contentEof {
          return Raised;
        }
        if 0 < contentEof {
          break;
        }
      }
      return Got(chunk);
    }

    /** The second chunk of the window; what goes beyond `size` is given back. */
    method NextChunk(size: nat) returns (r: ReadResult)
      requires Valid() && |Delimiter()| <= size && contentEof <= 2 && (0 < contentEof ==> content.eof)
      modifies this`contentEof, content, content.protocol
      ensures r.Got? ==> Valid() && (old(content.Healthy()) ==> content.Healthy()) && (old(content.eof) ==> content.eof)
      ensures !r.Got? && old(content.Healthy()) ==> old(contentEof) == 2
      ensures r.Got? ==>
        && content.Took(r.data) && |r.data| <= size
        && contentEof <= 2 && (0 < contentEof ==> content.eof)
        && (|r.data| >= |Delimiter()| || AllRead())
        && ((contentEof == old(contentEof) && |r.data| >= |Delimiter()|)
            || (contentEof == old(contentEof) + 1 && |content.Whole()| < |Delimiter()|))
    {
      var chunk :- Collect(size);
      if |chunk| > size {
        GiveBack(old(content.Whole()), chunk, content.Whole(), size);
        Unread(chunk[size..]);
        chunk := chunk[..size];
      }
      return Got(chunk);
    }

    /** What a chunk of a body of unknown length leaves behind. */
    twostate predicate Advanced(size: nat, data: bytes)
      reads this, content
      requires content.OffsetOk() && old(content.OffsetOk())
    {
      var p := old(Find(Rest(), Delimiter(), 0));
      && (atEof ==> Held() == [] && CRLF <= content.Whole()
                    && Splits(old(Rest()), data, content.Whole()[2..], true, p, 0))
      && (!atEof ==>
            && Splits(old(Rest()), data, Rest(), false, p, Find(Rest(), Delimiter(), 0))
            && (0 <= p ==> data != []) && Ready(size) && EndInSight()
            && (data == [] ==> contentEof > old(contentEof) && AllRead() && Held() == []))
    }

    /** The first chunk of the window, before there is one. */
    method FirstChunk(size: nat) returns (r: ReadResult)
      requires Valid() && Ready(size) && prevChunk.None? && 0 < size
      modifies this`prevChunk, content, content.protocol
      ensures r.Got? ==> Valid() && (old(content.Healthy()) ==> content.Healthy())
      ensures if r.Got? then prevChunk.Some? && |Held()| <= size else !old(content.Healthy())
      ensures r.Got? && Held() == [] ==> AllRead()
      ensures r.Got? ==> Rest() == old(Rest())
    {
      EmptyPrefix(content.Whole());
      var prev :- content.Read(size);
      prevChunk := Some(prev);
      return Got(prev);
    }

    /** The window is searched and moves on, or ends the part. */
    method Slide(size: nat, chunk: bytes, start: nat, ghost known: bytes, ghost p: int) returns (data: bytes)
      requires Valid() && WindowOk(size, chunk) && p == Find((Held() + chunk) + content.Whole(), Delimiter(), 0)
      requires known <= Held() && Nowhere(known, Delimiter()) && start <= SearchStart(|known|, Delimiter())
      requires 0 <= p && 0 < contentEof ==>
                 p <= |Held()| || (contentEof == 1 && |content.Whole()| < |Delimiter()|)
      modifies this`prevChunk, this`atEof, content
      ensures Valid() && (old(content.Healthy()) ==> content.Healthy())
      ensures Moved(old((Held() + chunk) + content.Whole()), data, Held(), content.Whole(), Delimiter(), atEof)
      ensures !atEof ==> Ready(size) && EndInSight()
      ensures old(Held()) == [] && chunk == [] ==> !atEof && data == Held() == [] && AllRead()
      ensures data == [] && !atEof ==> old(Held()) == []
    {
      ghost var prev, rest := Held(), content.Whole();
      WindowMoves((prev + chunk) + rest, prev, chunk, rest, Delimiter(), known, start);
      data := Split(size, chunk, start);
    }

    /** Two chunks to search, the first held and the second at hand. */
    ghost predicate WindowOk(size: nat, chunk: bytes)
      reads this, content
      requires content.OffsetOk()
    {
      && !atEof && prevChunk.Some? && |Held()| <= size && |chunk| <= size
      && (|chunk| >= |Delimiter()| || AllRead())
      && (chunk == [] ==> AllRead())
      && contentEof <= 2 && (0 < contentEof ==> content.eof)
    }

    /** The end of `_read_chunk_from_stream`: the window is cut where the search says. */
    method Split(size: nat, chunk: bytes, start: nat) returns (data: bytes)
      requires Valid() && prevChunk.Some? && |Held()| <= size && !atEof
      modifies this`prevChunk, this`atEof, content
      ensures Valid() && prevChunk.Some?
      ensures unchanged(content`eof, content`failed, content`inbox)
      ensures var prev, window := old(Held()), old(Held()) + chunk;
              var idx := Find(window, Delimiter(), start);
              && atEof == (0 <= idx <= |prev|)
              && data == (if atEof then prev[..idx] else prev)
              && Held() == (if idx < 0 then chunk else if atEof then [] else window[|prev|..idx])
              && content.Whole() == (if idx < 0 then old(content.Whole()) else window[idx..] + old(content.Whole()))
    {
      var window := prevChunk.value + chunk;
      var idx := Find(window, Delimiter(), start);
      var chunk := chunk;
      if idx >= 0 {
        Unread(window[idx..]);
        if size > idx {
          prevChunk := Some(Prefix(prevChunk.value, idx));
        }
        var from := |prevChunk.value|;
        chunk := if from <= idx then window[from..idx] else [];
        if chunk == [] {
          atEof := true;
        }
      }
      data := prevChunk.value;
      prevChunk := Some(chunk);
    }

    /** The two chunks of the window are in: `prevChunk` and `chunk`. */
    twostate predicate Filled(size: nat, chunk: bytes)
      reads this, content
      requires content.OffsetOk() && old(content.OffsetOk())
    {
      var p := Find(old(Rest()), Delimiter(), 0);
      && WindowOk(size, chunk)
      && old(Rest()) == (Held() + chunk) + content.Whole()
      && (old(prevChunk).Some? ==> Held() == old(Held()))
      && (Held() == [] ==> contentEof > old(contentEof) && chunk == [])
      // where the delimiter can be once the end of the stream has been seen
      && (0 <= p && 0 < contentEof ==>
            p <= |Held()| || (contentEof == 1 && |content.Whole()| < |Delimiter()|))
    }

    method FillWindow(size: nat) returns (r: ReadResult)
      requires Valid() && Ready(size) && EndInSight() && |Delimiter()| <= size
      modifies this`prevChunk, this`contentEof, content, content.protocol
      ensures r.Got? ==> Valid() && (old(content.Healthy()) ==> content.Healthy())
      ensures r.Got? ==> Filled(size, r.data)
      ensures old(content.Healthy()) && Find(old(Rest()), Delimiter(), 0) >= 0 ==> r.Got?
    {
      if prevChunk.None? {
        var _ :- FirstChunk(size);
      }
      ghost var prev, earlier := Held(), content.Whole();
      var chunk :- NextChunk(size);
      assert earlier == chunk + content.Whole();
      assert prev == [] ==> |earlier| == 0;
      Assoc(prev, chunk, content.Whole());
      return Got(chunk);
    }

    /** `_read_chunk_from_stream`. */
    method ReadChunkFromStream(size: nat) returns (r: ReadResult)
      requires Valid() && Ready(size) && EndInSight() && |Delimiter()| <= size
      modifies this`prevChunk, this`contentEof, this`atEof, content, content.protocol
      ensures r.Got? ==> Valid() && (old(content.Healthy()) ==> content.Healthy())
      ensures r.Got? ==> Advanced(size, r.data)
      ensures old(content.Healthy()) && Find(old(Rest()), Delimiter(), 0) >= 0 ==> r.Got?
    {
      var firstChunk := prevChunk.None?;
      var chunk :- FillWindow(size);
      var start := if firstChunk then 0 else SearchStart(|prevChunk.value|, Delimiter());
      var data := Slide(size, chunk, start, if firstChunk then [] else Held(),
                        Find(old(Rest()), Delimiter(), 0));
      UnboundedFacts(old(Rest()), data, Held(), content.Whole(), Delimiter(), atEof);
      return Got(data);
    }

    /** What must follow a body: a line that is CRLF and nothing else. */
    method ExpectCrlf() returns (r: ReadResult)
      requires Valid()
      modifies content, content.protocol
      ensures r.Got? ==> Valid() && (old(content.Healthy()) ==> content.Healthy())
      ensures r.Got? ==> CRLF <= old(content.Whole()) && content.Whole() == old(content.Whole())[2..]
      ensures old(content.Healthy()) && CRLF <= old(content.Whole()) ==> r.Got?
    {
      ghost var whole := content.Whole();
      var line := content.ReadUntil(LF);
      if line.Got? || line.TooBig? {
        CrlfLine(whole, if line.Got? then line.data else line.lost, content.Whole());
      }
      return if line == Got(CRLF) then line else Raised;
    }

    /** The body has a length that is looked at: the source tests it for truth, so 0 counts as none. */
    predicate Bounded() {
      length.Some? && length.value != 0
    }

    /** Where the body ends in `Rest()`, or -1 if it does not end properly. */
    ghost function End(): int
      reads this, content
      requires content.OffsetOk()
    {
      if Bounded() then MF.CrlfAfter(Rest(), length.value - readBytes) else Find(Rest(), Delimiter(), 0)
    }

    /** Ready for another chunk. */
    ghost predicate InBody(size: nat)
      reads this, content
      requires content.OffsetOk()
    {
      && !atEof && |Delimiter()| <= size && contentEof <= 2
      && if Bounded() then readBytes < length.value && prevChunk.None?
         else Ready(size) && EndInSight()
    }

    /** `_read_chunk_from_length`. */
    method ReadChunkFromLength(size: nat) returns (r: ReadResult)
      requires Valid() && InBody(size) && Bounded()
      modifies this`atEof, content, content.protocol
      ensures r.Got? ==> Valid() && (old(content.Healthy()) ==> content.Healthy())
      ensures r.Got? ==> old(content.Whole()) == r.data + content.Whole() && readBytes + |r.data| <= length.value
      ensures r.Got? && r.data == [] ==> atEof
      ensures r.Got? && atEof ==> content.Whole() == []
      ensures old(content.Healthy()) ==> r.Got?
    {
      var chunkSize := Min(size, length.value - readBytes);
      var chunk, drained := ReadSome(chunkSize);
      if drained {
        atEof := true;
      }
      return chunk;
    }

    /** What a chunk leaves behind: the rest of the body, or what follows the CRLF after it. */
    twostate predicate OneChunk(size: nat, data: bytes)
      reads this, content
      requires content.OffsetOk() && old(content.OffsetOk())
    {
      && Splits(old(Rest()), data, Rest(), atEof, old(End()), End())
      && (atEof ==> Held() == [])
      && (!atEof ==> InBody(size) && (data == [] ==> contentEof > old(contentEof)))
    }

    /** The end of `read_chunk`: a body of declared length ends when that many bytes have been read. */
    method Count(n: nat)
      modifies this`readBytes, this`atEof
      ensures readBytes == old(readBytes) + n && atEof == (old(atEof) || length == Some(readBytes))
    {
      readBytes := readBytes + n;
      if length == Some(readBytes) {
        atEof := true;
      }
    }

    /** A body of declared length is read straight off the stream. */
    lemma NothingHeld()
      requires content.OffsetOk() && prevChunk.None?
      ensures Held() == [] && Rest() == content.Whole()
    {
      EmptyPrefix(content.Whole());
    }

    method ReadBoundedChunk(size: nat) returns (r: ReadResult)
      requires Valid() && InBody(size) && Bounded()
      modifies this, content, content.protocol
      ensures r.Got? ==> Valid() && (old(content.Healthy()) ==> content.Healthy())
      ensures r.Got? ==> OneChunk(size, r.data)
      ensures old(content.Healthy()) && 0 <= old(End()) ==> r.Got?
    {
      NothingHeld();
      ghost var all, left := content.Whole(), length.value - readBytes;
      ghost var e := MF.CrlfAfter(all, left);
      assert Rest() == all && End() == e;
      var chunk :- ReadChunkFromLength(size);
      ghost var rest := content.Whole();
      BoundedChunk(all, chunk, rest, left);
      Count(|chunk|);
      NothingHeld();
      if !atEof {
        BoundedFacts(all, chunk, rest, left, false);
        assert Rest() == rest && End() == MF.CrlfAfter(rest, left - |chunk|);
        return Got(chunk);
      }
      var _ :- ExpectCrlf();
      BoundedFacts(all, chunk, rest, left, true);
      NothingHeld();
      assert Rest() == rest[2..];
      return Got(chunk);
    }

    method ReadUnboundedChunk(size: nat) returns (r: ReadResult)
      requires Valid() && InBody(size) && !Bounded()
      modifies this, content, content.protocol
      ensures r.Got? ==> Valid() && (old(content.Healthy()) ==> content.Healthy())
      ensures r.Got? ==> OneChunk(size, r.data)
      ensures old(content.Healthy()) && 0 <= old(End()) ==> r.Got?
    {
      ghost var all, e := Rest(), End();
      assert e == Find(all, Delimiter(), 0);
      var chunk :- ReadChunkFromStream(size);
      ghost var rest, whole := Rest(), content.Whole();
      Count(|chunk|);
      assert Rest() == rest && End() == Find(rest, Delimiter(), 0);
      if !atEof {
        return Got(chunk);
      }
      var _ :- ExpectCrlf();
      EmptyPrefix(content.Whole());
      assert Rest() == whole[2..];
      return Got(chunk);
    }

    /** `read_chunk` for a body without transfer encoding. */
    method ReadChunk(size: nat) returns (r: ReadResult)
      requires Valid() && InBody(size)
      modifies this, content, content.protocol
      ensures r.Got? ==> Valid() && (old(content.Healthy()) ==> content.Healthy())
      ensures r.Got? ==> OneChunk(size, r.data)
      ensures old(content.Healthy()) && 0 <= old(End()) ==> r.Got?
    {
      if Bounded() {
        r := ReadBoundedChunk(size);
      } else {
        r := ReadUnboundedChunk(size);
      }
    }

    /**
      `read` (and `release`, which drops what it reads), with chunks of `size`:
      the part's body is everything before the place where the body ends, the
      stream is left behind the CRLF there, and a body without an end is an error.
     */
    method Read(size: nat) returns (r: ReadResult)
      requires Valid() && InBody(size)
      modifies this, content, content.protocol
      ensures r.Got? ==> Valid() && (old(content.Healthy()) ==> content.Healthy())
      ensures r.Got? ==>
        var e := old(End());
        && atEof && 0 <= e && e + 2 <= |old(Rest())|
        && r.data == old(Rest())[..e] && content.Whole() == old(Rest())[e + 2..]
      ensures old(content.Healthy()) ==> (r.Got? <==> 0 <= old(End()))
    {
      ghost var all, e := Rest(), End();
      EmptyPrefix(all);
      var data: bytes := [];
      while !atEof
        invariant Valid() && (old(content.Healthy()) ==> content.Healthy())
        invariant Splits(all, data, Rest(), atEof, e, End())
        invariant if atEof then Held() == [] else InBody(size)
        decreases if atEof then 0 else 1, |Rest()|, 3 - contentEof
      {
        ghost var before, e1 := Rest(), End();
        var chunk :- ReadChunk(size);
        SplitsThen(all, data, before, chunk, Rest(), atEof, e, e1, End());
        data := data + chunk;
      }
      EmptyPrefix(content.Whole());
      return Got(data);
    }
  }
}
