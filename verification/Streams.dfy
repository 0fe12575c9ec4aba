/**
  `StreamReader` (streams.py): a deque of byte pieces with an offset into the
  first one, a cursor, the list of HTTP chunk ends and two water marks.

  `Stream` is the value the object stands for: the unread pieces without the
  offset. Every method of the class says which `Stream` it leaves behind; the
  lemmas are about `Stream` and about runs of operations on it.
 */
module Streams {
  import opened Options
  import opened Bytes

  /** The object's value: unread pieces, counters, chunk ends still to be reported. */
  datatype Stream = Stream(
    pieces: seq<bytes>, cursor: int, total: int, splits: Option<seq<int>>, eof: bool)
  {
    function Pending(): bytes {
      Join(pieces)
    }

    ghost predicate Ok() {
      && [] !in pieces
      && cursor + |Pending()| == total
      && 0 <= total
      && (splits.Some? ==> SplitsOk(splits.value, Max(1, cursor), total))
    }

    /** `feed_data`. */
    function Feed(data: bytes): Stream {
      if data == [] then this
      else this.(pieces := pieces + [data], total := total + |data|)
    }

    /** `unread_data`. */
    function Unread(data: bytes): Stream {
      if data == [] then this
      else this.(pieces := [data] + pieces, cursor := cursor - |data|)
    }

    /** `begin_http_chunk_receiving`, when it does not raise. */
    function BeginChunk(): Stream {
      if splits.None? then this.(splits := Some([])) else this
    }

    /** `end_http_chunk_receiving`, when it does not raise. */
    function EndChunk(): Stream
      requires splits.Some?
    {
      var s := splits.value;
      if total == (if s == [] then 0 else s[|s| - 1]) then this
      else this.(splits := Some(s + [total]))
    }

    /** `_read_nowait_chunk`: from the first piece, all of it when n is -1, else up to n bytes. */
    function ReadPiece(n: int): (r: (bytes, Stream))
      requires -1 <= n && pieces != []
    {
      var first := pieces[0];
      var (data, rest) :=
        if n != -1 && |first| > n then (first[..n], [first[n..]] + pieces[1..])
        else (first, pieces[1..]);
      var c := cursor + |data|;
      (data, this.(pieces := rest, cursor := c,
                   splits := if splits.Some? then Some(DropBelow(splits.value, c)) else None))
    }

    /** `_read_nowait`: all pieces when n is -1, else up to n bytes of them. */
    function ReadNowait(n: int): (r: (bytes, Stream))
      requires -1 <= n
      decreases |pieces|, n
    {
      if pieces == [] then ([], this)
      else
        var (data, s) := ReadPiece(n);
        if n == -1 then
          var (more, s') := s.ReadNowait(-1); (data + more, s')
        else if n == |data| then (data, s)
        else
          var (more, s') := s.ReadNowait(n - |data|); (data + more, s')
    }

    /** One round of the loop of `readchunk`; None means that it has to wait. */
    function ReadChunk(): (r: (Option<(bytes, bool)>, Stream))
      decreases if splits.Some? then |splits.value| else 0
    {
      if splits.Some? && splits.value != [] then
        var pos := splits.value[0];
        var s := this.(splits := Some(splits.value[1..]));
        if pos == cursor then (Some(([], true)), s)
        else if pos > cursor then
          var (data, s') := s.ReadNowait(pos - cursor);
          (Some((data, true)), s')
        else s.ReadChunk()
      else if pieces != [] then
        var (data, s) := ReadPiece(-1);
        (Some((data, false)), s)
      else if eof then (Some(([], false)), this)
      else (None, this)
    }
  }

  function Min(a: int, b: int): int {
    if a < b then a else b
  }

  function Max(a: int, b: int): int {
    if a < b then b else a
  }

  /** Strictly increasing offsets from `lo` to `hi`. */
  ghost predicate SplitsOk(s: seq<int>, lo: int, hi: int) {
    s != [] ==> lo <= s[0] <= hi && SplitsOk(s[1..], s[0] + 1, hi)
  }

  lemma {:induction false} SplitsOkMeans(s: seq<int>, lo: int, hi: int)
    requires SplitsOk(s, lo, hi)
    ensures forall i :: 0 <= i < |s| ==> lo <= s[i] <= hi
    ensures forall i, j :: 0 <= i < j < |s| ==> s[i] < s[j]
  {
    if s != [] {
      SplitsOkMeans(s[1..], s[0] + 1, hi);
      assert forall i :: 1 <= i < |s| ==> s[i] == s[1..][i - 1];
    }
  }

  lemma {:induction false} SplitsOkWiden(s: seq<int>, lo: int, hi: int, lo': int, hi': int)
    requires SplitsOk(s, lo, hi) && hi <= hi'
    requires s != [] ==> lo' <= s[0]
    ensures SplitsOk(s, lo', hi')
  {
    if s != [] {
      SplitsOkWiden(s[1..], s[0] + 1, hi, s[0] + 1, hi');
    }
  }

  lemma {:induction false} SplitsOkSnoc(s: seq<int>, lo: int, hi: int, x: int)
    requires SplitsOk(s, lo, hi) && lo <= x && hi <= x
    requires s != [] ==> s[|s| - 1] < x
    ensures SplitsOk(s + [x], lo, x)
  {
    if s != [] {
      assert (s + [x])[1..] == s[1..] + [x];
      SplitsOkMeans(s, lo, hi);
      SplitsOkSnoc(s[1..], s[0] + 1, hi, x);
    }
  }

  /** Drops the leading chunk ends that lie before the cursor. */
  function DropBelow(s: seq<int>, c: int): seq<int> {
    if s != [] && s[0] < c then DropBelow(s[1..], c) else s
  }

  lemma {:induction false} DropBelowOk(s: seq<int>, lo: int, c: int, hi: int)
    requires SplitsOk(s, lo, hi)
    ensures SplitsOk(DropBelow(s, c), Max(lo, c), hi)
    ensures s != [] && c <= s[0] ==> DropBelow(s, c) == s
  {
    if s != [] && s[0] < c {
      DropBelowOk(s[1..], s[0] + 1, c, hi);
    }
  }

  /** Those that stay are the ends at or behind the cursor, in their order. */
  lemma {:induction false} DropBelowIs(s: seq<int>, lo: int, c: int, hi: int)
    requires SplitsOk(s, lo, hi)
    ensures forall x :: x in DropBelow(s, c) <==> x in s && c <= x
    ensures |DropBelow(s, c)| <= |s| && s[|s| - |DropBelow(s, c)|..] == DropBelow(s, c)
  {
    if s != [] {
      SplitsOkMeans(s, lo, hi);
      if s[0] < c {
        DropBelowIs(s[1..], s[0] + 1, c, hi);
        assert s[1..][|s[1..]| - |DropBelow(s, c)|..] == s[|s| - |DropBelow(s, c)|..];
      }
    }
  }

  // ---------------------------------------------------------------------
  // The flat view: every operation is an operation on one byte sequence.
  // ---------------------------------------------------------------------

  lemma FeedFlat(s: Stream, data: bytes)
    requires s.Ok()
    ensures s.Feed(data).Ok() && s.Feed(data).Pending() == s.Pending() + data
  {
    JoinSnoc(s.pieces, data);
    if s.splits.Some? {
      var lo := Max(1, s.cursor);
      SplitsOkWiden(s.splits.value, lo, s.total, lo, s.total + |data|);
    }
  }

  lemma UnreadFlat(s: Stream, data: bytes)
    requires s.Ok()
    ensures s.Unread(data).Ok() && s.Unread(data).Pending() == data + s.Pending()
  {
    assert ([data] + s.pieces)[1..] == s.pieces;
    if s.splits.Some? {
      SplitsOkWiden(s.splits.value, Max(1, s.cursor), s.total, Max(1, s.cursor - |data|), s.total);
    }
  }

  lemma EndChunkOk(s: Stream)
    requires s.Ok() && s.splits.Some?
    ensures s.EndChunk().Ok()
  {
    if s.EndChunk() != s {
      SplitsOkMeans(s.splits.value, Max(1, s.cursor), s.total);
      SplitsOkSnoc(s.splits.value, Max(1, s.cursor), s.total, s.total);
    }
  }

  lemma ReadPieceFlat(s: Stream, n: int)
    requires s.Ok() && -1 <= n && s.pieces != []
    ensures var (data, s') := s.ReadPiece(n);
            && s'.Ok() && s.Pending() == data + s'.Pending()
            && s'.cursor == s.cursor + |data| && s'.total == s.total && s'.eof == s.eof
            && (n != -1 ==> |data| <= n)
            && (n != 0 ==> data != [])
            && (n == -1 || |data| < n ==> s'.pieces == s.pieces[1..])
  {
    var first := s.pieces[0];
    var (data, s') := s.ReadPiece(n);
    assert Join(s.pieces) == first + Join(s.pieces[1..]);
    if n != -1 && |first| > n {
      assert s'.pieces[0] == first[n..] && s'.pieces[1..] == s.pieces[1..];
      assert first == first[..n] + first[n..];
    }
    if s.splits.Some? {
      DropBelowOk(s.splits.value, Max(1, s.cursor), s'.cursor, s.total);
    }
  }

  /** `_read_nowait` returns exactly the next n bytes (or all, or all there are). */
  lemma {:induction false} ReadNowaitFlat(s: Stream, n: int)
    requires s.Ok() && -1 <= n
    ensures var (data, s') := s.ReadNowait(n);
            && s'.Ok() && s.Pending() == data + s'.Pending()
            && s'.cursor == s.cursor + |data| && s'.total == s.total && s'.eof == s.eof
            && (n == -1 ==> s'.pieces == [])
            && (n != -1 ==> |data| == Min(n, |s.Pending()|) && (|data| < n ==> s'.pieces == []))
    decreases |s.pieces|, n
  {
    if s.pieces != [] {
      ReadPieceFlat(s, n);
      var (data, s1) := s.ReadPiece(n);
      if n == -1 {
        ReadNowaitFlat(s1, -1);
        Assoc(data, s1.ReadNowait(-1).0, s1.ReadNowait(-1).1.Pending());
      } else if n != |data| {
        ReadNowaitFlat(s1, n - |data|);
        var (more, s2) := s1.ReadNowait(n - |data|);
        Assoc(data, more, s2.Pending());
      }
    }
  }

  /** The chunk ends after a read: those that the cursor has not passed, in their order. */
  ghost predicate KeepsEnds(s: Stream, s': Stream) {
    && (s'.splits.Some? <==> s.splits.Some?)
    && (s.splits.Some? ==>
          && |s'.splits.value| <= |s.splits.value|
          && s'.splits.value == s.splits.value[|s.splits.value| - |s'.splits.value|..]
          && forall x :: x in s'.splits.value <==> x in s.splits.value && s'.cursor <= x)
  }

  lemma KeepsEndsTwice(s: Stream, s1: Stream, s2: Stream)
    requires KeepsEnds(s, s1) && KeepsEnds(s1, s2) && s1.cursor <= s2.cursor
    ensures KeepsEnds(s, s2)
  {
  }

  lemma ReadPieceEnds(s: Stream, n: int)
    requires s.Ok() && -1 <= n && s.pieces != []
    ensures KeepsEnds(s, s.ReadPiece(n).1)
  {
    if s.splits.Some? {
      DropBelowIs(s.splits.value, Max(1, s.cursor), s.ReadPiece(n).1.cursor, s.total);
    }
  }

  /** `_read_nowait` lets go of exactly the chunk ends that it has passed. */
  lemma {:induction false} ReadNowaitEnds(s: Stream, n: int)
    requires s.Ok() && -1 <= n
    ensures KeepsEnds(s, s.ReadNowait(n).1)
    decreases |s.pieces|, n
  {
    if s.pieces == [] {
      if s.splits.Some? {
        SplitsOkMeans(s.splits.value, Max(1, s.cursor), s.total);
      }
    } else {
      ReadPieceFlat(s, n);
      ReadPieceEnds(s, n);
      var (data, s1) := s.ReadPiece(n);
      if n == -1 || n != |data| {
        var m := if n == -1 then -1 else n - |data|;
        ReadNowaitFlat(s1, m);
        ReadNowaitEnds(s1, m);
        KeepsEndsTwice(s, s1, s1.ReadNowait(m).1);
      }
    }
  }

  /** Reading exactly up to the first chunk end: all the bytes are there, and no end is lost. */
  lemma ReadUpTo(s: Stream, n: int)
    requires s.Ok() && 0 < n <= |s.Pending()| && s.splits.Some?
    requires s.splits.value != [] ==> s.cursor + n <= s.splits.value[0]
    ensures var (data, s') := s.ReadNowait(n);
            && s'.Ok() && s'.total == s.total && s'.eof == s.eof && s'.splits == s.splits
            && |data| == n && s'.cursor == s.cursor + n && s.Pending() == data + s'.Pending()
  {
    ReadNowaitFlat(s, n);
    ReadNowaitSplits(s, n);
  }

  lemma PopSplitOk(s: Stream)
    requires s.Ok() && s.splits.Some? && s.splits.value != []
    ensures s.(splits := Some(s.splits.value[1..])).Ok()
    ensures s.cursor <= s.splits.value[0] <= s.total
    ensures |s.splits.value| > 1 ==> s.splits.value[0] < s.splits.value[1]
  {
    SplitsOkWiden(s.splits.value[1..], s.splits.value[0] + 1, s.total, Max(1, s.cursor), s.total);
  }

  /** `readchunk` by cases; the case of a chunk end behind the cursor is gone. */
  lemma ReadChunkCases(s: Stream)
    requires s.Ok()
    ensures s.splits.Some? && s.splits.value != [] ==>
              var pos := s.splits.value[0];
              var s1 := s.(splits := Some(s.splits.value[1..]));
              && s1.Ok() && s.cursor <= pos <= s.total
              && (pos == s.cursor ==> s.ReadChunk().0 == Some(([], true)) && s.ReadChunk().1 == s1)
              && (pos != s.cursor ==> s.ReadChunk().0 == Some((s1.ReadNowait(pos - s.cursor).0, true))
                                      && s.ReadChunk().1 == s1.ReadNowait(pos - s.cursor).1)
    ensures (s.splits.None? || s.splits.value == []) && s.pieces != [] ==>
              s.ReadChunk().0 == Some((s.ReadPiece(-1).0, false)) && s.ReadChunk().1 == s.ReadPiece(-1).1
    ensures (s.splits.None? || s.splits.value == []) && s.pieces == [] ==>
              s.ReadChunk().0 == (if s.eof then Some(([], false)) else None) && s.ReadChunk().1 == s
  {
    if s.splits.Some? && s.splits.value != [] {
      PopSplitOk(s);
    }
  }

  /** With a chunk end to report, `readchunk` stops exactly there; it never finds a passed one. */
  lemma ReadChunkToEnd(s: Stream)
    requires s.Ok() && s.splits.Some? && s.splits.value != []
    ensures var (r, s') := s.ReadChunk();
            && r.Some? && r.value.1 && s'.Ok() && s'.total == s.total && s'.eof == s.eof
            && s.Pending() == r.value.0 + s'.Pending()
            && s'.cursor == s.splits.value[0] == s.cursor + |r.value.0|
            && s'.splits == Some(s.splits.value[1..])
  {
    ReadChunkCases(s);
    PopSplitOk(s);
    var n := s.splits.value[0] - s.cursor;
    var s1 := s.(splits := Some(s.splits.value[1..]));
    if n > 0 {
      ReadUpTo(s1, n);
    } else {
      EmptyPrefix(s1.Pending());
    }
  }

  /** With no chunk end to report, `readchunk` hands out one piece, or end, or waits. */
  lemma ReadChunkPiece(s: Stream)
    requires s.Ok() && (s.splits.None? || s.splits.value == [])
    ensures var (r, s') := s.ReadChunk();
            && s'.Ok() && s'.total == s.total && s'.eof == s.eof && s'.splits == s.splits
            && match r
               case None => s' == s && s.pieces == [] && !s.eof
               case Some((data, end)) =>
                 && !end && s.Pending() == data + s'.Pending()
                 && s'.cursor == s.cursor + |data|
                 && (if s.pieces == [] then data == [] && s.eof && s' == s
                     else data == s.pieces[0] && s'.pieces == s.pieces[1..])
  {
    ReadChunkCases(s);
    if s.pieces != [] {
      ReadPieceFlat(s, -1);
    }
  }

  /** Either way `readchunk` takes the next bytes of the flat stream, and ends only at its end. */
  lemma ReadChunkFlat(s: Stream)
    requires s.Ok()
    ensures var (r, s') := s.ReadChunk();
            && s'.Ok() && s'.eof == s.eof
            && (r.None? ==> s' == s && !s.eof)
            && (r.Some? ==> s.Pending() == r.value.0 + s'.Pending()
                            && s'.cursor == s.cursor + |r.value.0|)
            && (r == Some(([], false)) ==> s.eof && s.Pending() == [])
  {
    if s.splits.Some? && s.splits.value != [] {
      ReadChunkToEnd(s);
    } else {
      ReadChunkPiece(s);
    }
  }

  /** Reading up to the first chunk end drops no chunk end. */
  lemma {:induction false} ReadNowaitSplits(s: Stream, n: int)
    requires s.Ok() && 0 < n && s.splits.Some?
    requires s.splits.value != [] ==> s.cursor + n <= s.splits.value[0]
    ensures s.ReadNowait(n).1.splits == s.splits
    decreases |s.pieces|, n
  {
    if s.pieces != [] {
      ReadPieceFlat(s, n);
      var (data, s1) := s.ReadPiece(n);
      assert s1.splits == s.splits;
      if n != |data| {
        ReadNowaitSplits(s1, n - |data|);
      }
    }
  }
}
