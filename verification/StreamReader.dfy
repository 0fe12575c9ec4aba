/**
  The `StreamReader` object (streams.py) and the half of `BaseProtocol`
  (base_protocol.py) that it drives.

  A coroutine of the reader is only ever suspended inside `_wait`. What the
  network does meanwhile is the field `inbox`: the events that the protocol is
  still going to apply to this reader, in order. Each resumption of `_wait`
  consumes an arbitrary non-empty prefix of it.
 */
module StreamReaders {
  import opened Options
  import opened Bytes
  import opened Streams

  class BaseProtocol {
    var connected: bool      // transport is not None
    var readingPaused: bool

    constructor ()
      ensures connected && !readingPaused
    {
      connected, readingPaused := true, false;
    }

    method PauseReading()
      modifies this`readingPaused
      ensures readingPaused == (old(readingPaused) || connected)
    {
      if !readingPaused && connected {
        readingPaused := true;
      }
    }

    method ResumeReading()
      modifies this`readingPaused
      ensures readingPaused == (old(readingPaused) && !connected)
    {
      if readingPaused && connected {
        readingPaused := false;
      }
    }
  }

  datatype Event = Data(data: bytes) | ChunkEnd | Eof

  /** No data after the end, chunk ends only on a chunked body. */
  predicate Legal(chunked: bool, eof: bool, events: seq<Event>)
    decreases |events|
  {
    events == [] ||
    match events[0]
    case Data(_) => !eof && Legal(chunked, eof, events[1..])
    case ChunkEnd => chunked && Legal(chunked, eof, events[1..])
    case Eof => Legal(chunked, true, events[1..])
  }

  function Arriving(events: seq<Event>): bytes {
    if events == [] then []
    else if events[0].Data? then events[0].data + Arriving(events[1..])
    else Arriving(events[1..])
  }

  lemma {:induction false} NothingAfterEof(chunked: bool, events: seq<Event>)
    requires Legal(chunked, true, events)
    ensures Arriving(events) == []
  {
    if events != [] {
      NothingAfterEof(chunked, events[1..]);
    }
  }

  /** What one event does to the stream. */
  function Apply(s: Stream, event: Event): Stream
    requires event.ChunkEnd? ==> s.splits.Some?
  {
    match event
    case Data(data) => s.Feed(data)
    case ChunkEnd => s.EndChunk()
    case Eof => s.(eof := true)
  }

  lemma EofLater(event: Event, events: seq<Event>)
    ensures Eof in [event] + events <==> event.Eof? || Eof in events
  {
  }

  lemma ApplyFlat(s: Stream, events: seq<Event>)
    requires s.Ok() && events != [] && Legal(s.splits.Some?, s.eof, events)
    ensures events[0].ChunkEnd? ==> s.splits.Some?
    ensures var s' := Apply(s, events[0]);
            && s'.Ok() && s'.cursor == s.cursor && Legal(s'.splits.Some?, s'.eof, events[1..])
            && (s'.eof || Eof in events[1..] <==> s.eof || Eof in events)
  {
    assert events == [events[0]] + events[1..];
    EofLater(events[0], events[1..]);
    match events[0] {
      case Data(data) => FeedFlat(s, data);
      case ChunkEnd => EndChunkOk(s);
      case Eof =>
    }
  }

  lemma ApplyKeepsWhole(s: Stream, events: seq<Event>)
    requires s.Ok() && events != [] && Legal(s.splits.Some?, s.eof, events)
    ensures Apply(s, events[0]).Pending() + Arriving(events[1..]) == s.Pending() + Arriving(events)
  {
    if events[0].Data? {
      FeedFlat(s, events[0].data);
      Assoc(s.Pending(), events[0].data, Arriving(events[1..]));
    }
  }

  /** The unread part of a deque whose first piece has been read up to `offset`. */
  function PiecesOf(buffer: seq<bytes>, offset: nat): seq<bytes>
    requires buffer != [] ==> offset <= |buffer[0]|
  {
    if buffer == [] then [] else [buffer[0][offset..]] + buffer[1..]
  }

  lemma PopPieces(buffer: seq<bytes>, offset: nat)
    requires buffer != [] && offset <= |buffer[0]|
    ensures PiecesOf(buffer[1..], 0) == PiecesOf(buffer, offset)[1..]
  {
    if |buffer| > 1 {
      assert [buffer[1][0..]] + buffer[2..] == buffer[1..];
    }
  }

  /** What a read form comes back with: bytes, an exception ("Chunk too big" is one), or it waits for ever. */
  datatype ReadResult = Got(data: bytes) | Raised | TooBig(lost: bytes) | Starved {
    predicate IsFailure() {
      !Got?
    }
    function PropagateFailure(): ReadResult
      requires IsFailure()
    {
      this
    }
    function Extract(): bytes
      requires Got?
    {
      data
    }
  }

  /** `s` is a line: it ends in the separator and has no other. */
  predicate EndsLine(s: bytes, sep: byte) {
    s != [] && s[|s| - 1] == sep && sep !in s[..|s| - 1]
  }

  /** `line` is the shortest prefix of `all` that ends in the separator, or all of it. */
  predicate IsLine(line: bytes, all: bytes, sep: byte) {
    line <= all && (EndsLine(line, sep) || (line == all && sep !in all))
  }

  lemma LineIsUnique(l1: bytes, l2: bytes, all: bytes, sep: byte)
    requires IsLine(l1, all, sep) && IsLine(l2, all, sep)
    ensures l1 == l2
  {
  }

  lemma EndsLineAppend(a: bytes, b: bytes, sep: byte)
    requires sep !in a && EndsLine(b, sep)
    ensures EndsLine(a + b, sep)
  {
    assert (a + b)[..|a + b| - 1] == a + b[..|b| - 1];
  }

  lemma LineDone(all: bytes, chunk: bytes, rest: bytes, sep: byte)
    requires all == chunk + rest
    requires EndsLine(chunk, sep) || (sep !in chunk && rest == [])
    ensures IsLine(chunk, all, sep)
  {
  }

  /** Exactly the lines longer than `limit` have no separator among their first `limit` bytes. */
  lemma LineTooLong(all: bytes, chunk: bytes, rest: bytes, sep: byte, limit: nat)
    requires all == chunk + rest
    requires (sep !in chunk || EndsLine(chunk, sep)) && |chunk| > limit
    ensures sep !in all[..limit]
  {
    assert all[..limit] == chunk[..limit];
    assert chunk[..limit] <= chunk[..|chunk| - 1];
  }

  /** The separator in what is left of a piece, found from the piece's start. */
  lemma UntilInPiece(first: bytes, offset: nat, sep: byte)
    requires offset < |first|
    ensures var i := Find(first, [sep], offset);
            if i < 0 then sep !in first[offset..]
            else offset <= i < |first| && EndsLine(first[offset..][..i + 1 - offset], sep)
  {
    var i := Find(first, [sep], offset);
    FindByte(first, sep, offset);
    if i >= 0 {
      var line := first[offset..][..i + 1 - offset];
      assert line[..|line| - 1] == first[offset..i];
    }
  }

  lemma PiecesCount(buffer: seq<bytes>, offset: nat)
    requires buffer != [] ==> offset <= |buffer[0]|
    ensures |PiecesOf(buffer, offset)| == |buffer|
    ensures buffer != [] ==> PiecesOf(buffer, offset)[0] == buffer[0][offset..]
  {
  }

  /** Reading the first piece up to the separator, or all of it when it has none. */
  lemma PieceUntil(s: Stream, first: bytes, offset: nat, sep: byte, n: int)
    requires offset < |first| && s.pieces != [] && s.pieces[0] == first[offset..]
    requires var i := Find(first, [sep], offset); n == if i < 0 then -1 else i + 1 - offset
    ensures -1 <= n
    ensures var (data, s') := s.ReadPiece(n);
            && s'.eof == s.eof && |s'.pieces| <= |s.pieces|
            && if Find(first, [sep], offset) < 0 then sep !in data && |s'.pieces| < |s.pieces|
               else EndsLine(data, sep)
  {
    UntilInPiece(first, offset, sep);
    var piece := first[offset..];
    assert n == |piece| ==> piece[..n] == piece;
  }

  /** `data` has been read, and reading `left` more comes to `all` and leaves `end`. */
  ghost predicate Nowait(data: bytes, s: Stream, left: int, all: bytes, end: Stream)
    requires -1 <= left
  {
    data + s.ReadNowait(left).0 == all && s.ReadNowait(left).1 == end
  }

  /** One turn of `_read_nowait`. */
  lemma NowaitTurn(data: bytes, s: Stream, left: int, all: bytes, end: Stream)
    requires -1 <= left && s.pieces != [] && Nowait(data, s, left, all, end)
    ensures var (chunk, t) := s.ReadPiece(left);
            var m := if left == -1 then -1 else left - |chunk|;
            -1 <= m && if m == 0 then data + chunk == all && t == end else Nowait(data + chunk, t, m, all, end)
  {
    var (chunk, t) := s.ReadPiece(left);
    var m := if left == -1 then -1 else left - |chunk|;
    if m != 0 {
      Assoc(data, chunk, t.ReadNowait(m).0);
    }
  }

  class StreamReader {
    const protocol: BaseProtocol
    const lowWater: nat
    const highWater: nat
    var buffer: seq<bytes>
    var bufferOffset: nat
    var size: int
    var cursor: int
    var httpChunkSplits: Option<seq<int>>
    var eof: bool
    var failed: bool          // _exception is not None
    var totalBytes: int
    var inbox: seq<Event>     // what the network will still do to this reader

    ghost predicate OffsetOk()
      reads this
    {
      if buffer == [] then bufferOffset == 0 else bufferOffset < |buffer[0]|
    }

    ghost function Abs(): Stream
      reads this
      requires OffsetOk()
    {
      Stream(PiecesOf(buffer, bufferOffset), cursor, totalBytes, httpChunkSplits, eof)
    }

    ghost predicate Valid()
      reads this
    {
      && OffsetOk()
      && Abs().Ok()
      && size == |Abs().Pending()|
      && highWater == 2 * lowWater
      && Legal(httpChunkSplits.Some?, eof, inbox)
    }

    /** The rest of the body, arrived or not. */
    ghost function Whole(): bytes
      reads this
      requires OffsetOk()
    {
      Abs().Pending() + Arriving(inbox)
    }

    /** The peer closes the body some time. */
    ghost predicate Ends()
      reads this
    {
      eof || Eof in inbox
    }

    /** Every read that waits for no more than the end of the body succeeds. */
    ghost predicate Healthy()
      reads this, protocol
    {
      !failed && protocol.connected && Ends()
    }

    /** The water-mark invariant of flow control. */
    ghost predicate FlowOk()
      reads this, protocol
    {
      && (size > highWater ==> protocol.readingPaused)
      && (protocol.readingPaused ==> size >= lowWater)
    }

    /** What every operation leaves alone, and keeps about flow control. */
    twostate predicate Keeps()
      reads this, protocol
    {
      && failed == old(failed) && (old(eof) ==> eof)
      && protocol.connected == old(protocol.connected)
      && (protocol.connected && old(FlowOk()) ==> FlowOk())
    }

    constructor (protocol: BaseProtocol, limit: nat)
      ensures Valid() && this.protocol == protocol && lowWater == limit && !failed && inbox == []
      ensures Abs() == Stream([], 0, 0, None, false)
    {
      this.protocol := protocol;
      lowWater, highWater := limit, limit * 2;
      buffer, bufferOffset, size, cursor := [], 0, 0, 0;
      httpChunkSplits, eof, failed, totalBytes, inbox := None, false, false, 0, [];
    }

    method SetException()
      requires Valid()
      modifies this`failed
      ensures Valid() && failed && Abs() == old(Abs())
    {
      failed := true;
    }

    method FeedEof()
      requires Valid() && Arriving(inbox) == [] && Legal(httpChunkSplits.Some?, true, inbox)
      modifies this`eof
      ensures Valid() && Abs() == old(Abs()).(eof := true)
    {
      eof := true;
    }

    method AtEof() returns (b: bool)
      requires Valid()
      ensures b == (eof && Abs().Pending() == [])
    {
      b := eof && buffer == [];
      assert buffer != [] ==> Abs().pieces[0] <= Abs().Pending();
    }

    method FeedData(data: bytes)
      requires Valid() && !eof
      modifies this, protocol
      ensures Valid() && Keeps() && unchanged(this`inbox)
      ensures Abs() == old(Abs()).Feed(data)
      // paused exactly by data that leave more than the high-water mark
      ensures protocol.readingPaused ==
                (old(protocol.readingPaused) || (protocol.connected && data != [] && size > highWater))
    {
      if data == [] {
        return;
      }
      FeedFlat(Abs(), data);
      size := size + |data|;
      buffer := buffer + [data];
      totalBytes := totalBytes + |data|;
      assert Abs().pieces == old(Abs()).pieces + [data];
      if size > highWater && !protocol.readingPaused {
        protocol.PauseReading();
      }
    }

    method UnreadData(data: bytes)
      requires Valid()
      modifies this
      ensures Valid() && unchanged(this`failed, this`inbox)
      ensures Abs() == old(Abs()).Unread(data)
      // the one operation that may leave the high-water mark crossed with nobody paused
      ensures old(FlowOk()) ==> (FlowOk() <==> (protocol.readingPaused || size <= highWater))
    {
      if data == [] {
        return;
      }
      UnreadFlat(Abs(), data);
      if bufferOffset != 0 {
        buffer := buffer[0 := buffer[0][bufferOffset..]];
        bufferOffset := 0;
      }
      size := size + |data|;
      cursor := cursor - |data|;
      buffer := [data] + buffer;
      assert Abs().pieces == [data] + old(Abs()).pieces;
    }

    method BeginHttpChunkReceiving() returns (raised: bool)
      requires Valid() && inbox == []
      modifies this`httpChunkSplits
      ensures Valid()
      ensures raised == (httpChunkSplits.None? && totalBytes != 0)
      ensures Abs() == if raised then old(Abs()) else old(Abs()).BeginChunk()
    {
      raised := false;
      if httpChunkSplits == None {
        if totalBytes != 0 {
          return true;
        }
        httpChunkSplits := Some([]);
      }
    }

    method EndHttpChunkReceiving() returns (raised: bool)
      requires Valid()
      modifies this`httpChunkSplits
      ensures Valid()
      ensures raised == old(httpChunkSplits).None?
      ensures Abs() == if raised then old(Abs()) else old(Abs()).EndChunk()
    {
      if httpChunkSplits == None {
        return true;
      }
      raised := false;
      var s := httpChunkSplits.value;
      var pos := if s != [] then s[|s| - 1] else 0;
      if totalBytes == pos {
        return;
      }
      EndChunkOk(Abs());
      httpChunkSplits := Some(s + [totalBytes]);
    }

    /** What every successful read does to the flat stream: it takes `data` off its front. */
    twostate predicate Took(data: bytes)
      reads this
      requires OffsetOk() && old(OffsetOk())
    {
      && old(Whole()) == data + Whole()
      && cursor == old(cursor) + |data|
      && (Ends() <==> old(Ends()))
    }

    /** Waiting moves bytes from the inbox to the buffer and changes nothing else. */
    twostate predicate Waited()
      reads this
      requires OffsetOk() && old(OffsetOk())
    {
      Whole() == old(Whole()) && cursor == old(cursor) && (Ends() <==> old(Ends()))
    }

    /** The protocol applies its next event. */
    method Happen()
      requires Valid() && inbox != []
      modifies this, protocol
      ensures Valid() && Keeps() && inbox == old(inbox)[1..]
      ensures old(inbox)[0].ChunkEnd? ==> old(Abs()).splits.Some?
      ensures Abs() == Apply(old(Abs()), old(inbox)[0])
    {
      var event := inbox[0];
      ApplyFlat(Abs(), inbox);
      inbox := inbox[1..];
      match event {
        case Data(data) => FeedData(data);
        case ChunkEnd => var _ := EndHttpChunkReceiving();
        case Eof => eof := true;
      }
    }

    /** `_wait`: at least one event has happened when the coroutine resumes. */
    method Wait() returns (r: ReadResult)
      requires Valid() && !eof && buffer == []
      modifies this, protocol
      ensures Valid() && Keeps() && Waited()
      // flow control cannot deadlock: whoever waits finds the transport reading
      ensures old(FlowOk()) && 0 < lowWater ==> !old(protocol.readingPaused)
      ensures r.Got? ==> |inbox| < |old(inbox)|
      ensures !r.TooBig? && (old(protocol.connected && Ends()) ==> r.Got?)
    {
      if !protocol.connected {
        return Raised;
      }
      if inbox == [] {
        return Starved;
      }
      var k :| 1 <= k <= |inbox|;
      for i := 0 to k
        invariant |inbox| == |old(inbox)| - i
        invariant Valid() && Keeps() && Waited()
      {
        ApplyFlat(Abs(), inbox);
        ApplyKeepsWhole(Abs(), inbox);
        Happen();
      }
      return Got([]);
    }

    method DropPassedSplits()
      modifies this`httpChunkSplits
      ensures httpChunkSplits == match old(httpChunkSplits)
                                 case None => None
                                 case Some(splits) => Some(DropBelow(splits, cursor))
    {
      while httpChunkSplits.Some? && httpChunkSplits.value != [] && httpChunkSplits.value[0] < cursor
        invariant httpChunkSplits.Some? == old(httpChunkSplits).Some?
        invariant httpChunkSplits.Some? ==>
                    DropBelow(httpChunkSplits.value, cursor) == DropBelow(old(httpChunkSplits).value, cursor)
        decreases if httpChunkSplits.Some? then |httpChunkSplits.value| else 0
      {
        httpChunkSplits := Some(httpChunkSplits.value[1..]);
      }
    }

    /** The deque half of `_read_nowait_chunk`: which bytes leave, and where the offset goes. */
    method TakeFirst(n: int) returns (data: bytes)
      requires OffsetOk() && [] !in Abs().pieces && -1 <= n && buffer != []
      modifies this`buffer, this`bufferOffset
      ensures OffsetOk()
      ensures data == old(Abs()).ReadPiece(n).0
      ensures PiecesOf(buffer, bufferOffset) == old(Abs()).ReadPiece(n).1.pieces
    {
      PopPieces(buffer, bufferOffset);
      assert forall i :: 1 <= i < |buffer| ==> buffer[i] == Abs().pieces[i];
      var firstBuffer := buffer[0];
      var offset := bufferOffset;
      if n != -1 && |firstBuffer| - offset > n {
        data := firstBuffer[offset..offset + n];
        bufferOffset := bufferOffset + n;
        assert firstBuffer[offset..][n..] == firstBuffer[offset + n..];
        assert PiecesOf(buffer, bufferOffset) == old(Abs()).ReadPiece(n).1.pieces;
      } else if offset != 0 {
        buffer := buffer[1..];
        data := firstBuffer[offset..];
        bufferOffset := 0;
      } else {
        buffer := buffer[1..];
        data := firstBuffer;
        assert data == firstBuffer[0..];
      }
    }

    method ReadNowaitChunk(n: int) returns (data: bytes)
      requires Valid() && -1 <= n && buffer != []
      modifies this, protocol
      ensures Valid() && Keeps() && unchanged(this`inbox) && Took(data)
      ensures data == old(Abs()).ReadPiece(n).0 && Abs() == old(Abs()).ReadPiece(n).1
      // resumed exactly by a read that leaves less than the low-water mark
      ensures protocol.readingPaused == (old(protocol.readingPaused) && !(protocol.connected && size < lowWater))
    {
      ReadPieceFlat(Abs(), n);
      ghost var next := Abs().ReadPiece(n).1;
      Assoc(Abs().ReadPiece(n).0, next.Pending(), Arriving(inbox));
      data := TakeFirst(n);
      size := size - |data|;
      cursor := cursor + |data|;
      DropPassedSplits();
      assert Abs() == next;
      if size < lowWater && protocol.readingPaused {
        protocol.ResumeReading();
      }
    }

    /** The loop of `_read_nowait`. */
    method TakePieces(n: int) returns (data: bytes)
      requires Valid() && -1 <= n
      modifies this, protocol
      ensures Valid() && Keeps() && unchanged(this`inbox)
      ensures data == old(Abs()).ReadNowait(n).0 && Abs() == old(Abs()).ReadNowait(n).1
    {
      ghost var all, end := Abs().ReadNowait(n).0, Abs().ReadNowait(n).1;
      EmptyPrefix(all);
      data := [];
      var left := n;
      while buffer != []
        invariant Valid() && Keeps() && unchanged(this`inbox) && -1 <= left
        invariant Nowait(data, Abs(), left, all, end)
        decreases |buffer|, left
      {
        NowaitTurn(data, Abs(), left, all, end);
        var chunk := ReadNowaitChunk(left);
        data := data + chunk;
        left := if left == -1 then -1 else left - |chunk|;
        if left == 0 {
          return;
        }
      }
      EmptySuffix(data);
    }

    /** `_read_nowait`. */
    method TakeNowait(n: int) returns (data: bytes)
      requires Valid() && -1 <= n
      modifies this, protocol
      ensures Valid() && Keeps() && unchanged(this`inbox) && Took(data)
      ensures data == old(Abs()).ReadNowait(n).0 && Abs() == old(Abs()).ReadNowait(n).1
    {
      ReadNowaitFlat(Abs(), n);
      Assoc(Abs().ReadNowait(n).0, Abs().ReadNowait(n).1.Pending(), Arriving(inbox));
      data := TakePieces(n);
    }

    /** The wait loop in front of `read` and `readany`. */
    method WaitForData() returns (r: ReadResult)
      requires Valid()
      modifies this, protocol
      ensures Valid() && Keeps() && Waited()
      ensures r.Got? ==> buffer != [] || (eof && Whole() == [])
      ensures old(protocol.connected && Ends()) ==> r.Got?
    {
      while buffer == [] && !eof
        invariant Valid() && Keeps() && Waited()
        decreases |inbox|
      {
        var _ :- Wait();
      }
      if eof {
        NothingAfterEof(httpChunkSplits.Some?, inbox);
      }
      return Got([]);
    }

    method ReadNowait(n: int) returns (r: ReadResult)
      requires Valid() && -1 <= n
      modifies this, protocol
      ensures Valid() && Keeps()
      ensures if failed then r == Raised else r.Got?
      ensures r.Got? ==> Took(r.data)
      ensures r.Got? ==> var had := old(Abs()).Pending();
                         r.data == if n == -1 then had else had[..Min(n, |had|)]
    {
      if failed {
        return Raised;
      }
      ReadNowaitFlat(Abs(), n);
      var data := TakeNowait(n);
      return Got(data);
    }

    method ReadAny() returns (r: ReadResult)
      requires Valid()
      modifies this, protocol
      ensures Valid() && Keeps()
      ensures old(!failed && protocol.connected && Ends()) ==> r.Got?
      ensures r.Got? ==> Took(r.data) && Abs().Pending() == []
      ensures r.Got? && r.data == [] ==> eof && Whole() == []
    {
      if failed {
        return Raised;
      }
      var _ :- WaitForData();
      ReadNowaitFlat(Abs(), -1);
      var data := TakeNowait(-1);
      return Got(data);
    }

    /** The `readany` loop of `read(-1)`. */
    method ReadToEnd() returns (r: ReadResult)
      requires Valid()
      modifies this, protocol
      ensures Valid() && Keeps()
      ensures old(!failed && protocol.connected && Ends()) ==> r.Got?
      ensures r.Got? ==> Took(r.data) && eof && Whole() == []
    {
      EmptyPrefix(Whole());
      var blocks := [];
      while true
        invariant Valid() && Keeps() && Took(blocks)
        decreases |Whole()|
      {
        ghost var before := Whole();
        var block :- ReadAny();
        TakeTwice(old(Whole()), blocks, before, block, Whole());
        if block == [] {
          break;
        }
        blocks := blocks + block;
      }
      return Got(blocks);
    }

    /** Up to n bytes, none only at the end; all of the body when n is negative. */
    method Read(n: int) returns (r: ReadResult)
      requires Valid()
      modifies this, protocol
      ensures Valid() && Keeps()
      ensures old(!failed && protocol.connected && Ends()) ==> r.Got?
      ensures r.Got? ==> Took(r.data) && ReadAtMost(n, r.data)
    {
      if failed {
        return Raised;
      }
      if n == 0 {
        EmptyPrefix(Whole());
        return Got([]);
      }
      if n < 0 {
        r := ReadToEnd();
        return;
      }
      var _ :- WaitForData();
      ReadNowaitFlat(Abs(), n);
      var data := TakeNowait(n);
      return Got(data);
    }

    /** A short read has emptied the buffer; an empty one has met the end. */
    ghost predicate ReadAtMost(n: int, data: bytes)
      reads this
      requires OffsetOk()
    {
      if n < 0 then eof && Whole() == []
      else
        && |data| <= n
        && (|data| < n ==> Abs().Pending() == [])
        && (0 < n && data == [] ==> eof && Whole() == [])
    }

    /** Exactly n bytes, or the error that carries everything that was left. */
    method ReadExactly(n: int) returns (r: ReadResult, incomplete: bool)
      requires Valid()
      modifies this, protocol
      ensures Valid() && Keeps()
      ensures old(!failed && protocol.connected && Ends()) ==> r.Got?
      ensures r.Got? ==> Took(r.data)
      ensures r.Got? ==> incomplete == (|old(Whole())| < n)
      ensures r.Got? && !incomplete ==> |r.data| == Max(n, 0)
      ensures r.Got? && incomplete ==> r.data == old(Whole())
    {
      incomplete := false;
      if failed {
        return Raised, false;
      }
      EmptyPrefix(Whole());
      var blocks: bytes := [];
      var left := n;
      while left > 0
        invariant Valid() && Keeps() && Took(blocks)
        invariant left == n - |blocks| && (left >= 0 || blocks == [])
        decreases left
      {
        ghost var before := Whole();
        var block := Read(left);
        if !block.Got? {
          return block, false;
        }
        TakeTwice(old(Whole()), blocks, before, block.data, Whole());
        if block.data == [] {
          return Got(blocks), true;
        }
        blocks := blocks + block.data;
        left := left - |block.data|;
      }
      return Got(blocks), false;
    }

    /** `readuntil` with a one-byte separator; `readline` is the case LF. */
    method ReadUntil(sep: byte) returns (r: ReadResult)
      requires Valid()
      modifies this, protocol
      ensures Valid() && Keeps()
      ensures old(!failed && protocol.connected && Ends()) ==> r.Got? || r.TooBig?
      ensures r.Got? ==> Took(r.data) && |r.data| <= highWater
                         && (EndsLine(r.data, sep) || (sep !in r.data && Whole() == []))
      ensures r.TooBig? ==> Took(r.lost) && |r.lost| > highWater
                            && (EndsLine(r.lost, sep) || sep !in r.lost)
    {
      if failed {
        return Raised;
      }
      EmptyPrefix(Whole());
      var chunk: bytes, notEnough, big := [], true, false;
      while true
        invariant Valid() && Keeps() && Took(chunk) && |chunk| <= highWater && sep !in chunk
        decreases |inbox|
      {
        chunk, notEnough, big := ReadUntilBuffered(sep, chunk);
        if big {
          return TooBig(chunk);
        }
        if eof || !notEnough {
          return Got(chunk);
        }
        var _ :- Wait();
      }
    }

    /** One turn of the inner loop of `readuntil`: the first piece, up to the separator. */
    method ReadUntilPiece(sep: byte) returns (data: bytes, found: bool)
      requires Valid() && buffer != []
      modifies this, protocol
      ensures Valid() && Keeps() && unchanged(this`inbox) && Took(data)
      ensures eof == old(eof) && |buffer| <= |old(buffer)|
      ensures if found then EndsLine(data, sep)
              else sep !in data && |buffer| < |old(buffer)|
    {
      var offset := bufferOffset;
      var ichar := Find(buffer[0], [sep], offset) + 1;
      var n := if ichar != 0 then ichar - offset else -1;
      PieceUntil(Abs(), buffer[0], offset, sep, n);
      PiecesCount(buffer, offset);
      data := ReadNowaitChunk(n);
      PiecesCount(buffer, bufferOffset);
      found := ichar != 0;
    }

    /** The inner loop of `readuntil`: searches the buffered pieces one by one. */
    method ReadUntilBuffered(sep: byte, start: bytes)
      returns (chunk: bytes, notEnough: bool, tooBig: bool)
      requires Valid() && sep !in start && |start| <= highWater
      modifies this, protocol
      ensures Valid() && Keeps() && unchanged(this`inbox) && eof == old(eof)
      ensures chunk + Whole() == start + old(Whole()) && cursor - |chunk| == old(cursor) - |start|
      ensures if notEnough then sep !in chunk && (tooBig || (buffer == [] && (eof ==> Whole() == [])))
              else EndsLine(chunk, sep)
      ensures tooBig <==> |chunk| > highWater
    {
      chunk, notEnough, tooBig := start, true, false;
      if eof {
        NothingAfterEof(httpChunkSplits.Some?, inbox);
      }
      while buffer != [] && notEnough
        invariant Valid() && Keeps() && unchanged(this`inbox) && eof == old(eof)
        invariant chunk + Whole() == start + old(Whole()) && cursor - |chunk| == old(cursor) - |start|
        invariant |chunk| <= highWater
        invariant if notEnough then sep !in chunk else EndsLine(chunk, sep)
        decreases notEnough, |buffer|
      {
        ghost var before := Whole();
        var data, found := ReadUntilPiece(sep);
        TakeTwice(chunk + before, chunk, before, data, Whole());
        if found {
          EndsLineAppend(chunk, data, sep);
          notEnough := false;
        }
        chunk := chunk + data;
        if |chunk| > highWater {
          tooBig := true;
          return;
        }
      }
    }

    /** The chunk end recorded first, and the data up to it. */
    method ReadToChunkEnd() returns (data: bytes)
      requires Valid() && httpChunkSplits.Some? && httpChunkSplits.value != []
      modifies this, protocol
      ensures Valid() && Keeps() && unchanged(this`inbox)
      ensures old(Abs()).ReadChunk().0 == Some((data, true)) && Abs() == old(Abs()).ReadChunk().1
    {
      ReadChunkCases(Abs());
      var pos := httpChunkSplits.value[0];
      httpChunkSplits := Some(httpChunkSplits.value[1..]);
      assert Abs() == old(Abs()).(splits := httpChunkSplits);
      // a chunk end that the cursor has passed, the case of the warning, never happens
      data := [];
      if pos > cursor {
        data := TakeNowait(pos - cursor);
      }
    }

    /** One round of the loop of `readchunk`; None when it has to wait. */
    method ReadChunkRound() returns (r: Option<(bytes, bool)>)
      requires Valid()
      modifies this, protocol
      ensures Valid() && Keeps() && unchanged(this`inbox)
      ensures r == old(Abs()).ReadChunk().0 && Abs() == old(Abs()).ReadChunk().1
    {
      if httpChunkSplits.Some? && httpChunkSplits.value != [] {
        var data := ReadToChunkEnd();
        return Some((data, true));
      }
      ReadChunkCases(Abs());
      if buffer != [] {
        var data := ReadNowaitChunk(-1);
        return Some((data, false));
      }
      return if eof then Some(([], false)) else None;
    }

    /** One turn of `readchunk`: what it returns, or else there is nothing yet. */
    method ReadChunkTurn() returns (r: Option<(bytes, bool)>)
      requires Valid()
      modifies this, protocol
      ensures Valid() && Keeps() && unchanged(this`inbox)
      ensures r.Some? ==> Took(r.value.0) && (r == Some(([], false)) ==> eof && Whole() == [])
      ensures r.None? ==> Waited() && !eof && buffer == []
    {
      ReadChunkFlat(Abs());
      ReadChunkCases(Abs());
      PiecesCount(buffer, bufferOffset);
      if eof {
        NothingAfterEof(httpChunkSplits.Some?, inbox);
      }
      ghost var rest := Arriving(inbox);
      r := ReadChunkRound();
      if r.Some? {
        Assoc(r.value.0, Abs().Pending(), rest);
      }
      PiecesCount(buffer, bufferOffset);
    }

    method ReadChunk() returns (r: ReadResult, end: bool)
      requires Valid()
      modifies this, protocol
      ensures Valid() && Keeps()
      ensures old(!failed && protocol.connected && Ends()) ==> r.Got?
      ensures r.Got? ==> Took(r.data)
      ensures r.Got? && r.data == [] && !end ==> eof && Whole() == []
    {
      end := false;
      while true
        invariant Valid() && Keeps() && Waited()
        decreases |inbox|
      {
        if failed {
          return Raised, false;
        }
        var turn := ReadChunkTurn();
        if turn.Some? {
          return Got(turn.value.0), turn.value.1;
        }
        r := Wait();
        if !r.Got? {
          return;
        }
      }
    }
  }
}
