/**
  Whole runs of a `StreamReader`: what comes out is what went in, `readchunk`
  hands back the HTTP chunks, and the water marks never leave a reader waiting
  on a paused transport.
 */
module StreamRuns {
  import opened Options
  import opened Bytes
  import opened Streams
  import SR = StreamReaders

  // ---------------------------------------------------------------------
  // Reads return the feed, whatever the interleaving.
  // ---------------------------------------------------------------------

  datatype Op = Feed(data: bytes) | Unread(data: bytes) | Take(n: int) | TakePiece(n: int)

  /** A stream, all that was fed to it and all that its reader holds. */
  datatype Session = Session(stream: Stream, fed: bytes, out: bytes)

  /** An operation the source allows here; what is unread was read last. */
  predicate Allowed(s: Session, op: Op) {
    match op
    case Feed(_) => !s.stream.eof
    case Unread(data) => |data| <= |s.out| && s.out[|s.out| - |data|..] == data
    case Take(n) => -1 <= n
    case TakePiece(n) => -1 <= n && s.stream.pieces != []
  }

  function Do(s: Session, op: Op): Session
    requires Allowed(s, op)
  {
    match op
    case Feed(data) => Session(s.stream.Feed(data), s.fed + data, s.out)
    case Unread(data) => Session(s.stream.Unread(data), s.fed, s.out[..|s.out| - |data|])
    case Take(n) => var (data, t) := s.stream.ReadNowait(n); Session(t, s.fed, s.out + data)
    case TakePiece(n) => var (data, t) := s.stream.ReadPiece(n); Session(t, s.fed, s.out + data)
  }

  predicate AllAllowed(s: Session, ops: seq<Op>)
    decreases |ops|
  {
    ops != [] ==> Allowed(s, ops[0]) && AllAllowed(Do(s, ops[0]), ops[1..])
  }

  function DoAll(s: Session, ops: seq<Op>): Session
    requires AllAllowed(s, ops)
    decreases |ops|
  {
    if ops == [] then s else DoAll(Do(s, ops[0]), ops[1..])
  }

  ghost predicate Conserved(s: Session) {
    && s.stream.Ok()
    && s.out + s.stream.Pending() == s.fed
    && s.stream.cursor == |s.out| && s.stream.total == |s.fed|
  }

  lemma StepConserves(s: Session, op: Op)
    requires Conserved(s) && Allowed(s, op)
    ensures Conserved(Do(s, op))
  {
    match op {
      case Feed(data) =>
        FeedFlat(s.stream, data);
        Assoc(s.out, s.stream.Pending(), data);
      case Unread(data) =>
        UnreadFlat(s.stream, data);
        var kept := s.out[..|s.out| - |data|];
        assert s.out == kept + data;
        Assoc(kept, data, s.stream.Pending());
      case Take(n) =>
        ReadNowaitFlat(s.stream, n);
        Assoc(s.out, s.stream.ReadNowait(n).0, s.stream.ReadNowait(n).1.Pending());
      case TakePiece(n) =>
        ReadPieceFlat(s.stream, n);
        Assoc(s.out, s.stream.ReadPiece(n).0, s.stream.ReadPiece(n).1.Pending());
    }
  }

  /** Nothing is lost, repeated or reordered by any run: cursor and total count it exactly. */
  lemma {:induction false} ReadsReturnTheFeed(s: Session, ops: seq<Op>)
    requires Conserved(s) && AllAllowed(s, ops)
    ensures Conserved(DoAll(s, ops))
    decreases |ops|
  {
    if ops != [] {
      StepConserves(s, ops[0]);
      ReadsReturnTheFeed(Do(s, ops[0]), ops[1..]);
    }
  }

  // ---------------------------------------------------------------------
  // readchunk recovers the HTTP chunks.
  // ---------------------------------------------------------------------

  datatype ChunkOp = Data(data: bytes) | End | Finish | ReadChunk

  /**
    The chunks the peer has finished and the bytes of the next one; the chunks
    the reader has joined up to a True flag and its bytes since the last one.
   */
  datatype Transfer = Transfer(
    stream: Stream, sent: seq<bytes>, open: bytes, chunks: seq<bytes>, partial: bytes)

  const NewTransfer := Transfer(Stream([], 0, 0, Some([]), false), [], [], [], [])

  predicate ChunkAllowed(t: Transfer, op: ChunkOp) {
    && (op.Data? ==> !t.stream.eof)
    && (op.End? ==> t.stream.splits.Some?)
  }

  /**
    A chunk that ends counts as one: always if it has bytes. The plain parser ends
    no other; an empty one, which a decompressor can produce, counts if bytes were
    fed before and the reader has been told of all ends recorded so far.
   */
  predicate Counts(t: Transfer) {
    t.open != [] || (t.stream.total != 0 && t.stream.splits == Some([]))
  }

  function ChunkStep(t: Transfer, op: ChunkOp): Transfer
    requires ChunkAllowed(t, op)
  {
    match op
    case Data(data) => t.(stream := t.stream.Feed(data), open := t.open + data)
    case End => t.(stream := t.stream.EndChunk(), sent := if Counts(t) then t.sent + [t.open] else t.sent, open := [])
    case Finish => t.(stream := t.stream.(eof := true))
    case ReadChunk =>
      var (r, stream) := t.stream.ReadChunk();
      match r
      case None => t.(stream := stream)
      case Some((data, true)) => t.(stream := stream, chunks := t.chunks + [t.partial + data], partial := [])
      case Some((data, false)) => t.(stream := stream, partial := t.partial + data)
  }

  predicate AllChunkAllowed(t: Transfer, ops: seq<ChunkOp>)
    decreases |ops|
  {
    ops != [] ==> ChunkAllowed(t, ops[0]) && AllChunkAllowed(ChunkStep(t, ops[0]), ops[1..])
  }

  function ChunkRun(t: Transfer, ops: seq<ChunkOp>): Transfer
    requires AllChunkAllowed(t, ops)
    decreases |ops|
  {
    if ops == [] then t else ChunkRun(ChunkStep(t, ops[0]), ops[1..])
  }

  /** The offsets at which the chunks of `rest` end, counted from `base`. */
  function EndsOf(base: int, rest: seq<bytes>): seq<int>
    decreases |rest|
  {
    if rest == [] then [] else [base + |rest[0]|] + EndsOf(base + |rest[0]|, rest[1..])
  }

  lemma {:induction false} EndsOfSnoc(base: int, rest: seq<bytes>, x: bytes)
    ensures EndsOf(base, rest + [x]) == EndsOf(base, rest) + [base + |Join(rest)| + |x|]
    decreases |rest|
  {
    if rest == [] {
      assert rest + [x] == [x];
    } else {
      var b, all := base + |rest[0]|, rest + [x];
      var e, last := EndsOf(b, rest[1..]), base + |Join(rest)| + |x|;
      EndsOfSnoc(b, rest[1..], x);
      assert all[0] == rest[0] && all[1..] == rest[1..] + [x];
      assert Join(rest) == rest[0] + Join(rest[1..]);
      assert [b] + (e + [last]) == ([b] + e) + [last];
    }
  }

  lemma {:induction false} LastOfEnds(base: int, rest: seq<bytes>)
    ensures var e := EndsOf(base, rest);
            if rest == [] then e == [] else e != [] && e[|e| - 1] == base + |Join(rest)|
    decreases |rest|
  {
    if rest != [] {
      LastOfEnds(base + |rest[0]|, rest[1..]);
      assert Join(rest) == rest[0] + Join(rest[1..]);
    }
  }

  /** The chunks not yet handed over. */
  function Rest(t: Transfer): seq<bytes> {
    if |t.chunks| <= |t.sent| then t.sent[|t.chunks|..] else []
  }

  ghost predicate Recovers(t: Transfer) {
    && t.stream.Ok()
    && t.chunks <= t.sent
    && t.partial + t.stream.Pending() == Join(Rest(t)) + t.open
    && t.stream.cursor == |Join(t.chunks)| + |t.partial|
    && t.stream.splits == Some(EndsOf(|Join(t.chunks)|, Rest(t)))
  }

  lemma NewRecovers()
    ensures Recovers(NewTransfer)
  {
  }

  lemma DataRecovers(t: Transfer, data: bytes)
    requires Recovers(t) && !t.stream.eof
    ensures Recovers(ChunkStep(t, Data(data)))
  {
    FeedFlat(t.stream, data);
    Assoc(t.partial, t.stream.Pending(), data);
    Assoc(Join(Rest(t)), t.open, data);
  }

  /** How far the recorded ends go: to the last byte of the chunks not yet handed over. */
  lemma LastEnd(t: Transfer)
    requires Recovers(t)
    ensures var s := t.stream.splits.value;
            && (s == [] <==> Rest(t) == [])
            && t.stream.total == |Join(t.chunks)| + |Join(Rest(t))| + |t.open|
            && (s != [] ==> s[|s| - 1] == t.stream.total - |t.open|)
  {
    LastOfEnds(|Join(t.chunks)|, Rest(t));
    assert t.stream.total == |Join(t.chunks)| + |t.partial + t.stream.Pending()|;
  }

  /** `end_http_chunk_receiving` records an end exactly for a chunk that counts. */
  lemma EndRecordedIff(t: Transfer)
    requires Recovers(t)
    ensures t.stream.EndChunk() != t.stream <==> Counts(t)
    ensures Counts(t) ==> t.stream.EndChunk().splits == Some(t.stream.splits.value + [t.stream.total])
  {
    LastEnd(t);
  }

  lemma EndRecovers(t: Transfer)
    requires Recovers(t)
    ensures Recovers(ChunkStep(t, End))
  {
    var base := |Join(t.chunks)|;
    var t' := ChunkStep(t, End);
    LastEnd(t);
    EndRecordedIff(t);
    EndChunkOk(t.stream);
    EmptySuffix(Join(Rest(t)));
    if Counts(t) {
      EndsOfSnoc(base, Rest(t), t.open);
      JoinSnoc(Rest(t), t.open);
      EmptySuffix(Join(Rest(t')));
      assert Rest(t') == Rest(t) + [t.open];
    }
  }

  lemma ReadRecovers(t: Transfer)
    requires Recovers(t)
    ensures Recovers(ChunkStep(t, ReadChunk))
  {
    var rest := Rest(t);
    var (r, s) := t.stream.ReadChunk();
    if rest != [] {
      ReadChunkToEnd(t.stream);
      var data, later := r.value.0, Join(rest[1..]);
      Assoc(t.partial, data, s.Pending());
      Assoc(rest[0], later, t.open);
      SameSplit(t.partial + data, s.Pending(), rest[0], later + t.open);
      JoinSnoc(t.chunks, rest[0]);
      EmptyPrefix(s.Pending());
      assert Rest(ChunkStep(t, ReadChunk)) == rest[1..];
    } else {
      ReadChunkPiece(t.stream);
      if r.Some? {
        Assoc(t.partial, r.value.0, s.Pending());
      }
    }
  }

  /**
    In every run of feeding and `readchunk`, the data joined up to each True flag
    are exactly the chunks that were sent, in order; no chunk end is skipped.
   */
  lemma {:induction false} ReadChunkRecoversChunks(t: Transfer, ops: seq<ChunkOp>)
    requires Recovers(t) && AllChunkAllowed(t, ops)
    ensures Recovers(ChunkRun(t, ops))
    decreases |ops|
  {
    if ops != [] {
      match ops[0] {
        case Data(data) => DataRecovers(t, data);
        case End => EndRecovers(t);
        case Finish =>
        case ReadChunk => ReadRecovers(t);
      }
      ReadChunkRecoversChunks(ChunkStep(t, ops[0]), ops[1..]);
    }
  }

  /** When the reader has been told that the stream is over, it has seen every chunk and byte. */
  lemma NothingMissedAtTheEnd(ops: seq<ChunkOp>)
    requires AllChunkAllowed(NewTransfer, ops)
    ensures var t := ChunkRun(NewTransfer, ops);
            && t.chunks <= t.sent
            && (t.stream.ReadChunk().0 == Some(([], false)) ==> t.chunks == t.sent && t.partial == t.open)
  {
    NewRecovers();
    ReadChunkRecoversChunks(NewTransfer, ops);
    var t := ChunkRun(NewTransfer, ops);
    if Rest(t) != [] {
      ReadChunkToEnd(t.stream);
    } else {
      ReadChunkPiece(t.stream);
      EmptySuffix(t.partial);
      EmptyPrefix(t.open);
    }
  }

  /**
    An empty chunk that ends is reported, as an empty one, exactly if bytes were fed
    before and every end recorded so far has been reported: the list that
    `end_http_chunk_receiving` compares with has been emptied by then, and its
    comment, that no empty chunks are added, does not hold.
   */
  lemma EmptyChunkReportedIff(t: Transfer)
    requires Recovers(t) && t.open == []
    ensures var t' := ChunkStep(t, End);
            if t.stream.total != 0 && t.stream.splits == Some([])
            then t'.stream.ReadChunk().0 == Some(([], true)) && ChunkStep(t', ReadChunk).chunks == t.chunks + [[]]
            else t' == t
  {
    LastEnd(t);
    EndRecordedIff(t);
    if Counts(t) {
      var s := t.stream.EndChunk();
      EndChunkOk(t.stream);
      EmptySuffix(Join(Rest(t)));
      assert t.partial + t.stream.Pending() == [];
      ReadChunkToEnd(s);
      EmptyPrefix(s.Pending());
    }
  }

  /** One byte, its end, and a read lead there. */
  lemma EmptyChunkCanCount(b: byte)
    ensures var t := ChunkStep(ChunkStep(ChunkStep(NewTransfer, Data([b])), End), ReadChunk);
            Recovers(t) && t.open == [] && Counts(t) && t.chunks == [[b]]
  {
    NewRecovers();
    DataRecovers(NewTransfer, [b]);
    var t1 := ChunkStep(NewTransfer, Data([b]));
    EmptyPrefix([b]);
    EndRecovers(t1);
    var t2 := ChunkStep(t1, End);
    ReadRecovers(t2);
    ReadChunkToEnd(t2.stream);
    assert t2.stream.splits.value[1..] == [];
  }

  // ---------------------------------------------------------------------
  // Flow control.
  // ---------------------------------------------------------------------

  /** What happens to a reader: the network's next event, or a read of one of its forms. */
  datatype ReaderOp =
    | Arrival | ReadNowait(n: int) | ReadAny | Read(n: int) | ReadExactly(n: int)
    | ReadUntil(sep: byte) | ReadHttpChunk

  method Operate(reader: SR.StreamReader, op: ReaderOp)
    requires reader.Valid() && (op.ReadNowait? ==> -1 <= op.n)
    modifies reader, reader.protocol
    ensures reader.Valid() && reader.Keeps()
  {
    match op {
      case Arrival =>
        if reader.inbox != [] {
          reader.Happen();
        }
      case ReadNowait(n) => var _ := reader.ReadNowait(n);
      case ReadAny => var _ := reader.ReadAny();
      case Read(n) => var _ := reader.Read(n);
      case ReadExactly(n) => var _, _ := reader.ReadExactly(n);
      case ReadUntil(sep) => var _ := reader.ReadUntil(sep);
      case ReadHttpChunk => var _, _ := reader.ReadChunk();
    }
  }

  /**
    Any run of operations on a connected reader, in any order and with any events
    from the network between them: an over-full buffer is paused, a paused one still
    holds enough to be resumed by reading it, and a reader whose buffer is empty,
    which is one that has to wait, is never paused.
   */
  method FlowNeverDeadlocks(reader: SR.StreamReader, ops: seq<ReaderOp>)
    requires reader.Valid() && reader.protocol.connected && 0 < reader.lowWater
    requires reader.FlowOk()
    requires forall op :: op in ops && op.ReadNowait? ==> -1 <= op.n
    modifies reader, reader.protocol
    ensures reader.Valid()
    ensures reader.size > reader.highWater ==> reader.protocol.readingPaused
    ensures reader.protocol.readingPaused ==> reader.size >= reader.lowWater
    ensures reader.Abs().Pending() == [] ==> !reader.protocol.readingPaused
  {
    for i := 0 to |ops|
      invariant reader.Valid() && reader.protocol.connected && reader.FlowOk()
    {
      Operate(reader, ops[i]);
    }
  }
}
