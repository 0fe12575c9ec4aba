/**
  `StreamWriter` (http_writer.py) without compression: chunk framing and the
  budget of a declared length. What reaches the transport is `sent`.
 */
module StreamWriters {
  import opened Options
  import opened Bytes

  function HexDigit(d: nat): (b: byte)
    requires d < 16
  {
    if d < 10 then 48 + d else 87 + d
  }

  /** `f"{n:x}"`. */
  function HexText(n: nat): bytes {
    if n < 16 then [HexDigit(n)] else HexText(n / 16) + [HexDigit(n % 16)]
  }

  /** "0\r\n\r\n". */
  const LAST_CHUNK: bytes := [48, CR, LF, CR, LF]

  /** One chunk on the wire. */
  function Frame(chunk: bytes): bytes {
    if chunk == [] then [] else HexText(|chunk|) + CRLF + chunk + CRLF
  }

  function Frames(chunks: seq<bytes>): bytes {
    if chunks == [] then [] else Frame(chunks[0]) + Frames(chunks[1..])
  }

  /** What a declared length still lets through. */
  function Budgeted(length: Option<nat>, chunk: bytes): bytes {
    if length.Some? && length.value < |chunk| then chunk[..length.value] else chunk
  }

  function BudgetAfter(length: Option<nat>, chunk: bytes): Option<nat> {
    if length.None? then None
    else if length.value >= |chunk| then Some(length.value - |chunk|)
    else Some(0)
  }

  /** Everything a sequence of writes lets through. */
  function BudgetedAll(length: Option<nat>, chunks: seq<bytes>): bytes
    decreases |chunks|
  {
    if chunks == [] then []
    else Budgeted(length, chunks[0]) + BudgetedAll(BudgetAfter(length, chunks[0]), chunks[1..])
  }

  /** The budget cuts the concatenation, wherever the writes cut it. */
  lemma {:induction false} BudgetCutsTheWhole(length: Option<nat>, chunks: seq<bytes>)
    ensures var all := Join(chunks);
            BudgetedAll(length, chunks)
            == if length.Some? && length.value < |all| then all[..length.value] else all
    decreases |chunks|
  {
    if chunks != [] {
      var first, rest := chunks[0], Join(chunks[1..]);
      BudgetCutsTheWhole(BudgetAfter(length, first), chunks[1..]);
      if length.Some? && length.value < |first| {
        assert (first + rest)[..length.value] == first[..length.value];
        EmptySuffix(first[..length.value]);
      } else if length.Some? && length.value < |first + rest| {
        assert (first + rest)[..length.value] == first + rest[..length.value - |first|];
      }
    }
  }

  /** What is left of the budget after a sequence of writes. */
  function BudgetAfterAll(length: Option<nat>, chunks: seq<bytes>): Option<nat>
    decreases |chunks|
  {
    if chunks == [] then length else BudgetAfterAll(BudgetAfter(length, chunks[0]), chunks[1..])
  }

  /** What a sequence of writes puts on the wire: each cut by the budget, and framed if the body is chunked. */
  function OnWire(chunked: bool, length: Option<nat>, chunks: seq<bytes>): bytes
    decreases |chunks|
  {
    if chunks == [] then []
    else
      var data := Budgeted(length, chunks[0]);
      (if chunked then Frame(data) else data) + OnWire(chunked, BudgetAfter(length, chunks[0]), chunks[1..])
  }

  lemma {:induction false} OnWireSnoc(chunked: bool, length: Option<nat>, chunks: seq<bytes>, x: bytes)
    ensures var left := BudgetAfterAll(length, chunks);
            var data := Budgeted(left, x);
            && OnWire(chunked, length, chunks + [x])
               == OnWire(chunked, length, chunks) + (if chunked then Frame(data) else data)
            && BudgetAfterAll(length, chunks + [x]) == BudgetAfter(left, x)
    decreases |chunks|
  {
    if chunks == [] {
      assert chunks + [x] == [x] && [x][1..] == [];
      EmptySuffix(OnWire(chunked, length, [x]));
      EmptyPrefix(OnWire(chunked, length, [x]));
      var data := Budgeted(length, x);
      EmptySuffix(if chunked then Frame(data) else data);
    } else {
      var data, length' := Budgeted(length, chunks[0]), BudgetAfter(length, chunks[0]);
      assert (chunks + [x])[0] == chunks[0] && (chunks + [x])[1..] == chunks[1..] + [x];
      OnWireSnoc(chunked, length', chunks[1..], x);
      var last := Budgeted(BudgetAfterAll(length, chunks), x);
      Assoc(if chunked then Frame(data) else data, OnWire(chunked, length', chunks[1..]),
            if chunked then Frame(last) else last);
    }
  }

  /** Without a declared length nothing is cut: the writes themselves go out, or their frames. */
  lemma {:induction false} WireWithoutLength(chunked: bool, chunks: seq<bytes>)
    ensures OnWire(chunked, None, chunks) == if chunked then Frames(chunks) else Join(chunks)
    decreases |chunks|
  {
    if chunks != [] {
      WireWithoutLength(chunked, chunks[1..]);
    }
  }

  /** A body that is not chunked goes out whole, up to the declared length. */
  lemma {:induction false} UnchunkedWire(length: Option<nat>, chunks: seq<bytes>)
    ensures OnWire(false, length, chunks) == BudgetedAll(length, chunks)
    decreases |chunks|
  {
    if chunks != [] {
      UnchunkedWire(BudgetAfter(length, chunks[0]), chunks[1..]);
    }
  }

  class StreamWriter {
    var length: Option<nat>
    var chunked: bool
    var eof: bool
    var bufferSize: nat
    var outputSize: nat
    var closing: bool        // no transport, or one that is closing
    var sent: bytes
    ghost var writes: seq<bytes>     // all that was passed to `Write` since the body's framing was set
    ghost var base: bytes            // what had been sent by then
    ghost var budget: Option<nat>    // and the length that was declared

    /** While the body is open: the transport has got what the writes put on the wire, and nothing else. */
    ghost predicate Valid()
      reads this
    {
      !closing && !eof ==>
        sent == base + OnWire(chunked, budget, writes) && length == BudgetAfterAll(budget, writes)
    }

    /** Everything that was passed to `Write`. */
    ghost function Body(): bytes
      reads this
    {
      Join(writes)
    }

    constructor ()
      ensures length == None && !chunked && !eof && !closing && sent == [] && outputSize == 0
      ensures Valid() && writes == []
    {
      length, chunked, eof, bufferSize, outputSize, closing, sent := None, false, false, 0, 0, false, [];
      writes, base, budget := [], [], None;
    }

    method EnableChunking()
      modifies this`chunked, this`writes, this`base, this`budget
      ensures chunked && Valid() && writes == [] && base == sent && budget == length
    {
      chunked := true;
      writes, base, budget := [], sent, length;
      EmptySuffix(base);
    }

    /** `_write` and `_writelines`: the sizes count even when the transport is gone. */
    method Transmit(data: bytes) returns (raised: bool)
      modifies this`bufferSize, this`outputSize, this`sent
      ensures raised == closing && outputSize == old(outputSize) + |data|
      ensures sent == if raised then old(sent) else old(sent) + data
    {
      bufferSize := bufferSize + |data|;
      outputSize := outputSize + |data|;
      if closing {
        return true;
      }
      sent := sent + data;
      return false;
    }

    lemma OneMoreWrite(chunk: bytes)
      ensures Valid() && !closing && !eof ==>
                var data := Budgeted(length, chunk);
                && sent + (if chunked then Frame(data) else data) == base + OnWire(chunked, budget, writes + [chunk])
                && BudgetAfter(length, chunk) == BudgetAfterAll(budget, writes + [chunk])
    {
      var data := Budgeted(length, chunk);
      OnWireSnoc(chunked, budget, writes, chunk);
      Assoc(base, OnWire(chunked, budget, writes), if chunked then Frame(data) else data);
    }

    method Write(chunk: bytes, drain: bool, limit: nat) returns (raised: bool)
      modifies this`length, this`bufferSize, this`outputSize, this`sent, this`writes
      ensures writes == old(writes) + [chunk] && Body() == old(Body()) + chunk && (old(Valid()) ==> Valid())
      ensures raised == (closing && Budgeted(old(length), chunk) != [])
      ensures length == BudgetAfter(old(length), chunk)
      ensures var data := Budgeted(old(length), chunk);
              sent == if raised then old(sent)
                      else old(sent) + if chunked then Frame(data) else data
      ensures !raised && |old(sent)| == old(outputSize) ==> |sent| == outputSize
    {
      OneMoreWrite(chunk);
      JoinSnoc(writes, chunk);
      writes := writes + [chunk];
      var data := chunk;
      if length.Some? {
        if length.value >= |data| {
          length := Some(length.value - |data|);
        } else {
          data := data[..length.value];
          length := Some(0);
        }
      }
      raised := false;
      if data == [] {
        EmptySuffix(sent);
        return;
      }
      raised := Transmit(if chunked then HexText(|data|) + CRLF + data + CRLF else data);
      if !raised && bufferSize > limit && drain {
        bufferSize := 0;
      }
    }

    method WriteEof(chunk: bytes) returns (raised: bool)
      modifies this`eof, this`bufferSize, this`outputSize, this`sent
      ensures old(eof) ==> !raised && eof && sent == old(sent)
      ensures !old(eof) ==> raised == (closing && (chunked || chunk != [])) && eof == !raised
      ensures !old(eof) && !raised ==>
                sent == old(sent) + if !chunked then chunk
                                    else if chunk == [] then LAST_CHUNK
                                    else HexText(|chunk|) + CRLF + chunk + CRLF + LAST_CHUNK
    {
      raised := false;
      if eof {
        return;
      }
      if chunked {
        if chunk != [] {
          Assoc(HexText(|chunk|) + CRLF + chunk, CRLF, LAST_CHUNK);
          raised := Transmit(HexText(|chunk|) + CRLF + chunk + (CRLF + LAST_CHUNK));
        } else {
          raised := Transmit(LAST_CHUNK);
        }
      } else if chunk != [] {
        raised := Transmit(chunk);
      } else {
        EmptySuffix(sent);
      }
      if !raised {
        eof := true;
      }
    }
  }

  /** Sending a chunked body: `write` for each chunk, then `write_eof`. */
  method SendChunked(writer: StreamWriter, chunks: seq<bytes>, last: bytes)
    requires writer.chunked && writer.length == None && !writer.eof && !writer.closing
    modifies writer
    ensures writer.eof && writer.sent == old(writer.sent) + (Frames(chunks) + (Frame(last) + LAST_CHUNK))
  {
    EmptySuffix(writer.sent);
    ghost var done: bytes := [];
    for i := 0 to |chunks|
      invariant writer.chunked && writer.length == None && !writer.eof && !writer.closing
      invariant writer.sent == old(writer.sent) + done
      invariant done + Frames(chunks[i..]) == Frames(chunks)
    {
      ghost var rest := Frames(chunks[i + 1..]);
      assert chunks[i..][1..] == chunks[i + 1..];
      Assoc(done, Frame(chunks[i]), rest);
      Assoc(old(writer.sent), done, Frame(chunks[i]));
      var _ := writer.Write(chunks[i], true, 0x10000);
      done := done + Frame(chunks[i]);
    }
    EmptySuffix(done);
    EmptyPrefix(LAST_CHUNK);
    Assoc(old(writer.sent), done, Frame(last) + LAST_CHUNK);
    var _ := writer.WriteEof(last);
  }
}
