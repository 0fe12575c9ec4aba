/**
  The writer and the reader of multipart.py, with what lies between them: the
  framing of the body on the way out, and a stream of any segments on the way in.
 */
module MultipartRoundTrip {
  import opened Options
  import opened Bytes
  import opened MultipartReaders
  import opened MultipartWriters
  import B64 = Base64
  import CR = ChunkedRoundTrip
  import MF = MultipartFormat
  import PF = PayloadFraming
  import SW = StreamWriters

  /** A whole multipart body. */
  function Whole(boundary: bytes, parts: seq<Part>): bytes {
    Written(boundary, parts) + MF.CloseWire(MF.DASHES + boundary)
  }

  /** On the wire as it is, or, if chunked, such that a payload parser gets it back and stops behind it. */
  ghost predicate Carries(wire: bytes, chunked: bool, body: bytes) {
    if chunked then
      forall trailing :: var p := PF.Feed(CR.Fresh, wire + trailing); p.body == body && p.mode == PF.Finished(trailing)
    else wire == body
  }

  lemma FramedBody(chunks: seq<bytes>)
    ensures Carries(SW.Frames(chunks) + SW.LAST_CHUNK, true, Join(chunks))
  {
    var wire := SW.Frames(chunks) + SW.LAST_CHUNK;
    EmptyPrefix(SW.LAST_CHUNK);
    JoinSnoc(chunks, []);
    EmptySuffix(Join(chunks));
    forall trailing
      ensures var p := PF.Feed(CR.Fresh, wire + trailing); p.body == Join(chunks) && p.mode == PF.Finished(trailing)
    {
      CR.RoundTrip(chunks, [], trailing);
    }
  }

  lemma BodyOnWire(chunked: bool, length: Option<nat>, chunks: seq<bytes>)
    requires chunked ==> length.None?
    requires length.Some? ==> length.value == |Join(chunks)|
    ensures var wire := SW.OnWire(chunked, length, chunks);
            Carries(if chunked then wire + SW.LAST_CHUNK else wire, chunked, Join(chunks))
  {
    if chunked {
      SW.WireWithoutLength(true, chunks);
      FramedBody(chunks);
    } else {
      SW.UnchunkedWire(length, chunks);
      SW.BudgetCutsTheWhole(length, chunks);
    }
  }

  /**
    `write` and then `write_eof` on an open connection: chunked, as a multipart of
    unknown size is sent, or with its exact size declared, or with neither.
   */
  method Send(parts: MultipartWriter, writer: SW.StreamWriter)
    requires writer.Valid() && writer.writes == [] && !writer.closing && !writer.eof
    requires writer.chunked ==> writer.budget.None?
    requires writer.budget.Some? ==> writer.budget.value == |Whole(parts.boundary, parts.parts)|
    modifies writer
    ensures writer.eof && |writer.sent| >= |old(writer.sent)|
    ensures writer.sent[..|old(writer.sent)|] == old(writer.sent)
    ensures Carries(writer.sent[|old(writer.sent)|..], writer.chunked, Whole(parts.boundary, parts.parts))
  {
    ghost var before := writer.sent;
    EmptyPrefix(Whole(parts.boundary, parts.parts));
    EmptySuffix(writer.base);
    var _ := parts.Write(writer, true);
    ghost var wire := SW.OnWire(writer.chunked, writer.budget, writer.writes);
    BodyOnWire(writer.chunked, writer.budget, writer.writes);
    Assoc(before, wire, SW.LAST_CHUNK);
    EmptySuffix(writer.sent);
    var _ := writer.WriteEof([]);
    ghost var all := if writer.chunked then wire + SW.LAST_CHUNK else wire;
    assert writer.sent == before + all;
    assert (before + all)[|before|..] == all && (before + all)[..|before|] == before;
  }

  /**
    Whatever a `MultipartWriter` has written, a reader gives the bodies back in order,
    and then ends: what each payload wrote, once the encoding of the part is undone.
   */
  method ReadBack(reader: MultipartReader, ghost boundary: bytes, ghost parts: seq<Part>)
    returns (bodies: Option<seq<bytes>>)
    requires AtBoundary(reader) && reader.atBof && reader.lastPart == null && reader.content.Healthy()
    requires reader.c.boundary == MF.DASHES + boundary && MF.BoundaryOk(reader.c)
    requires reader.content.Whole() == Whole(boundary, parts)
    requires forall i :: 0 <= i < |parts| ==>
      MF.PlainOk(reader.c, MF.Plain(parts[i].lines,
                                    if parts[i].base64 then B64.Encode(Join(parts[i].pieces)) else Join(parts[i].pieces)))
    modifies reader, reader.content, reader.content.protocol
    ensures bodies.Some? && |bodies.value| == |parts|
    ensures forall i :: 0 <= i < |parts| ==>
              (if parts[i].base64 then B64.Decode(bodies.value[i]) else bodies.value[i]) == Join(parts[i].pieces)
  {
    WrittenReadsBack(reader.c, boundary, parts);
    bodies := ReadAll(reader);
    forall i | 0 <= i < |parts|
      ensures (if parts[i].base64 then B64.Decode(bodies.value[i]) else bodies.value[i]) == Join(parts[i].pieces)
    {
      B64.EncodeDecodes(Join(parts[i].pieces));
    }
  }
}
