/**
  `MultipartWriter` (multipart.py): what `write` sends, and the size that `size`
  announces for it. A part's body comes in the pieces its payload writes; the
  only transfer encoding here is base64.
 */
module MultipartWriters {
  import opened Options
  import opened Bytes
  import opened StreamWriters
  import B64 = Base64
  import MF = MultipartFormat
  import MS = MessageStreams

  /** A payload: its header lines, what it writes, the size it declares, and its transfer encoding. */
  datatype Part = Part(lines: seq<bytes>, pieces: seq<bytes>, size: Option<nat>, base64: bool)

  function Plain(p: Part): MF.Plain {
    MF.Plain(p.lines, if p.base64 then B64.Encode(Join(p.pieces)) else Join(p.pieces))
  }

  function PlainAll(parts: seq<Part>): seq<MF.Plain> {
    if parts == [] then [] else [Plain(parts[0])] + PlainAll(parts[1..])
  }

  /** A declared size is the size of what the payload writes. */
  predicate SizesTrue(parts: seq<Part>) {
    forall i :: 0 <= i < |parts| && parts[i].size.Some? ==> parts[i].size.value == |Join(parts[i].pieces)|
  }

  function Written(boundary: bytes, parts: seq<Part>): bytes {
    MF.PartsWire(MF.DASHES + boundary, PlainAll(parts))
  }

  lemma {:induction false} WrittenSnoc(boundary: bytes, parts: seq<Part>, p: Part)
    ensures Written(boundary, parts + [p]) == Written(boundary, parts) + MF.PartWire(MF.DASHES + boundary, Plain(p))
    decreases |parts|
  {
    var b := MF.DASHES + boundary;
    if parts == [] {
      assert parts + [p] == [p];
      assert PlainAll([p]) == [Plain(p)] && [Plain(p)][1..] == [];
      EmptySuffix(MF.PartWire(b, Plain(p)));
      EmptyPrefix(MF.PartWire(b, Plain(p)));
    } else {
      assert (parts + [p])[0] == parts[0] && (parts + [p])[1..] == parts[1..] + [p];
      WrittenSnoc(boundary, parts[1..], p);
      Assoc(MF.PartWire(b, Plain(parts[0])), Written(boundary, parts[1..]), MF.PartWire(b, Plain(p)));
    }
  }

  class MultipartWriter {
    const boundary: bytes       // without dashes
    var parts: seq<Part>

    constructor (boundary: bytes)
      ensures this.boundary == boundary && parts == []
    {
      this.boundary, parts := boundary, [];
    }

    method AppendPayload(p: Part)
      modifies this`parts
      ensures parts == old(parts) + [p]
    {
      parts := parts + [p];
    }

    /** `size`: unknown as soon as one part is encoded or of unknown size; otherwise exactly what `write` sends. */
    method Size() returns (total: Option<nat>)
      ensures total.None? <==> exists i :: 0 <= i < |parts| && (parts[i].base64 || parts[i].size.None?)
      ensures total.Some? && SizesTrue(parts) ==>
                total.value == |Written(boundary, parts) + MF.CloseWire(MF.DASHES + boundary)|
    {
      var n: nat := 0;
      for i := 0 to |parts|
        invariant forall j :: 0 <= j < i ==> !parts[j].base64 && parts[j].size.Some?
        invariant SizesTrue(parts) ==> n == |Written(boundary, parts[..i])|
      {
        var part := parts[i];
        if part.base64 || part.size.None? {
          return None;
        }
        assert parts[..i + 1] == parts[..i] + [part];
        WrittenSnoc(boundary, parts[..i], part);
        n := n + (2 + |boundary| + 2 + part.size.value + |MS.LinesWire(part.lines + [[]])| + 2);
      }
      assert parts[..|parts|] == parts;
      return Some(n + 2 + |boundary| + 4);
    }

    method WriteHead(writer: StreamWriter, part: Part) returns (raised: bool)
      modifies writer`length, writer`bufferSize, writer`outputSize, writer`sent, writer`writes
      ensures (old(writer.Valid()) ==> writer.Valid()) && (raised ==> writer.closing)
      ensures !raised ==> writer.Body() == old(writer.Body()) + (MF.DASHES + boundary + CRLF
                                                                 + MS.LinesWire(part.lines + [[]]))
    {
      raised := writer.Write(MF.DASHES + boundary + CRLF, true, 0x10000);
      if raised {
        return;
      }
      Assoc(old(writer.Body()), MF.DASHES + boundary + CRLF, MS.LinesWire(part.lines + [[]]));
      raised := writer.Write(MS.LinesWire(part.lines + [[]]), true, 0x10000);
    }

    method WriteBody(writer: StreamWriter, part: Part) returns (raised: bool)
      modifies writer`length, writer`bufferSize, writer`outputSize, writer`sent, writer`writes
      ensures (old(writer.Valid()) ==> writer.Valid()) && (raised ==> writer.closing)
      ensures !raised ==> writer.Body() == old(writer.Body()) + Plain(part).body
    {
      if part.base64 {
        raised := B64.EncodeTo(writer, part.pieces);
      } else {
        raised := WritePieces(writer, part.pieces);
      }
    }

    lemma PartInOrder(s: bytes, part: Part)
      ensures var head := MF.DASHES + boundary + CRLF + MS.LinesWire(part.lines + [[]]);
              ((s + head) + Plain(part).body) + CRLF == s + MF.PartWire(MF.DASHES + boundary, Plain(part))
    {
      var b, h, body := MF.DASHES + boundary + CRLF, MS.LinesWire(part.lines + [[]]), Plain(part).body;
      Assoc(s, b + h, body);
      Assoc(s, b + h + body, CRLF);
      Assoc(b, h, body);
      Assoc(b, h + body, CRLF);
      Assoc(h, body, CRLF);
    }

    method WritePart(writer: StreamWriter, part: Part) returns (raised: bool)
      modifies writer`length, writer`bufferSize, writer`outputSize, writer`sent, writer`writes
      ensures (old(writer.Valid()) ==> writer.Valid()) && (raised ==> writer.closing)
      ensures !raised ==>
                writer.Body() == old(writer.Body()) + MF.PartWire(MF.DASHES + boundary, Plain(part))
    {
      PartInOrder(writer.Body(), part);
      raised := WriteHead(writer, part);
      if raised {
        return;
      }
      raised := WriteBody(writer, part);
      if raised {
        return;
      }
      raised := writer.Write(CRLF, true, 0x10000);
    }

    /** `write`, to any writer: chunked, of a declared length or neither. */
    method Write(writer: StreamWriter, closeBoundary: bool) returns (raised: bool)
      modifies writer`length, writer`bufferSize, writer`outputSize, writer`sent, writer`writes
      ensures (old(writer.Valid()) ==> writer.Valid()) && (raised ==> writer.closing)
      ensures !raised ==>
                writer.Body() == old(writer.Body()) + (Written(boundary, parts)
                                                       + if closeBoundary then MF.CloseWire(MF.DASHES + boundary) else [])
    {
      ghost var s := writer.Body();
      EmptySuffix(s);
      for i := 0 to |parts|
        invariant (old(writer.Valid()) ==> writer.Valid()) && writer.Body() == s + Written(boundary, parts[..i])
      {
        assert parts[..i + 1] == parts[..i] + [parts[i]];
        WrittenSnoc(boundary, parts[..i], parts[i]);
        Assoc(s, Written(boundary, parts[..i]), MF.PartWire(MF.DASHES + boundary, Plain(parts[i])));
        raised := WritePart(writer, parts[i]);
        if raised {
          return;
        }
      }
      assert parts[..|parts|] == parts;
      raised := false;
      if closeBoundary {
        Assoc(s, Written(boundary, parts), MF.CloseWire(MF.DASHES + boundary));
        raised := writer.Write(MF.DASHES + boundary + MF.DASHES + CRLF, true, 0x10000);
      } else {
        EmptySuffix(Written(boundary, parts));
      }
    }
  }

  /** A payload that writes its pieces one after the other. */
  method WritePieces(writer: StreamWriter, pieces: seq<bytes>) returns (raised: bool)
    modifies writer`length, writer`bufferSize, writer`outputSize, writer`sent, writer`writes
    ensures (old(writer.Valid()) ==> writer.Valid()) && (raised ==> writer.closing)
    ensures !raised ==> writer.Body() == old(writer.Body()) + Join(pieces)
  {
    ghost var s := writer.Body();
    EmptySuffix(s);
    raised := false;
    for i := 0 to |pieces|
      invariant (old(writer.Valid()) ==> writer.Valid()) && writer.Body() == s + Join(pieces[..i])
      invariant !raised
    {
      assert pieces[..i + 1] == pieces[..i] + [pieces[i]];
      JoinSnoc(pieces[..i], pieces[i]);
      Assoc(s, Join(pieces[..i]), pieces[i]);
      raised := writer.Write(pieces[i], true, 0x10000);
      if raised {
        return;
      }
    }
    assert pieces[..|pieces|] == pieces;
  }

  lemma {:induction false} BodiesWritten(parts: seq<Part>)
    ensures MF.BodiesOf(PlainAll(parts))
         == seq(|parts|, i requires 0 <= i < |parts| =>
              if parts[i].base64 then B64.Encode(Join(parts[i].pieces)) else Join(parts[i].pieces))
  {
    if parts != [] {
      BodiesWritten(parts[1..]);
      assert PlainAll(parts)[1..] == PlainAll(parts[1..]);
    }
  }

  lemma {:induction false} PlainAllAt(parts: seq<Part>, i: nat)
    requires i < |parts|
    ensures |PlainAll(parts)| == |parts| && PlainAll(parts)[i] == Plain(parts[i])
  {
    if parts != [] {
      if i > 0 {
        PlainAllAt(parts[1..], i - 1);
      } else if |parts| > 1 {
        PlainAllAt(parts[1..], 0);
      }
    }
  }

  /** Reading back what `write` sent: what the payloads wrote, encoded or not, in order, and then the end. */
  lemma WrittenReadsBack(c: MF.Config, boundary: bytes, parts: seq<Part>)
    requires c.boundary == MF.DASHES + boundary && MF.BoundaryOk(c)
    requires forall i :: 0 <= i < |parts| ==>
      MF.PlainOk(c, MF.Plain(parts[i].lines,
                             if parts[i].base64 then B64.Encode(Join(parts[i].pieces)) else Join(parts[i].pieces)))
    ensures MF.Parts(c, Written(boundary, parts) + MF.CloseWire(c.boundary), true)
         == MF.Bodies(seq(|parts|, i requires 0 <= i < |parts| =>
              if parts[i].base64 then B64.Encode(Join(parts[i].pieces)) else Join(parts[i].pieces)))
  {
    if parts != [] {
      PlainAllAt(parts, 0);
    }
    forall i | 0 <= i < |PlainAll(parts)|
      ensures MF.PlainOk(c, PlainAll(parts)[i])
    {
      PlainAllAt(parts, i);
    }
    MF.RoundTrip(c, PlainAll(parts), true);
    BodiesWritten(parts);
  }
}
