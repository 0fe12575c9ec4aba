/**
  Base64 (section 4 of RFC 4648) and the streaming encoder `MultipartPayloadWriter`
  of multipart.py, without compression: it holds back what does not fill a group.
 */
module Base64 {
  import opened Options
  import opened Bytes
  import opened StreamWriters

  // ---------------------------------------------------------------------
  // The code.
  // ---------------------------------------------------------------------

  /** The character for a 6-bit value. */
  function Char(v: nat): byte
    requires v < 64
  {
    if v < 26 then 65 + v else if v < 52 then 71 + v else if v < 62 then v - 4 else if v == 62 then 43 else 47
  }

  const PAD: byte := 61

  function Value(b: byte): (v: nat)
    ensures v < 64
  {
    if 65 <= b <= 90 then b - 65 else if 97 <= b <= 122 then b - 71
    else if 48 <= b <= 57 then b + 4 else if b == 43 then 62 else 63
  }

  function Group(a: byte, b: byte, c: byte): bytes {
    [Char(a / 4), Char(a % 4 * 16 + b / 16), Char(b % 16 * 4 + c / 64), Char(c % 64)]
  }

  /** `base64.b64encode`. */
  function Encode(s: bytes): bytes {
    if s == [] then []
    else if |s| == 1 then [Char(s[0] / 4), Char(s[0] % 4 * 16), PAD, PAD]
    else if |s| == 2 then [Char(s[0] / 4), Char(s[0] % 4 * 16 + s[1] / 16), Char(s[1] % 16 * 4), PAD]
    else Group(s[0], s[1], s[2]) + Encode(s[3..])
  }

  function First(t: bytes): byte
    requires |t| >= 2
  {
    Value(t[0]) * 4 + Value(t[1]) / 16
  }

  function Second(t: bytes): byte
    requires |t| >= 3
  {
    Value(t[1]) % 16 * 16 + Value(t[2]) / 4
  }

  function Third(t: bytes): byte
    requires |t| >= 4
  {
    Value(t[2]) % 4 * 64 + Value(t[3])
  }

  /** The bytes that a text of whole groups stands for; padding shortens a group. */
  function Decode(t: bytes): bytes {
    if |t| < 4 then []
    else if t[2] == PAD then [First(t)] + Decode(t[4..])
    else if t[3] == PAD then [First(t), Second(t)] + Decode(t[4..])
    else [First(t), Second(t), Third(t)] + Decode(t[4..])
  }

  /** Table 1 of section 4 of RFC 4648. */
  predicate IsCharFor(b: byte, v: nat) {
    if v < 26 then b == 'A' as int + v
    else if v < 52 then b == 'a' as int + (v - 26)
    else if v < 62 then b == '0' as int + (v - 52)
    else b == (if v == 62 then '+' else '/') as int
  }

  /** The byte at `i`, and 0 bits behind the end. */
  function Padded(s: bytes, i: nat): byte {
    if i < |s| then s[i] else 0
  }

  /** The 24 bits of group `g`. */
  function Bits(s: bytes, g: nat): nat {
    Padded(s, 3 * g) * 0x1_0000 + Padded(s, 3 * g + 1) * 0x100 + Padded(s, 3 * g + 2)
  }

  /** The `k`th six of 24 bits. */
  function Sextet(bits: nat, k: nat): nat
    requires k < 4
  {
    (if k == 0 then bits / 0x4_0000 else if k == 1 then bits / 0x1000 else if k == 2 then bits / 0x40 else bits) % 64
  }

  lemma SextetsAre(a: byte, b: byte, c: byte)
    ensures var bits := a * 0x1_0000 + b * 0x100 + c;
            && Sextet(bits, 0) == a / 4 && Sextet(bits, 1) == a % 4 * 16 + b / 16
            && Sextet(bits, 2) == b % 16 * 4 + c / 64 && Sextet(bits, 3) == c % 64
  {
    var bits := a * 0x1_0000 + b * 0x100 + c;
    Divided(bits, a / 4, a % 4 * 0x1_0000 + b * 0x100 + c, 0x4_0000);
    Divided(bits, a * 16 + b / 16, b % 16 * 0x100 + c, 0x1000);
    Divided(a * 16 + b / 16, a / 4, a % 4 * 16 + b / 16, 64);
    Divided(bits, a * 0x400 + b * 4 + c / 64, c % 64, 64);
    Divided(a * 0x400 + b * 4 + c / 64, a * 16 + b / 16, b % 16 * 4 + c / 64, 64);
  }

  lemma Divided(x: nat, q: nat, r: nat, d: nat)
    requires 0 < d && x == q * d + r && r < d
    ensures x / d == q && x % d == r
  {
    var y := x / d;
    assert y + 1 <= q ==> (y + 1) * d <= q * d;
    assert q + 1 <= y ==> (q + 1) * d <= y * d;
  }

  lemma {:induction false} EncodeLength(s: bytes)
    ensures |Encode(s)| == (|s| + 2) / 3 * 4
  {
    if |s| >= 3 {
      EncodeLength(s[3..]);
    }
  }

  lemma LaterGroup(s: bytes, i: nat)
    requires |s| >= 3 && i >= 4
    ensures Bits(s[3..], (i - 4) / 4) == Bits(s, i / 4) && (i - 4) % 4 == i % 4
    ensures 6 * (i - 4) < 8 * |s[3..]| <==> 6 * i < 8 * |s|
  {
    assert (i - 4) / 4 == i / 4 - 1;
  }

  /** The four characters of a group of one to three bytes. */
  lemma FirstGroup(s: bytes, i: nat)
    requires s != [] && i < 4
    ensures i < |Encode(s)|
    ensures if 6 * i < 8 * |s| then IsCharFor(Encode(s)[i], Sextet(Bits(s, 0), i)) else Encode(s)[i] == '=' as int
  {
    var a, b, c := Padded(s, 0), Padded(s, 1), Padded(s, 2);
    SextetsAre(a, b, c);
    var v := [a / 4, a % 4 * 16 + b / 16, b % 16 * 4 + c / 64, c % 64][i];
    assert Sextet(Bits(s, 0), i) == v;
    if 6 * i < 8 * |s| {
      assert Encode(s)[i] == Char(v);
    }
  }

  /**
    Section 4 of RFC 4648: character `i` stands for bits 6i to 6i + 5 of the data, with
    0 bits behind the end, and is "=" where no data are left.
   */
  lemma {:induction false} EncodeIs(s: bytes, i: nat)
    requires i < |Encode(s)|
    ensures if 6 * i < 8 * |s| then IsCharFor(Encode(s)[i], Sextet(Bits(s, i / 4), i % 4))
            else Encode(s)[i] == '=' as int
  {
    if i < 4 {
      FirstGroup(s, i);
    } else {
      EncodeLength(s);
      EncodeIs(s[3..], i - 4);
      LaterGroup(s, i);
      assert Encode(s)[i] == Encode(s[3..])[i - 4];
    }
  }

  lemma CharValue(v: nat)
    requires v < 64
    ensures Value(Char(v)) == v && Char(v) != PAD
  {
  }

  /** The six-bit values of a group, put together again. */
  lemma Recombine(a: byte, b: byte, c: byte)
    ensures a / 4 * 4 + (a % 4 * 16 + b / 16) / 16 == a
    ensures (a % 4 * 16 + b / 16) % 16 * 16 + (b % 16 * 4 + c / 64) / 4 == b
    ensures (b % 16 * 4 + c / 64) % 4 * 64 + c % 64 == c
  {
  }

  lemma GroupDecodes(a: byte, b: byte, c: byte, rest: bytes)
    ensures Decode(Group(a, b, c) + rest) == [a, b, c] + Decode(rest)
  {
    var t := Group(a, b, c) + rest;
    var v0, v1, v2, v3 := a / 4, a % 4 * 16 + b / 16, b % 16 * 4 + c / 64, c % 64;
    CharValue(v0);
    CharValue(v1);
    CharValue(v2);
    CharValue(v3);
    Recombine(a, b, c);
    assert t[4..] == rest;
    assert Decode(t) == [First(t), Second(t), Third(t)] + Decode(rest);
    assert First(t) == a && Second(t) == b && Third(t) == c;
  }

  lemma OneDecodes(a: byte)
    ensures Decode(Encode([a])) == [a]
  {
    var t := [Char(a / 4), Char(a % 4 * 16), PAD, PAD];
    CharValue(a / 4);
    CharValue(a % 4 * 16);
    Recombine(a, 0, 0);
    assert Encode([a]) == t && t[4..] == [] && First(t) == a;
  }

  lemma TwoDecode(a: byte, b: byte)
    ensures Decode(Encode([a, b])) == [a, b]
  {
    var t := [Char(a / 4), Char(a % 4 * 16 + b / 16), Char(b % 16 * 4), PAD];
    CharValue(a / 4);
    CharValue(a % 4 * 16 + b / 16);
    CharValue(b % 16 * 4);
    Recombine(a, b, 0);
    assert Encode([a, b]) == t && t[4..] == [] && First(t) == a && Second(t) == b;
  }

  /** Encoding loses nothing. */
  lemma {:induction false} EncodeDecodes(s: bytes)
    ensures Decode(Encode(s)) == s
  {
    if |s| == 1 {
      assert s == [s[0]];
      OneDecodes(s[0]);
    } else if |s| == 2 {
      assert s == [s[0], s[1]];
      TwoDecode(s[0], s[1]);
    } else if |s| >= 3 {
      GroupDecodes(s[0], s[1], s[2], Encode(s[3..]));
      EncodeDecodes(s[3..]);
      assert [s[0], s[1], s[2]] + s[3..] == s;
    }
  }

  /** Whole groups can be encoded ahead of the rest. */
  lemma {:induction false} EncodeAppend(a: bytes, b: bytes)
    requires |a| % 3 == 0
    ensures Encode(a + b) == Encode(a) + Encode(b)
    decreases |a|
  {
    if a == [] {
      EmptyPrefix(b);
      EmptyPrefix(Encode(b));
    } else {
      assert (a + b)[3..] == a[3..] + b;
      EncodeAppend(a[3..], b);
      Assoc(Group(a[0], a[1], a[2]), Encode(a[3..]), Encode(b));
    }
  }

  lemma WholeGroups(done: nat, buf: nat)
    requires done % 3 == 0
    ensures (done + buf / 3 * 3) % 3 == 0 && buf - buf / 3 * 3 <= 2
  {
  }

  // ---------------------------------------------------------------------
  // The streaming encoder.
  // ---------------------------------------------------------------------

  /** Over any writer: chunked, of a declared length or neither. */
  class MultipartPayloadWriter {
    const writer: StreamWriter
    var encodingBuffer: bytes
    ghost var written: bytes       // everything passed to write
    ghost const before: bytes      // what the writer had been given by then

    ghost predicate Valid()
      reads this, writer
    {
      |encodingBuffer| <= 2 && exists done :: Emitted(done)
    }

    /** `done`, in whole groups, has been passed on; the rest is held back. */
    ghost predicate Emitted(done: bytes)
      reads this, writer
    {
      |done| % 3 == 0 && written == done + encodingBuffer && writer.Body() == before + Encode(done)
    }

    constructor (writer: StreamWriter)
      ensures Valid() && this.writer == writer && written == [] && before == writer.Body()
    {
      this.writer, encodingBuffer, written, before := writer, [], [], writer.Body();
      new;
      EmptySuffix(before);
      assert Emitted([]);
    }

    method Write(chunk: bytes) returns (raised: bool)
      requires Valid()
      modifies this, writer`length, writer`bufferSize, writer`outputSize, writer`sent, writer`writes
      ensures Valid() && written == old(written) + chunk
      ensures (old(writer.Valid()) ==> writer.Valid()) && (raised ==> writer.closing)
    {
      ghost var done :| Emitted(done);
      var buf := encodingBuffer + chunk;
      Assoc(done, encodingBuffer, chunk);
      written := written + chunk;
      var n := |buf| / 3 * 3;
      Regroup(done, buf, n);
      var encChunk := buf[..n];
      encodingBuffer := buf[n..];
      Assoc(before, Encode(done), Encode(encChunk));
      raised := false;
      if encChunk != [] {
        raised := writer.Write(Encode(encChunk), true, 0x10000);
      } else {
        EmptySuffix(Encode(done));
      }
      assert Emitted(done + encChunk);
    }

    lemma Regroup(done: bytes, buf: bytes, n: nat)
      requires |done| % 3 == 0 && n == |buf| / 3 * 3
      ensures |done + buf[..n]| % 3 == 0 && |buf[n..]| <= 2
      ensures done + buf == (done + buf[..n]) + buf[n..]
      ensures Encode(done + buf[..n]) == Encode(done) + Encode(buf[..n])
    {
      var head, rest := buf[..n], buf[n..];
      assert buf == head + rest;
      Assoc(done, head, rest);
      WholeGroups(|done|, |buf|);
      EncodeAppend(done, head);
    }

    method WriteEof() returns (raised: bool)
      requires Valid()
      modifies writer`length, writer`bufferSize, writer`outputSize, writer`sent, writer`writes
      ensures writer.Body() == before + Encode(written)
      ensures (old(writer.Valid()) ==> writer.Valid()) && (raised ==> writer.closing)
    {
      ghost var done :| Emitted(done);
      EncodeAppend(done, encodingBuffer);
      Assoc(before, Encode(done), Encode(encodingBuffer));
      raised := false;
      if encodingBuffer != [] {
        raised := writer.Write(Encode(encodingBuffer), true, 0x10000);
      } else {
        EmptySuffix(Encode(done));
      }
    }
  }

  /** However the input is cut into writes, the writer is given the base64 of the whole input. */
  method EncodeTo(writer: StreamWriter, pieces: seq<bytes>) returns (raised: bool)
    modifies writer`length, writer`bufferSize, writer`outputSize, writer`sent, writer`writes
    ensures !raised ==> writer.Body() == old(writer.Body()) + Encode(Join(pieces))
    ensures (old(writer.Valid()) ==> writer.Valid()) && (raised ==> writer.closing)
  {
    var w := new MultipartPayloadWriter(writer);
    for i := 0 to |pieces|
      invariant w.Valid() && fresh(w) && w.writer == writer && w.before == old(writer.Body())
      invariant w.written == Join(pieces[..i]) && (old(writer.Valid()) ==> writer.Valid())
    {
      assert pieces[..i + 1] == pieces[..i] + [pieces[i]];
      JoinSnoc(pieces[..i], pieces[i]);
      raised := w.Write(pieces[i]);
      if raised {
        return;
      }
    }
    assert pieces[..|pieces|] == pieces;
    raised := w.WriteEof();
  }
}
