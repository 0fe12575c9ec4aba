/**
  Byte ranges of a file response: `http_range` of web_request.py, the arithmetic of
  `_prepare_open_file` and the copy loop of `_sendfile_fallback` in
  web_fileresponse.py. The meaning of a range is that of section 14.1.2 of RFC 9110.
 */
module FileRanges {
  import opened Options
  import opened Bytes
  import opened Streams
  import opened StreamWriters

  /** A Range header: absent, not of the form "bytes=first-last", or with the two numbers it gives. */
  datatype RangeHeader = NoRange | Unparsable | Spec(first: Option<nat>, last: Option<nat>)

  /** A slice with its bounds, or the ValueError. */
  datatype Slice = Slice(start: Option<int>, stop: Option<int>) | Invalid

  /** `http_range`. */
  method HttpRange(rng: RangeHeader) returns (r: Slice)
    ensures rng.NoRange? ==> r == Slice(None, None)
    ensures r.Invalid? <==> rng.Unparsable? || rng == Spec(None, None)
                            || (rng.Spec? && rng.first.Some? && rng.last.Some? && rng.last.value < rng.first.value)
    ensures rng.Spec? && r.Slice? ==>
      (if rng.first.None? then r == Slice(Some(0 - rng.last.value), None)
       else r == Slice(Some(rng.first.value), if rng.last.Some? then Some(rng.last.value + 1) else None))
  {
    var start: Option<int>, end: Option<int> := None, None;
    if rng.NoRange? {
      return Slice(start, end);
    }
    if rng.Unparsable? {
      return Invalid;
    }
    start := if rng.first.Some? then Some(rng.first.value) else None;
    end := if rng.last.Some? then Some(rng.last.value) else None;
    if start.None? && end.Some? {
      start := Some(-end.value);
      end := None;
    }
    if start.Some? && end.Some? {
      end := Some(end.value + 1);
      if start.value >= end.value {
        return Invalid;
      }
    }
    if start.None? && end.None? {
      return Invalid;
    }
    return Slice(start, end);
  }

  // ---------------------------------------------------------------------
  // What the standard says.
  // ---------------------------------------------------------------------

  /** A range that can be parsed: it has a first position not behind its last, or a suffix length. */
  predicate WellFormed(rng: RangeHeader) {
    rng.Spec? && (rng.first.Some? || rng.last.Some?)
    && (rng.first.Some? && rng.last.Some? ==> rng.first.value <= rng.last.value)
  }

  predicate Suffix(rng: RangeHeader) {
    rng.Spec? && rng.first.None? && rng.last.Some?
  }

  /** The first position lies in the file, or the suffix is not empty. */
  predicate Satisfiable(rng: RangeHeader, size: nat)
    requires WellFormed(rng)
  {
    if rng.first.Some? then rng.first.value < size else rng.last.value > 0
  }

  /** The bytes that a satisfiable range selects. */
  function Selected(rng: RangeHeader, file: bytes): bytes
    requires WellFormed(rng) && Satisfiable(rng, |file|)
  {
    if rng.first.None? then file[|file| - Min(rng.last.value, |file|)..]
    else if rng.last.None? || rng.last.value >= |file| then file[rng.first.value..]
    else file[rng.first.value..rng.last.value + 1]
  }

  // ---------------------------------------------------------------------
  // What the code chooses.
  // ---------------------------------------------------------------------

  /** The status, and which bytes of the file are to be sent. */
  datatype Choice = Choice(status: int, start: int, count: int)

  const PARTIAL: int := 206
  const NOT_SATISFIABLE: int := 416

  /** The arithmetic of `_prepare_open_file`; `useRange` is the outcome of the If-Range check. */
  method PrepareOpenFile(rng: RangeHeader, useRange: bool, size: nat) returns (c: Choice)
    ensures c.status == 200 || c.status == 206 || c.status == 416
    // the whole file: no range, or one that If-Range sets aside
    ensures c.status == 200 <==> !useRange || rng.NoRange?
    ensures c.status == 200 ==> c.start == 0 && c.count == size
    // nothing: no such header, or a range that begins behind the end of the file
    ensures c.status == 416 <==>
      useRange && (rng.Unparsable? || (rng.Spec? &&
        match (rng.first, rng.last)
        case (Some(a), Some(b)) => b < a || size <= a
        case (Some(a), None) => size <= a
        case (None, Some(_)) => size == 0
        case (None, None) => true))
    ensures c == Chosen(rng, useRange, size)
  {
    var status, start: Option<int>, count: int := 200, None, size;
    if useRange {
      var r := HttpRange(rng);
      if r.Invalid? {
        return Choice(NOT_SATISFIABLE, 0, 0);
      }
      start := r.start;
      var end := r.stop;
      if start.Some? {
        var s := start.value;
        if s < 0 && end.None? {
          s := s + size;
          if s < 0 {
            s := 0;
          }
          count := size - s;
        } else {
          count := Min(if end.Some? then end.value else size, size) - s;
        }
        if s >= size {
          return Choice(NOT_SATISFIABLE, 0, 0);
        }
        start, status := Some(s), PARTIAL;
      }
    }
    return Choice(status, if start.Some? then start.value else 0, count);
  }

  /** The choice by cases of the header. */
  function Chosen(rng: RangeHeader, useRange: bool, size: nat): Choice {
    if !useRange || rng.NoRange? then Choice(200, 0, size)
    else if !WellFormed(rng) then Choice(NOT_SATISFIABLE, 0, 0)
    else if rng.first.Some? then
      if rng.first.value >= size then Choice(NOT_SATISFIABLE, 0, 0)
      else Choice(PARTIAL, rng.first.value,
                  Min(if rng.last.Some? then rng.last.value + 1 else size, size) - rng.first.value)
    else if size == 0 then Choice(NOT_SATISFIABLE, 0, 0)
    else if rng.last.value == 0 then Choice(PARTIAL, 0, size)
    else Choice(PARTIAL, size - Min(rng.last.value, size), Min(rng.last.value, size))
  }

  /** A response with status 200 is the whole file, and is given exactly when there is no range to go by. */
  lemma WholeFileIff(rng: RangeHeader, useRange: bool, file: bytes)
    ensures var c := Chosen(rng, useRange, |file|);
            && (c.status == 200 <==> !useRange || rng.NoRange?)
            && (c.status == 200 ==> 0 <= c.start <= c.start + c.count <= |file|
                                    && file[c.start..c.start + c.count] == file)
  {
  }

  /** A range is refused exactly if it cannot be read, begins behind the end, or is a suffix of an empty file. */
  lemma RefusedIff(rng: RangeHeader, useRange: bool, size: nat)
    ensures Chosen(rng, useRange, size).status == 416 <==>
              useRange && !rng.NoRange?
              && (!WellFormed(rng) || (rng.first.Some? && size <= rng.first.value) || (rng.first.None? && size == 0))
    ensures Chosen(rng, useRange, size).status in {200, 206, 416}
  {
  }

  /** A partial response lies in the file and is not empty. */
  lemma PartialIsInside(rng: RangeHeader, useRange: bool, size: nat)
    ensures var c := Chosen(rng, useRange, size);
            c.status == PARTIAL ==> 0 <= c.start && 1 <= c.count && c.start + c.count <= size
  {
  }

  /** A range that the code takes for something else: an empty suffix, or any suffix of an empty file. */
  predicate Misjudged(rng: RangeHeader, size: nat) {
    Suffix(rng) && (size == 0 <==> rng.last.value != 0)
  }

  /** 206 is chosen for exactly the satisfiable ranges, except for an empty suffix and for suffixes of an empty file. */
  lemma PartialIffSatisfiable(rng: RangeHeader, size: nat)
    requires WellFormed(rng)
    ensures ((Chosen(rng, true, size).status == PARTIAL) <==> Satisfiable(rng, size)) <==> !Misjudged(rng, size)
  {
  }

  /** The bytes sent are the bytes the standard selects. */
  lemma PartialIsSelected(rng: RangeHeader, file: bytes)
    requires WellFormed(rng) && !Misjudged(rng, |file|) && Chosen(rng, true, |file|).status == PARTIAL
    ensures var c := Chosen(rng, true, |file|);
            0 <= c.start <= c.start + c.count <= |file| && file[c.start..c.start + c.count] == Selected(rng, file)
  {
    var c := Chosen(rng, true, |file|);
    if rng.first.None? || rng.last.None? || rng.last.value >= |file| {
      assert c.start + c.count == |file|;
    }
  }

  // ---------------------------------------------------------------------
  // The copy loop.
  // ---------------------------------------------------------------------

  /** `fobj.read(n)` at a position. */
  function ReadAt(file: bytes, pos: nat, n: nat): bytes
    requires pos <= |file|
  {
    if pos + n <= |file| then file[pos..pos + n] else file[pos..]
  }

  /** What has gone out when `done` bytes have been read, the first read perhaps too far. */
  predicate Copied(before: bytes, sent: bytes, length: Option<nat>, file: bytes, offset: nat, total: nat, done: nat)
    requires offset + total <= |file|
  {
    var n := Min(done, total);
    sent == before + file[offset..offset + n] && length == Some(total - n)
  }

  lemma CopiedMore(before: bytes, sent: bytes, length: Option<nat>, file: bytes, offset: nat, total: nat,
                   done: nat, chunk: bytes)
    requires offset + total <= |file| && Copied(before, sent, length, file, offset, total, done) && done < total
    requires offset + done + |chunk| <= |file| && chunk == file[offset + done..offset + done + |chunk|]
    ensures Copied(before, sent + Budgeted(length, chunk), BudgetAfter(length, chunk),
                   file, offset, total, done + |chunk|)
  {
    var a := file[offset..offset + done];
    var b := Budgeted(length, chunk);
    Assoc(before, a, b);
    assert a + b == file[offset..offset + Min(done + |chunk|, total)];
  }

  /**
    `_sendfile_fallback` into a writer whose declared length is `count`: the first
    read may overshoot, the writer cuts it, and exactly the chosen bytes go out.
   */
  method SendfileFallback(writer: StreamWriter, file: bytes, offset: nat, count: nat, chunkSize: nat)
    requires offset + count <= |file| && 1 <= count && 1 <= chunkSize
    requires writer.length == Some(count) && !writer.chunked && !writer.eof && !writer.closing
    modifies writer`length, writer`bufferSize, writer`outputSize, writer`sent, writer`writes
    ensures writer.sent == old(writer.sent) + file[offset..offset + count]
    ensures writer.length == Some(0)
  {
    ghost var before := writer.sent;
    var chunk := ReadAt(file, offset, chunkSize);
    var left: int := count;
    var pos := offset + |chunk|;
    ghost var done: nat := 0;
    EmptySuffix(before);
    while chunk != []
      invariant pos == offset + done + |chunk| <= |file| && chunk == file[offset + done..pos]
      invariant done <= count && Copied(before, writer.sent, writer.length, file, offset, count, done)
      invariant left == count - done && (chunk == [] <==> left <= 0)
      invariant 0 < left ==> |chunk| >= Min(chunkSize, left)
      invariant done == 0 || |chunk| <= left
      invariant |chunk| <= chunkSize
      decreases |file| - done
    {
      CopiedMore(before, writer.sent, writer.length, file, offset, count, done, chunk);
      var _ := writer.Write(chunk, true, 0x10000);
      left := left - chunkSize;
      done := done + |chunk|;
      if left <= 0 {
        break;
      }
      chunk := ReadAt(file, pos, Min(chunkSize, left));
      pos := pos + |chunk|;
    }
  }
}
