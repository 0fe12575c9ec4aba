/**
  Byte strings and the few operations of Python's `bytes` that the other
  modules need: `find`, `b"".join` and the CRLF constant.
 */
module Bytes {
  type byte = x: int | 0 <= x < 256
  type bytes = seq<byte>

  const CR: byte := 13
  const LF: byte := 10
  const CRLF: bytes := [CR, LF]

  /** `sub` stands in `s` at index `i`. */
  predicate OccursAt(s: bytes, sub: bytes, i: int) {
    0 <= i && i + |sub| <= |s| && s[i..i + |sub|] == sub
  }

  /** Python's `s.find(sub, start)`: the first occurrence at or after `start`, or -1. */
  function Find(s: bytes, sub: bytes, start: nat): (pos: int)
    ensures -1 <= pos && (pos >= 0 ==> start <= pos <= |s| - |sub|)
    decreases |s| - start
  {
    if start + |sub| > |s| then -1
    else if OccursAt(s, sub, start) then start
    else Find(s, sub, start + 1)
  }

  lemma {:induction false} FindIsFirst(s: bytes, sub: bytes, start: nat)
    ensures var pos := Find(s, sub, start);
            && (pos >= 0 ==> OccursAt(s, sub, pos))
            && forall i :: start <= i < (if pos < 0 then |s| + 1 else pos) ==> !OccursAt(s, sub, i)
    decreases |s| - start
  {
    if start + |sub| <= |s| && !OccursAt(s, sub, start) {
      FindIsFirst(s, sub, start + 1);
    }
  }

  /** Python's `b"".join(pieces)`. */
  function Join(pieces: seq<bytes>): bytes {
    if pieces == [] then [] else pieces[0] + Join(pieces[1..])
  }

  lemma {:induction false} JoinAppend(a: seq<bytes>, b: seq<bytes>)
    ensures Join(a + b) == Join(a) + Join(b)
  {
    if a == [] {
      assert a + b == b;
    } else {
      assert (a + b)[0] == a[0] && (a + b)[1..] == a[1..] + b;
      JoinAppend(a[1..], b);
    }
  }

  lemma JoinSnoc(a: seq<bytes>, x: bytes)
    ensures Join(a + [x]) == Join(a) + x
  {
    JoinAppend(a, [x]);
    assert Join([x]) == x + Join([]);
  }

  /** Two occurrences that `Find` would report are the same one. */
  lemma FindUnique(s: bytes, sub: bytes, start: nat, pos: int)
    requires start <= pos && OccursAt(s, sub, pos)
    requires forall i :: start <= i < pos ==> !OccursAt(s, sub, i)
    ensures Find(s, sub, start) == pos
  {
    FindIsFirst(s, sub, start);
  }

  /** `find` for a single byte, element-wise. */
  lemma FindByte(s: bytes, b: byte, start: nat)
    requires start <= |s|
    ensures var pos := Find(s, [b], start);
            if pos < 0 then b !in s[start..]
            else start <= pos < |s| && s[pos] == b && b !in s[start..pos]
  {
    FindIsFirst(s, [b], start);
    var pos := Find(s, [b], start);
    forall i | start <= i < (if pos < 0 then |s| else pos)
      ensures s[i] != b
    {
      assert !OccursAt(s, [b], i);
      assert s[i..i + 1] == [s[i]];
    }
    if pos >= 0 {
      assert s[pos..pos + 1] == [b];
    }
  }

  // Facts about concatenation that the solver should not have to find by itself
  // in the middle of a larger proof.

  lemma EmptyPrefix(s: bytes)
    ensures [] + s == s
  {
  }

  lemma EmptySuffix(s: bytes)
    ensures s + [] == s
  {
  }

  lemma Assoc(a: bytes, b: bytes, c: bytes)
    ensures (a + b) + c == a + (b + c)
  {
  }

  lemma SameSplit(a: bytes, b: bytes, c: bytes, d: bytes)
    requires a + b == c + d && |a| == |c|
    ensures a == c && b == d
  {
    assert a == (a + b)[..|a|] && c == (c + d)[..|a|];
    assert b == (a + b)[|a|..] && d == (c + d)[|a|..];
  }

  /** Taking `a` and then `b` off the front takes `a + b` off it. */
  lemma TakeTwice(whole: bytes, a: bytes, rest: bytes, b: bytes, end: bytes)
    requires whole == a + rest && rest == b + end
    ensures whole == (a + b) + end
  {
    Assoc(a, b, end);
  }
}
