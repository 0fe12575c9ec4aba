/**
  The router of web_urldispatcher.py: resources in registration order and an
  index from key to resources, kept up to date in place. `Resolve`, which only
  looks where the index points, is proved to agree with a scan of all resources.
  A resource is known by its position in the list, which stands for its identity.
 */
module UrlDispatchers {
  import opened Options
  import opened Resources

  datatype Resolution = Match(resource: nat) | NoMatch(allowed: set<string>)

  /** Resources in [lo, hi) with key `k`, in order. */
  function Ids(rs: seq<Resource>, k: string, lo: nat, hi: nat): seq<nat>
    requires hi <= |rs|
    decreases hi
  {
    if hi <= lo then [] else Ids(rs, k, lo, hi - 1) + if Key(rs[hi - 1]) == k then [hi - 1] else []
  }

  lemma {:induction false} IdsFirst(rs: seq<Resource>, k: string, lo: nat, hi: nat)
    requires lo < hi <= |rs|
    ensures Ids(rs, k, lo, hi) == (if Key(rs[lo]) == k then [lo] else []) + Ids(rs, k, lo + 1, hi)
    decreases hi
  {
    var last := if Key(rs[hi - 1]) == k then [hi - 1] else [];
    if hi - 1 == lo {
      assert Ids(rs, k, lo, lo) == [] && Ids(rs, k, lo + 1, hi) == [];
      assert [] + last == last && last + [] == last;
    } else {
      IdsFirst(rs, k, lo, hi - 1);
      var first := if Key(rs[lo]) == k then [lo] else [];
      assert first + Ids(rs, k, lo + 1, hi - 1) + last == first + (Ids(rs, k, lo + 1, hi - 1) + last);
    }
  }

  /** A change outside [lo, hi) does not show. */
  lemma {:induction false} IdsElsewhere(rs: seq<Resource>, rs': seq<Resource>, k: string, lo: nat, hi: nat)
    requires hi <= |rs| && hi <= |rs'| && forall i :: lo <= i < hi ==> Key(rs'[i]) == Key(rs[i])
    ensures Ids(rs', k, lo, hi) == Ids(rs, k, lo, hi)
    decreases hi
  {
    if lo < hi {
      IdsElsewhere(rs, rs', k, lo, hi - 1);
    }
  }

  lemma {:induction false} IdsAre(rs: seq<Resource>, k: string, lo: nat, hi: nat, i: nat)
    requires hi <= |rs|
    ensures i in Ids(rs, k, lo, hi) <==> lo <= i < hi && Key(rs[i]) == k
    decreases hi
  {
    if lo < hi {
      IdsAre(rs, k, lo, hi - 1, i);
    }
  }

  lemma {:induction false} IdsInOrder(rs: seq<Resource>, k: string, lo: nat, hi: nat, a: nat, b: nat)
    requires hi <= |rs| && a < b < |Ids(rs, k, lo, hi)|
    ensures Ids(rs, k, lo, hi)[a] < Ids(rs, k, lo, hi)[b]
    decreases hi
  {
    var front := Ids(rs, k, lo, hi - 1);
    if b < |front| {
      IdsInOrder(rs, k, lo, hi - 1, a, b);
    } else {
      assert front[a] in front;
      IdsAre(rs, k, lo, hi - 1, front[a]);
    }
  }

  // ---------------------------------------------------------------------
  // The linear scan.
  // ---------------------------------------------------------------------

  /** The resource serves the request. */
  predicate Hit(rs: seq<Resource>, i: nat, path: string, verb: string) {
    i < |rs| && MatchesPath(rs[i], path) && HasRoute(rs[i], verb)
  }

  /** Methods allowed for a path by the resources at the given positions. */
  ghost function AllowedAt(rs: seq<Resource>, ids: set<nat>, path: string): set<string> {
    set i, verb | i in ids && i < |rs| && MatchesPath(rs[i], path) && verb in rs[i].methods :: verb
  }

  /** Methods allowed for a path by any resource. */
  ghost function AllowedBy(rs: seq<Resource>, path: string): set<string> {
    set i, verb | 0 <= i < |rs| && MatchesPath(rs[i], path) && verb in rs[i].methods :: verb
  }

  /** The positions of the resources whose key is one of `keys`. */
  ghost function Under(rs: seq<Resource>, keys: seq<string>): set<nat> {
    set i: nat | i < |rs| && Key(rs[i]) in keys
  }

  /** The answer of a scan of all resources: the hit with the longest key, the earliest of those, or all that is allowed. */
  ghost predicate ScanSays(rs: seq<Resource>, path: string, verb: string, r: Resolution) {
    match r
    case Match(i) =>
      && Hit(rs, i, path, verb)
      && forall j: nat :: Hit(rs, j, path, verb) ==>
           |Key(rs[j])| < |Key(rs[i])| || (Key(rs[j]) == Key(rs[i]) && i <= j)
    case NoMatch(allowed) =>
      (forall j: nat :: !Hit(rs, j, path, verb)) && allowed == AllowedBy(rs, path)
  }

  ghost predicate NoHits(rs: seq<Resource>, ids: seq<nat>, path: string, verb: string) {
    forall j :: 0 <= j < |ids| ==> !Hit(rs, ids[j], path, verb)
  }

  lemma NoHitAt(rs: seq<Resource>, ids: seq<nat>, a: nat, b: nat, path: string, verb: string)
    requires a <= |ids| && b < |ids| && NoHits(rs, ids[..a], path, verb)
    ensures b < a ==> !Hit(rs, ids[b], path, verb)
  {
    if b < a {
      assert ids[..a][b] == ids[b];
    }
  }

  ghost function Positions(ids: seq<nat>): set<nat> {
    set i | i in ids
  }

  lemma OneMoreCandidate(rs: seq<Resource>, ids: seq<nat>, i: nat, path: string, verb: string)
    requires i < |rs| && NoHits(rs, ids, path, verb) && !Hit(rs, i, path, verb)
    ensures NoHits(rs, ids + [i], path, verb)
    ensures AllowedAt(rs, Positions(ids + [i]), path)
         == AllowedAt(rs, Positions(ids), path) + if MatchesPath(rs[i], path) then rs[i].methods else {}
  {
    assert Positions(ids + [i]) == Positions(ids) + {i};
    AllowedTogether(rs, Positions(ids), {i}, path);
    AllowedAtOne(rs, i, path);
  }

  lemma BucketIsUnder(rs: seq<Resource>, k: string)
    ensures Positions(Ids(rs, k, 0, |rs|)) == Under(rs, [k])
  {
    forall i: nat
      ensures i in Ids(rs, k, 0, |rs|) <==> i in Under(rs, [k])
    {
      IdsAre(rs, k, 0, |rs|, i);
    }
  }

  lemma AllowedTogether(rs: seq<Resource>, a: set<nat>, b: set<nat>, path: string)
    ensures AllowedAt(rs, a + b, path) == AllowedAt(rs, a, path) + AllowedAt(rs, b, path)
  {
  }

  lemma AllowedAtOne(rs: seq<Resource>, i: nat, path: string)
    requires i < |rs|
    ensures AllowedAt(rs, {i}, path) == if MatchesPath(rs[i], path) then rs[i].methods else {}
  {
    assert MatchesPath(rs[i], path) ==> forall verb :: verb in rs[i].methods ==> verb in AllowedAt(rs, {i}, path);
  }

  /** No resource under these keys serves the request; `allowed` is what they would allow. */
  ghost predicate InVain(rs: seq<Resource>, path: string, verb: string, keys: seq<string>, allowed: set<string>) {
    && allowed == AllowedAt(rs, Under(rs, keys), path)
    && forall i :: i in Under(rs, keys) ==> !Hit(rs, i, path, verb)
  }

  lemma InVainMore(rs: seq<Resource>, path: string, verb: string, keys: seq<string>, k: string,
                   allowed: set<string>, more: set<string>)
    requires InVain(rs, path, verb, keys, allowed) && NoHits(rs, Ids(rs, k, 0, |rs|), path, verb)
    requires more == AllowedAt(rs, Under(rs, [k]), path)
    ensures InVain(rs, path, verb, keys + [k], allowed + more)
  {
    assert Under(rs, keys + [k]) == Under(rs, keys) + Under(rs, [k]);
    AllowedTogether(rs, Under(rs, keys), Under(rs, [k]), path);
    forall i | i in Under(rs, [k])
      ensures !Hit(rs, i, path, verb)
    {
      BucketIsUnder(rs, k);
      assert i in Ids(rs, k, 0, |rs|);
    }
  }

  /** When the whole walk has been looked at in vain, the scan is in vain, too. */
  lemma WalkedInVain(rs: seq<Resource>, path: string, verb: string)
    requires path != "" && forall i :: 0 <= i < |rs| ==> Resources.Valid(rs[i])
    requires forall i :: i in Under(rs, Walk(path)) ==> !Hit(rs, i, path, verb)
    ensures ScanSays(rs, path, verb, NoMatch(AllowedAt(rs, Under(rs, Walk(path)), path)))
  {
    forall i: nat | i < |rs| && MatchesPath(rs[i], path)
      ensures i in Under(rs, Walk(path))
    {
      KeyIsWalked(rs[i], path);
    }
    forall i: nat
      ensures !Hit(rs, i, path, verb)
    {
    }
    assert AllowedBy(rs, path) == AllowedAt(rs, Under(rs, Walk(path)), path);
  }

  lemma TakeHolds(s: seq<string>, w: nat, t: nat)
    requires w <= |s| && t < |s|
    ensures t < w ==> s[t] in s[..w]
  {
    if t < w {
      assert s[..w][t] == s[t];
    }
  }

  /** Among the candidates of one part, those behind the first hit were registered later. */
  lemma LaterInBucket(rs: seq<Resource>, k: string, path: string, verb: string, a: nat, j: nat)
    requires var bucket := Ids(rs, k, 0, |rs|);
             a < |bucket| && NoHits(rs, bucket[..a], path, verb)
    requires Hit(rs, j, path, verb) && Key(rs[j]) == k
    ensures Ids(rs, k, 0, |rs|)[a] <= j
  {
    var bucket := Ids(rs, k, 0, |rs|);
    IdsAre(rs, k, 0, |rs|, j);
    var b :| 0 <= b < |bucket| && bucket[b] == j;
    NoHitAt(rs, bucket, a, b, path, verb);
    if a < b {
      IdsInOrder(rs, k, 0, |rs|, a, b);
    }
  }

  /** The first hit in the walk is the scan's choice. */
  lemma FirstHitIsBest(rs: seq<Resource>, path: string, verb: string, w: nat, a: nat)
    requires path != "" && forall i :: 0 <= i < |rs| ==> Resources.Valid(rs[i])
    requires w < |Walk(path)|
    requires forall i :: i in Under(rs, Walk(path)[..w]) ==> !Hit(rs, i, path, verb)
    requires var bucket := Ids(rs, Walk(path)[w], 0, |rs|);
             a < |bucket| && Hit(rs, bucket[a], path, verb) && NoHits(rs, bucket[..a], path, verb)
    ensures ScanSays(rs, path, verb, Match(Ids(rs, Walk(path)[w], 0, |rs|)[a]))
  {
    var k := Walk(path)[w];
    var i := Ids(rs, k, 0, |rs|)[a];
    IdsAre(rs, k, 0, |rs|, i);
    MatchedPathStarts(rs[i], path);
    forall j: nat | Hit(rs, j, path, verb)
      ensures |Key(rs[j])| < |k| || (Key(rs[j]) == k && i <= j)
    {
      KeyIsWalked(rs[j], path);
      assert j !in Under(rs, Walk(path)[..w]);
      var t :| 0 <= t < |Walk(path)| && Walk(path)[t] == Key(rs[j]);
      TakeHolds(Walk(path), w, t);
      if t > w {
        WalkShrinks(path, w, t);
      } else {
        LaterInBucket(rs, k, path, verb, a, j);
      }
    }
  }

  lemma OneMore(rs: seq<Resource>, r: Resource, k: string)
    ensures Ids(rs + [r], k, 0, |rs| + 1) == Ids(rs, k, 0, |rs|) + if Key(r) == k then [|rs|] else []
  {
    IdsElsewhere(rs, rs + [r], k, 0, |rs|);
  }

  /** The url part at hand is the next one of the walk. */
  lemma OnTheWalk(path: string, part: string, w: nat)
    requires w <= |Walk(path)| && Walk(part) == Walk(path)[w..] && part != ""
    ensures w < |Walk(path)| && Walk(path)[w] == part && Walk(path)[..w + 1] == Walk(path)[..w] + [part]
    ensures if part == "/" then Walk(path)[..w + 1] == Walk(path) else Walk(Parent(part)) == Walk(path)[w + 1..]
  {
    assert Walk(part)[0] == part && Walk(path)[w..][1..] == Walk(path)[w + 1..];
    if part == "/" {
      assert |Walk(part)| == 1;
    }
  }

  class UrlDispatcher {
    var resources: seq<Resource>
    var index: map<string, seq<nat>>

    function Bucket(k: string): seq<nat>
      reads this
    {
      if k in index then index[k] else []
    }

    ghost predicate ResourcesOk()
      reads this
    {
      forall i :: 0 <= i < |resources| ==> Resources.Valid(resources[i])
    }

    /** Each resource is in the bucket of its current key, once, in registration order. */
    ghost predicate Valid()
      reads this
    {
      ResourcesOk() && forall k :: Bucket(k) == Ids(resources, k, 0, |resources|)
    }

    /** The state of the index when the first `j` resources have been taken out and put back at the end. */
    ghost predicate Rotated(j: nat)
      reads this
      requires j <= |resources|
    {
      forall k :: Bucket(k) == Ids(resources, k, j, |resources|) + Ids(resources, k, 0, j)
    }

    lemma NotYetRotated()
      requires Valid()
      ensures Rotated(0)
    {
      assert forall k :: Ids(resources, k, 0, |resources|) + [] == Ids(resources, k, 0, |resources|);
    }

    lemma AllRotated()
      requires ResourcesOk() && Rotated(|resources|)
      ensures Valid()
    {
      assert forall k :: [] + Ids(resources, k, 0, |resources|) == Ids(resources, k, 0, |resources|);
    }

    constructor ()
      ensures Valid() && resources == []
    {
      resources, index := [], map[];
    }

    method IndexResource(i: nat)
      requires i < |resources|
      modifies this`index
      ensures forall k :: Bucket(k) == old(Bucket(k)) + if k == Key(resources[i]) then [i] else []
    {
      var key := Key(resources[i]);
      var bucket := if key in index then index[key] else [];
      index := index[key := bucket + [i]];
      assert forall k :: old(Bucket(k)) + [] == old(Bucket(k));
    }

    /** `list.remove`: drops the first occurrence; the source would raise if there were none. */
    method UnindexResource(i: nat)
      requires i < |resources| && i in Bucket(Key(resources[i]))
      modifies this`index
      ensures forall k :: Bucket(k) == if k == Key(resources[i]) then Without(old(Bucket(k)), i) else old(Bucket(k))
    {
      var key := Key(resources[i]);
      index := index[key := Without(index[key], i)];
    }

    method RegisterResource(r: Resource)
      requires Valid() && Resources.Valid(r)
      modifies this
      ensures Valid() && resources == old(resources) + [r]
    {
      ghost var before := resources;
      var n := |resources|;
      resources := resources + [r];
      IndexResource(n);
      forall k
        ensures Bucket(k) == Ids(resources, k, 0, n + 1)
      {
        OneMore(before, r, k);
      }
    }

    /** `_add_prefix_to_resources`: every resource leaves its bucket, changes, and goes to the end of its new one. */
    method AddPrefixToResources(prefix: string)
      requires Valid() && prefix != "" && prefix[0] == '/'
      modifies this
      ensures Valid() && |resources| == |old(resources)|
      ensures forall i :: 0 <= i < |resources| ==> resources[i] == WithPrefix(old(resources[i]), prefix)
    {
      var n := |resources|;
      NotYetRotated();
      for j := 0 to n
        invariant |resources| == n && ResourcesOk()
        invariant forall i :: 0 <= i < j ==> resources[i] == WithPrefix(old(resources[i]), prefix)
        invariant forall i :: j <= i < n ==> resources[i] == old(resources[i])
        invariant Rotated(j)
      {
        OnePrefixed(j, prefix);
      }
      AllRotated();
    }

    method OnePrefixed(j: nat, prefix: string)
      requires j < |resources| && ResourcesOk() && prefix != "" && prefix[0] == '/' && Rotated(j)
      modifies this
      ensures resources == old(resources)[j := WithPrefix(old(resources[j]), prefix)]
      ensures ResourcesOk() && Rotated(j + 1)
    {
      ghost var before := resources;
      FirstInBucket(before, Key(before[j]), j);
      UnindexResource(j);
      PrefixedMatches(resources[j], prefix, "");
      resources := resources[j := WithPrefix(resources[j], prefix)];
      IndexResource(j);
      forall k
        ensures Bucket(k) == Ids(resources, k, j + 1, |resources|) + Ids(resources, k, 0, j + 1)
      {
        TakenOut(before, k, j);
        PutBack(before, resources[j], k, j);
      }
    }

    /** `freeze` of every resource: an empty path becomes "/", whose key is the same. */
    method Freeze()
      requires Valid()
      modifies this`resources
      ensures Valid() && |resources| == |old(resources)|
      ensures forall i :: 0 <= i < |resources| ==> resources[i] == Frozen(old(resources[i]))
    {
      var n := |resources|;
      for j := 0 to n
        invariant |resources| == n && ResourcesOk()
        invariant forall i :: 0 <= i < j ==> resources[i] == Frozen(old(resources[i]))
        invariant forall i :: j <= i < n ==> resources[i] == old(resources[i])
        invariant forall i :: 0 <= i < n ==> Key(resources[i]) == Key(old(resources[i]))
      {
        FrozenKey(resources[j]);
        resources := resources[j := Frozen(resources[j])];
      }
      forall k
        ensures Bucket(k) == Ids(resources, k, 0, n)
      {
        IdsElsewhere(old(resources), resources, k, 0, n);
      }
    }

    /** The candidates of one url part, in registration order. */
    method TryBucket(part: string, path: string, verb: string) returns (hit: Option<nat>, allowed: set<string>)
      requires Valid()
      ensures var bucket := Ids(resources, part, 0, |resources|);
              if hit.Some? then
                && hit.value < |bucket| && Hit(resources, bucket[hit.value], path, verb)
                && NoHits(resources, bucket[..hit.value], path, verb)
              else
                && NoHits(resources, bucket, path, verb)
                && allowed == AllowedAt(resources, Under(resources, [part]), path)
    {
      var bucket := Bucket(part);
      hit, allowed := None, {};
      for b := 0 to |bucket|
        invariant NoHits(resources, bucket[..b], path, verb)
        invariant allowed == AllowedAt(resources, Positions(bucket[..b]), path)
      {
        var i := bucket[b];
        IdsAre(resources, part, 0, |resources|, i);
        if Hit(resources, i, path, verb) {
          return Some(b), allowed;
        }
        assert bucket[..b + 1] == bucket[..b] + [i];
        OneMoreCandidate(resources, bucket[..b], i, path, verb);
        allowed := allowed + if MatchesPath(resources[i], path) then resources[i].methods else {};
      }
      assert bucket[..|bucket|] == bucket;
      BucketIsUnder(resources, part);
    }

    /** `resolve`, without sub-apps: walks the path from its full length down to "/". */
    method Resolve(path: string, verb: string) returns (r: Resolution)
      requires Valid()
      ensures path != "" ==> ScanSays(resources, path, verb, r)
      ensures path == "" ==> r == NoMatch({})
    {
      var allowed: set<string> := {};
      var part := path;
      ghost var w := 0;
      while part != ""
        invariant w <= |Walk(path)| && Walk(part) == Walk(path)[w..]
        invariant InVain(resources, path, verb, Walk(path)[..w], allowed)
        invariant part == "" ==> path == ""
        invariant part != "" ==> w < |Walk(path)|
        decreases |part|, if part == "/" then 0 else 1
      {
        OnTheWalk(path, part, w);
        var hit, more := TryBucket(part, path, verb);
        if hit.Some? {
          FirstHitIsBest(resources, path, verb, w, hit.value);
          return Match(Bucket(part)[hit.value]);
        }
        InVainMore(resources, path, verb, Walk(path)[..w], part, allowed, more);
        allowed := allowed + more;
        w := w + 1;
        if part == "/" {
          break;
        }
        ParentIsSmaller(part);
        part := Parent(part);
      }
      if path != "" {
        WalkedInVain(resources, path, verb);
      }
      return NoMatch(allowed);
    }
  }

  /** `list.remove(x)` of a list that holds `x`. */
  function Without(s: seq<nat>, x: nat): seq<nat>
    requires x in s
  {
    if s[0] == x then s[1..] else [s[0]] + Without(s[1..], x)
  }

  lemma FirstInBucket(rs: seq<Resource>, k: string, j: nat)
    requires j < |rs| && Key(rs[j]) == k
    ensures var bucket := Ids(rs, k, j, |rs|) + Ids(rs, k, 0, j);
            && bucket != [] && bucket[0] == j
            && Without(bucket, j) == Ids(rs, k, j + 1, |rs|) + Ids(rs, k, 0, j)
  {
    IdsFirst(rs, k, j, |rs|);
    var bucket := Ids(rs, k, j, |rs|) + Ids(rs, k, 0, j);
    assert bucket[1..] == Ids(rs, k, j + 1, |rs|) + Ids(rs, k, 0, j);
  }

  /** What is left of a bucket without resource `j`, which is its first entry if it is there at all. */
  function Others(rs: seq<Resource>, k: string, j: nat): seq<nat>
    requires j < |rs|
  {
    Ids(rs, k, j + 1, |rs|) + Ids(rs, k, 0, j)
  }

  lemma TakenOut(rs: seq<Resource>, k: string, j: nat)
    requires j < |rs|
    ensures var bucket := Ids(rs, k, j, |rs|) + Ids(rs, k, 0, j);
            if Key(rs[j]) == k then j in bucket && Without(bucket, j) == Others(rs, k, j)
            else bucket == Others(rs, k, j)
  {
    if Key(rs[j]) == k {
      FirstInBucket(rs, k, j);
    } else {
      IdsFirst(rs, k, j, |rs|);
      assert [] + Ids(rs, k, j + 1, |rs|) == Ids(rs, k, j + 1, |rs|);
    }
  }

  lemma PutBack(rs: seq<Resource>, r: Resource, k: string, j: nat)
    requires j < |rs|
    ensures var rs' := rs[j := r];
            Others(rs, k, j) + (if Key(r) == k then [j] else []) == Ids(rs', k, j + 1, |rs|) + Ids(rs', k, 0, j + 1)
  {
    var rs' := rs[j := r];
    IdsElsewhere(rs, rs', k, j + 1, |rs|);
    IdsElsewhere(rs, rs', k, 0, j);
    Regroup(Ids(rs, k, j + 1, |rs|), Ids(rs, k, 0, j), if Key(r) == k then [j] else []);
  }

  lemma Regroup(a: seq<nat>, b: seq<nat>, c: seq<nat>)
    ensures a + b + c == a + (b + c)
  {
  }

  lemma FrozenKey(r: Resource)
    ensures Key(Frozen(r)) == Key(r) && (Resources.Valid(r) ==> Resources.Valid(Frozen(r)))
  {
    assert RStripSlash("/") == RStripSlash("");
  }
}
