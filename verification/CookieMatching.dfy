/**
  Which stored cookies a request may see, in cookiejar.py: the jar enumerates the
  domains and paths that could match and looks each pair up. Here the enumeration
  is compared with matching by predicate (sections 5.1.3 and 5.1.4 of RFC 6265).
 */
module CookieMatching {
  import Resources

  // ---------------------------------------------------------------------
  // Splitting and accumulating.
  // ---------------------------------------------------------------------

  /** `s.split(c)`. */
  function Split(s: string, c: char): (parts: seq<string>)
    ensures parts != []
    decreases |s|
  {
    var first := Resources.Before(s, c);
    if |first| == |s| then [s] else [first] + Split(s[|first| + 1..], c)
  }

  /** `accumulate(parts, "{}/{}".format)`. */
  function Accumulated(parts: seq<string>): (all: seq<string>)
    requires parts != []
    ensures all != []
    decreases |parts|
  {
    if |parts| == 1 then parts
    else
      var front := Accumulated(parts[..|parts| - 1]);
      front + [front[|front| - 1] + "/" + parts[|parts| - 1]]
  }

  /** `accumulate(reversed(labels), "{1}.{0}".format)`. */
  function AccumulatedReversed(labels: seq<string>): (all: seq<string>)
    requires labels != []
    ensures all != []
    decreases |labels|
  {
    if |labels| == 1 then labels
    else
      var rest := AccumulatedReversed(labels[1..]);
      rest + [labels[0] + "." + rest[|rest| - 1]]
  }

  /** The domains looked up for a host, shortest first. */
  function Domains(host: string): (all: seq<string>)
    ensures all != []
  {
    AccumulatedReversed(Split(host, '.'))
  }

  /** The paths looked up for a request path, shortest first. */
  function Paths(path: string): (all: seq<string>)
    ensures all != []
  {
    Accumulated(Split(path, '/'))
  }

  // ---------------------------------------------------------------------
  // Domains.
  // ---------------------------------------------------------------------

  /** `_is_domain_match`, for a host that is not an IP address. Python's `s[:-0]` is empty. */
  predicate DomainMatch(domain: string, host: string) {
    host == domain ||
    (|domain| <= |host| && host[|host| - |domain|..] == domain
     && var nonMatching := if domain == "" then "" else host[..|host| - |domain|];
        nonMatching != "" && nonMatching[|nonMatching| - 1] == '.')
  }

  /** The enumeration, one label at a time: what the rest of the host gives, and then the host. */
  lemma {:induction false} DomainsUnfold(host: string)
    ensures Domains(host)[|Domains(host)| - 1] == host
    ensures var first := Resources.Before(host, '.');
            if |first| == |host| then Domains(host) == [host]
            else Domains(host) == Domains(host[|first| + 1..]) + [host]
    decreases |host|
  {
    var first := Resources.Before(host, '.');
    if |first| < |host| {
      var more := host[|first| + 1..];
      DomainsUnfold(more);
      JoinedAgain(host, '.');
      LabelsStep(first, Split(more, '.'));
    }
  }

  lemma JoinedAgain(s: string, c: char)
    requires |Resources.Before(s, c)| < |s|
    ensures var first := Resources.Before(s, c);
            first + [c] + s[|first| + 1..] == s && Split(s, c) == [first] + Split(s[|first| + 1..], c)
  {
  }

  /** One more label in front. */
  lemma LabelsStep(first: string, labels: seq<string>)
    requires labels != []
    ensures var rest := AccumulatedReversed(labels);
            AccumulatedReversed([first] + labels) == rest + [first + "." + rest[|rest| - 1]]
  {
    assert ([first] + labels)[1..] == labels;
  }

  /** The domain begins behind a dot of the host. */
  predicate BehindDot(host: string, domain: string) {
    |domain| < |host| && host[|host| - |domain|..] == domain && host[|host| - |domain| - 1] == '.'
  }

  /** Behind the first dot, or behind a later one. */
  lemma BehindSomeDot(host: string, n: nat, domain: string)
    requires 0 < n <= |host| && host[n - 1] == '.' && '.' !in host[..n - 1]
    ensures BehindDot(host, domain) <==> domain == host[n..] || BehindDot(host[n..], domain)
  {
    var more := host[n..];
    if |domain| < |host| {
      var k := |host| - |domain|;
      assert k < n ==> host[k - 1] == host[..n - 1][k - 1];
      assert k > n ==> host[k..] == more[k - n..] && host[k - 1] == more[k - n - 1];
    }
  }

  /** A domain is looked up exactly if it is the host or begins behind one of its dots. */
  lemma {:induction false} DomainsAre(host: string, domain: string)
    ensures domain in Domains(host) <==> domain == host || BehindDot(host, domain)
    decreases |host|
  {
    var first := Resources.Before(host, '.');
    DomainsUnfold(host);
    if |first| == |host| {
      assert host == first;
      assert BehindDot(host, domain) ==> '.' in host;
    } else {
      var n := |first| + 1;
      assert host[..n - 1] == first;
      DomainsAre(host[n..], domain);
      BehindSomeDot(host, n, domain);
    }
  }

  lemma EnumeratedOrMatched(host: string, domain: string)
    ensures domain in Domains(host) <==>
              DomainMatch(domain, host) || (domain == "" && host != "" && host[|host| - 1] == '.')
  {
    DomainsAre(host, domain);
    if |domain| < |host| && domain != "" {
      var nonMatching := host[..|host| - |domain|];
      assert nonMatching[|nonMatching| - 1] == host[|host| - |domain| - 1];
    }
  }

  /** Lookup by enumeration is domain matching, exactly for the hosts that do not end in a dot. */
  lemma DomainsExactIff(host: string)
    ensures (forall domain :: domain in Domains(host) <==> DomainMatch(domain, host))
       <==> host == "" || host[|host| - 1] != '.'
  {
    forall domain
      ensures domain in Domains(host) <==>
                DomainMatch(domain, host) || (domain == "" && host != "" && host[|host| - 1] == '.')
    {
      EnumeratedOrMatched(host, domain);
    }
    if host != "" && host[|host| - 1] == '.' {
      assert "" in Domains(host) && !DomainMatch("", host);
    }
  }

  /** Domains come shortest first. */
  lemma {:induction false} DomainsGrow(host: string, i: nat, j: nat)
    requires i < j < |Domains(host)|
    ensures |Domains(host)[i]| < |Domains(host)[j]|
    decreases |host|
  {
    DomainsUnfold(host);
    var first := Resources.Before(host, '.');
    var more := host[|first| + 1..];
    if j < |Domains(more)| {
      DomainsGrow(more, i, j);
    } else {
      DomainsUnfold(more);
      if i < |Domains(more)| - 1 {
        DomainsGrow(more, i, |Domains(more)| - 1);
      }
    }
  }

  // ---------------------------------------------------------------------
  // Paths.
  // ---------------------------------------------------------------------

  lemma {:induction false} FirstAt(s: string, c: char, i: nat)
    requires i < |s| && s[i] == c && c !in s[..i]
    ensures Resources.Before(s, c) == s[..i]
    decreases |s|
  {
    if i > 0 {
      assert s[0] == s[..i][0];
      assert s[1..][..i - 1] == s[..i][1..];
      FirstAt(s[1..], c, i - 1);
      assert [s[0]] + s[1..][..i - 1] == s[..i];
    }
  }

  lemma {:induction false} LastAt(s: string, c: char, j: nat)
    requires j < |s| && s[j] == c && c !in s[j + 1..]
    ensures Resources.BeforeLast(s, c) == s[..j]
    decreases |s|
  {
    var n := |s| - 1;
    if j < n {
      assert s[n] == s[j + 1..][n - j - 1];
      assert s[..n][j + 1..] == s[j + 1..][..n - j - 1];
      LastAt(s[..n], c, j);
      assert s[..n][..j] == s[..j];
    }
  }

  lemma {:induction false} NoneBefore(s: string, c: char)
    requires c !in s
    ensures Resources.Before(s, c) == s
  {
    if s != "" {
      NoneBefore(s[1..], c);
      assert s == [s[0]] + s[1..];
    }
  }

  lemma SplitAtFirst(s: string, c: char, i: nat)
    requires i < |s| && s[i] == c && c !in s[..i]
    ensures Split(s, c) == [s[..i]] + Split(s[i + 1..], c)
  {
    FirstAt(s, c, i);
  }

  lemma SplitNone(s: string, c: char)
    requires c !in s
    ensures Split(s, c) == [s]
  {
    NoneBefore(s, c);
  }

  lemma NotBefore(s: string, c: char, n: nat, k: nat)
    requires n <= |s| && c !in s[..n] && k < |s| && s[k] == c
    ensures n <= k
  {
    forall m | 0 <= m < n
      ensures s[m] != c
    {
      assert s[m] == s[..n][m];
    }
  }

  /** Splitting off the last separator instead of the first. */
  lemma {:induction false} SplitAtLast(s: string, c: char, i: nat, j: nat)
    requires i <= j < |s| && s[i] == c && c !in s[..i] && s[j] == c && c !in s[j + 1..]
    ensures Split(s, c) == Split(s[..j], c) + [s[j + 1..]]
    decreases |s|
  {
    var more := s[i + 1..];
    SplitAtFirst(s, c, i);
    if i == j {
      SplitNone(s[..j], c);
      SplitNone(more, c);
    } else {
      var k := j - i - 1;
      var i' := NextSeparator(s, c, i, j);
      SplitAtLast(more, c, i', k);
      SplitAtFirst(s[..j], c, i);
      SplitsOff(s[..i], Split(more[..k], c), s[j + 1..]);
    }
  }

  /** The first separator behind one that is not the last, counted from there. */
  lemma NextSeparator(s: string, c: char, i: nat, j: nat) returns (i': nat)
    requires i < j < |s| && s[i] == c && s[j] == c
    ensures var more, k := s[i + 1..], j - i - 1;
            && i' <= k < |more| && more[i'] == c && c !in more[..i'] && more[k] == c
            && more[k + 1..] == s[j + 1..] && s[..j][..i] == s[..i] && s[..j][i + 1..] == more[..k]
  {
    var more, k := s[i + 1..], j - i - 1;
    i' := |Resources.Before(more, c)|;
    assert more[..i'] == Resources.Before(more, c);
    assert more[k] == c;
    NotBefore(more, c, i', k);
  }

  lemma SplitSnoc(s: string, c: char)
    requires c in s
    ensures var front := Resources.BeforeLast(s, c);
            Split(s, c) == Split(front, c) + [s[|front| + 1..]]
  {
    var first, front := Resources.Before(s, c), Resources.BeforeLast(s, c);
    FirstAndLast(s, c, first, front);
    SplitAtLast(s, c, |first|, |front|);
  }

  lemma FirstAndLast(s: string, c: char, first: string, front: string)
    requires c in s && first <= s && c !in first && (|first| < |s| ==> s[|first|] == c)
    requires front <= s && |front| < |s| && s[|front|] == c
    ensures |first| <= |front| && s[|first|] == c && s[..|first|] == first && s[..|front|] == front
  {
    assert forall k :: 0 <= k < |first| ==> s[k] == first[k] && s[k] != c;
  }

  lemma SplitsOff(first: string, middle: seq<string>, last: string)
    ensures [first] + (middle + [last]) == ([first] + middle) + [last]
  {
  }

  lemma AccumulatedSnoc(parts: seq<string>, last: string)
    requires parts != []
    ensures var front := Accumulated(parts);
            Accumulated(parts + [last]) == front + [front[|front| - 1] + "/" + last]
  {
    assert (parts + [last])[..|parts|] == parts;
  }

  lemma PathsStep(path: string)
    requires '/' in path
    ensures var front := Resources.BeforeLast(path, '/');
            Paths(path) == Paths(front) + [Paths(front)[|Paths(front)| - 1] + "/" + path[|front| + 1..]]
  {
    var front := Resources.BeforeLast(path, '/');
    SplitSnoc(path, '/');
    AccumulatedSnoc(Split(front, '/'), path[|front| + 1..]);
  }

  lemma AroundLastSlash(path: string)
    requires '/' in path
    ensures var front := Resources.BeforeLast(path, '/'); front + "/" + path[|front| + 1..] == path
  {
  }

  /** The enumeration of paths, one segment at a time. */
  lemma {:induction false} PathsUnfold(path: string)
    ensures Paths(path)[|Paths(path)| - 1] == path
    ensures if '/' !in path then Paths(path) == [path]
            else Paths(path) == Paths(Resources.BeforeLast(path, '/')) + [path]
    decreases |path|
  {
    if '/' in path {
      PathsStep(path);
      PathsUnfold(Resources.BeforeLast(path, '/'));
      AroundLastSlash(path);
    } else {
      SplitNone(path, '/');
    }
  }

  /** The stored path matches at a segment boundary. */
  predicate AtBoundary(key: string, path: string) {
    key == path || key + "/" <= path
  }

  lemma SlashIn(key: string, path: string)
    ensures key + "/" <= path ==> '/' in path
  {
    if key + "/" <= path {
      assert path[|key|] == (key + "/")[|key|];
    }
  }

  /** A path is looked up exactly if it matches the request path at a "/" boundary. */
  lemma {:induction false} PathsAre(path: string, key: string)
    ensures key in Paths(path) <==> AtBoundary(key, path)
    decreases |path|
  {
    PathsUnfold(path);
    if '/' in path {
      var front := Resources.BeforeLast(path, '/');
      PathsAre(front, key);
      BoundaryOfFront(path, key);
    } else {
      SlashIn(key, path);
    }
  }

  lemma SlashPrefix(key: string, s: string)
    ensures key + "/" <= s <==> |key| < |s| && s[..|key|] == key && s[|key|] == '/'
  {
    var k := key + "/";
    if |key| < |s| && s[..|key|] == key && s[|key|] == '/' {
      assert s[..|key| + 1] == k;
    }
    if k <= s {
      assert k[..|key|] == key && k[|key|] == '/';
      assert s[..|key|] == k[..|key|];
    }
  }

  lemma BoundaryOfFront(path: string, key: string)
    requires '/' in path
    ensures key + "/" <= path <==> AtBoundary(key, Resources.BeforeLast(path, '/'))
  {
    var front := Resources.BeforeLast(path, '/');
    var i := |front|;
    SlashPrefix(key, path);
    SlashPrefix(key, front);
    assert forall k :: i < k < |path| ==> path[k] == path[i + 1..][k - i - 1];
    assert front == path[..i] && path[i] == '/';
    if |key| <= i {
      assert front[..|key|] == path[..|key|];
    }
  }

  /** Paths come shortest first. */
  lemma {:induction false} PathsGrow(path: string, i: nat, j: nat)
    requires i < j < |Paths(path)|
    ensures |Paths(path)[i]| < |Paths(path)[j]|
    decreases |path|
  {
    PathsUnfold(path);
    var front := Resources.BeforeLast(path, '/');
    if j < |Paths(front)| {
      PathsGrow(front, i, j);
    } else {
      PathsUnfold(front);
      if i < |Paths(front)| - 1 {
        PathsGrow(front, i, |Paths(front)| - 1);
      }
    }
  }

  // ---------------------------------------------------------------------
  // Path matching.
  // ---------------------------------------------------------------------

  /** Path matching, section 5.1.4 of RFC 6265. */
  predicate PathMatch(cookiePath: string, path: string) {
    || cookiePath == path
    || (cookiePath != "" && cookiePath <= path
        && (cookiePath[|cookiePath| - 1] == '/' || cookiePath + "/" <= path))
  }

  /** What the jar asks of a cookie's path: stored without trailing slashes, compared in length with them. */
  predicate PathEligible(cookiePath: string, path: string) {
    AtBoundary(Resources.RStripSlash(cookiePath), path) && |cookiePath| <= |path|
  }

  /** Stripping takes nothing but slashes. */
  lemma {:induction false} Stripped(s: string)
    ensures var key := Resources.RStripSlash(s);
            && key <= s && (key != "" ==> key[|key| - 1] != '/')
            && forall i :: |key| <= i < |s| ==> s[i] == '/'
  {
    if s != "" && s[|s| - 1] == '/' {
      Stripped(s[..|s| - 1]);
    }
  }

  /** A cookie path with two slashes at the end. */
  predicate EndsInTwoSlashes(cookiePath: string) {
    |cookiePath| >= 2 && cookiePath[|cookiePath| - 2] == '/' && cookiePath[|cookiePath| - 1] == '/'
  }

  lemma OneSlashIsExact(cookiePath: string, path: string)
    requires cookiePath != "" && cookiePath[0] == '/' && path != "" && path[0] == '/'
    requires !EndsInTwoSlashes(cookiePath)
    ensures PathEligible(cookiePath, path) <==> PathMatch(cookiePath, path)
  {
    Stripped(cookiePath);
    var key := Resources.RStripSlash(cookiePath);
    if cookiePath[|cookiePath| - 1] == '/' {
      assert cookiePath == key + "/";
    } else {
      assert cookiePath == key;
      if key + "/" <= path {
        assert path[|key|] == (key + "/")[|key|];
        assert path[..|key|] == (key + "/")[..|key|] == key;
      }
    }
  }

  /** The jar's path rule is path matching, exactly for cookie paths that do not end in two slashes. */
  lemma PathsExactIff(cookiePath: string)
    requires cookiePath != "" && cookiePath[0] == '/'
    ensures (forall path :: path != "" && path[0] == '/' ==>
                (PathEligible(cookiePath, path) <==> PathMatch(cookiePath, path)))
       <==> !EndsInTwoSlashes(cookiePath)
  {
    if EndsInTwoSlashes(cookiePath) {
      var n := |cookiePath|;
      var path := cookiePath[n - 1 := 'x'];
      Stripped(cookiePath);
      var key := Resources.RStripSlash(cookiePath);
      assert |key| <= n - 2;
      assert path[..|key| + 1] == key + "/";
      assert cookiePath[n - 1] != path[n - 1];
      assert PathEligible(cookiePath, path) && !PathMatch(cookiePath, path);
      assert path[0] == '/';
    } else {
      forall path | path != "" && path[0] == '/'
        ensures PathEligible(cookiePath, path) <==> PathMatch(cookiePath, path)
      {
        OneSlashIsExact(cookiePath, path);
      }
    }
  }
}
