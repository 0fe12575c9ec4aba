/**
  Routing resources of web_urldispatcher.py: plain, dynamic and static ones, the
  key under which the router indexes them, and the url parts a lookup walks.
  `KeyIsWalked` is why the index may be trusted: a resource that matches a path
  has its key among the parts walked for that path.
 */
module Resources {
  /** A piece of a dynamic path: literal text, or a variable with the strings its pattern accepts. */
  datatype Token = Lit(text: string) | Var(name: string, accepts: string -> bool)

  datatype Resource =
    | PlainResource(path: string, methods: set<string>)
    | DynamicResource(tokens: seq<Token>, methods: set<string>)
    | StaticResource(prefix: string, methods: set<string>)

  /** `hdrs.METH_ANY`. */
  const ANY := "*"

  /** What the constructors assert. */
  predicate Valid(r: Resource) {
    match r
    case PlainResource(path, _) => path == "" || path[0] == '/'
    case DynamicResource(tokens, _) => tokens != [] && tokens[0].Lit? && tokens[0].text != "" && tokens[0].text[0] == '/'
    case StaticResource(prefix, _) => prefix == "" || prefix[0] == '/'
  }

  // ---------------------------------------------------------------------
  // Matching.
  // ---------------------------------------------------------------------

  /** `pattern.fullmatch(path)`: literals as they are, each variable some string it accepts. */
  predicate Matches(tokens: seq<Token>, path: string) {
    if tokens == [] then path == ""
    else
      match tokens[0]
      case Lit(text) => text <= path && Matches(tokens[1..], path[|text|..])
      case Var(_, accepts) => exists k :: 0 <= k <= |path| && accepts(path[..k]) && Matches(tokens[1..], path[k..])
  }

  predicate MatchesPath(r: Resource, path: string) {
    match r
    case PlainResource(p, _) => p == path
    case DynamicResource(tokens, _) => Matches(tokens, path)
    case StaticResource(prefix, _) => prefix + "/" <= path || path == prefix
  }

  predicate HasRoute(r: Resource, verb: string) {
    verb in r.methods || (ANY in r.methods && !r.StaticResource?)
  }

  /** `add_prefix`. */
  function WithPrefix(r: Resource, prefix: string): Resource {
    match r
    case PlainResource(path, methods) => PlainResource(prefix + path, methods)
    case DynamicResource(tokens, methods) => DynamicResource([Lit(prefix)] + tokens, methods)
    case StaticResource(p, methods) => StaticResource(prefix + p, methods)
  }

  /** `freeze`. */
  function Frozen(r: Resource): Resource {
    if r.PlainResource? && r.path == "" then r.(path := "/") else r
  }

  // ---------------------------------------------------------------------
  // The key.
  // ---------------------------------------------------------------------

  function Format(tokens: seq<Token>): string {
    if tokens == [] then ""
    else (if tokens[0].Lit? then tokens[0].text else "{" + tokens[0].name + "}") + Format(tokens[1..])
  }

  function Canonical(r: Resource): string {
    match r
    case PlainResource(path, _) => path
    case DynamicResource(tokens, _) => Format(tokens)
    case StaticResource(prefix, _) => prefix
  }

  /** `s.partition(c)[0]`. */
  function Before(s: string, c: char): (b: string)
    ensures b <= s && c !in b && (|b| < |s| ==> s[|b|] == c)
  {
    if s == "" || s[0] == c then "" else [s[0]] + Before(s[1..], c)
  }

  /** `s.rpartition(c)[0]`. */
  function BeforeLast(s: string, c: char): (b: string)
    ensures b <= s && (c in s ==> |b| < |s| && s[|b|] == c && c !in s[|b| + 1..]) && (c !in s ==> b == "")
  {
    if s == "" then ""
    else if s[|s| - 1] == c then s[..|s| - 1]
    else BeforeLast(s[..|s| - 1], c)
  }

  function RStripSlash(s: string): string {
    if s != "" && s[|s| - 1] == '/' then RStripSlash(s[..|s| - 1]) else s
  }

  function OrRoot(s: string): string {
    if s == "" then "/" else s
  }

  /** `_get_resource_index_key`. */
  function Key(r: Resource): string {
    var canonical := Canonical(r);
    OrRoot(RStripSlash(if '{' in canonical then BeforeLast(Before(canonical, '{'), '/') else canonical))
  }

  // ---------------------------------------------------------------------
  // The walk.
  // ---------------------------------------------------------------------

  function Parent(part: string): string {
    OrRoot(BeforeLast(part, '/'))
  }

  lemma ParentIsSmaller(part: string)
    requires part != "" && part != "/"
    ensures |Parent(part)| < |part| || (Parent(part) == "/" && |part| == 1)
  {
  }

  /** The url parts for which `resolve` looks into the index. */
  function Walk(part: string): seq<string>
    decreases |part|, if part == "/" then 0 else 1
  {
    if part == "" then []
    else if part == "/" then ["/"]
    else
      ParentIsSmaller(part);
      [part] + Walk(Parent(part))
  }

  /** Every prefix that ends before a slash is walked. */
  lemma {:induction false} PrefixIsWalked(p: string, i: nat)
    requires i < |p| && p[i] == '/' && p[0] == '/'
    ensures OrRoot(p[..i]) in Walk(p)
    decreases |p|
  {
    if p != "/" {
      var j := |BeforeLast(p, '/')|;
      assert p[..j] == BeforeLast(p, '/');
      forall k | j < k < |p|
        ensures p[k] != '/'
      {
        assert p[k] == p[j + 1..][k - j - 1];
      }
      if i == j {
        assert Walk(Parent(p)) != [] && Walk(Parent(p))[0] == Parent(p);
      } else if p[..j] != "/" {
        PrefixIsWalked(p[..j], i);
        assert p[..j][..i] == p[..i];
      } else {
        assert p[..i] == "";
      }
    }
  }

  /** So is every such prefix, and the whole, without its trailing slashes. */
  lemma {:induction false} StrippedIsWalked(p: string, n: nat)
    requires p != "" && p[0] == '/' && n <= |p| && (n == |p| || p[n] == '/')
    ensures OrRoot(RStripSlash(p[..n])) in Walk(p)
    decreases n
  {
    var q := p[..n];
    if n > 0 && q[n - 1] == '/' {
      assert q[..n - 1] == p[..n - 1];
      StrippedIsWalked(p, n - 1);
    } else if n == |p| {
      assert q == p && Walk(p)[0] == p;
    } else {
      PrefixIsWalked(p, n);
    }
  }

  /** The text in front of the first variable. */
  lemma {:induction false} HeadOfMatch(tokens: seq<Token>, path: string)
    requires Matches(tokens, path)
    ensures '{' in Format(tokens) ==> Before(Format(tokens), '{') <= path
    ensures '{' !in Format(tokens) ==> Format(tokens) == path
    decreases |tokens|
  {
    if tokens != [] {
      if tokens[0].Lit? {
        var text, more := tokens[0].text, Format(tokens[1..]);
        HeadOfMatch(tokens[1..], path[|text|..]);
        assert path == text + path[|text|..];
        BeforeConcat(text, more);
      } else {
        var f := Format(tokens);
        assert f[0] == '{' && f[0] in f && Before(f, '{') == "";
      }
    }
  }

  lemma {:induction false} BeforeConcat(a: string, b: string)
    ensures Before(a + b, '{') == if '{' in a then Before(a, '{') else a + Before(b, '{')
  {
    if a == "" {
      assert a + b == b;
    } else {
      assert (a + b)[1..] == a[1..] + b;
      BeforeConcat(a[1..], b);
      assert a == [a[0]] + a[1..];
    }
  }

  lemma MatchedPathStarts(r: Resource, path: string)
    requires Valid(r) && MatchesPath(r, path) && path != ""
    ensures path[0] == '/'
  {
    if r.StaticResource? && path != r.prefix {
      assert (r.prefix + "/")[0] == path[0];
    }
  }

  /** A resource that matches a path is indexed under a part that is walked for it. */
  lemma KeyIsWalked(r: Resource, path: string)
    requires Valid(r) && MatchesPath(r, path) && path != ""
    ensures Key(r) in Walk(path)
  {
    MatchedPathStarts(r, path);
    var c := Canonical(r);
    if r.DynamicResource? {
      HeadOfMatch(r.tokens, path);
    }
    if '{' in c {
      var head := Before(c, '{');
      assert head <= path by {
        if r.StaticResource? {
          assert c <= path;
        }
      }
      var n := |BeforeLast(head, '/')|;
      assert BeforeLast(head, '/') == path[..n];
      if '/' in head {
        StrippedIsWalked(path, n);
      } else {
        assert RStripSlash("") == "";
        RootIsWalked(path);
      }
    } else {
      assert c == path[..|c|];
      assert |c| < |path| ==> path[|c|] == '/';
      StrippedIsWalked(path, |c|);
    }
  }

  lemma RootIsWalked(path: string)
    requires path != "" && path[0] == '/'
    ensures "/" in Walk(path)
  {
    PrefixIsWalked(path, 0);
  }

  lemma WalkUnfold(p: string)
    requires p != "" && p != "/" && p[0] == '/'
    ensures Walk(p) == [p] + Walk(Parent(p)) && Parent(p) != "" && Parent(p)[0] == '/' && |Parent(p)| < |p|
  {
    ParentIsSmaller(p);
  }

  /** Later parts of the walk are shorter. */
  lemma {:induction false} WalkShrinks(p: string, i: nat, j: nat)
    requires p != "" && p[0] == '/' && i < j < |Walk(p)|
    ensures |Walk(p)[j]| < |Walk(p)[i]|
    decreases |p|
  {
    WalkUnfold(p);
    var more := Walk(Parent(p));
    assert Walk(p)[j] == more[j - 1];
    if i > 0 {
      assert Walk(p)[i] == more[i - 1];
      WalkShrinks(Parent(p), i - 1, j - 1);
    } else {
      WalkBounded(Parent(p), j - 1);
    }
  }

  lemma {:induction false} WalkBounded(p: string, j: nat)
    requires p != "" && p[0] == '/' && j < |Walk(p)|
    ensures |Walk(p)[j]| <= |p|
    decreases |p|
  {
    if j > 0 {
      WalkUnfold(p);
      WalkBounded(Parent(p), j - 1);
    }
  }

  // ---------------------------------------------------------------------
  // What matching, serving and the key mean.
  // ---------------------------------------------------------------------

  function Concat(parts: seq<string>): string {
    if parts == [] then "" else parts[0] + Concat(parts[1..])
  }

  /** The pieces are the literals and, for each variable, a string that it accepts. */
  predicate Fills(tokens: seq<Token>, parts: seq<string>) {
    |parts| == |tokens| && forall i :: 0 <= i < |tokens| ==>
      if tokens[i].Lit? then parts[i] == tokens[i].text else tokens[i].accepts(parts[i])
  }

  lemma {:induction false} FilledMatches(tokens: seq<Token>, parts: seq<string>)
    requires Fills(tokens, parts)
    ensures Matches(tokens, Concat(parts))
    decreases |tokens|
  {
    if tokens != [] {
      var path, k := Concat(parts), |parts[0]|;
      FilledMatches(tokens[1..], parts[1..]);
      assert path[..k] == parts[0] && path[k..] == Concat(parts[1..]);
    }
  }

  lemma {:induction false} MatchIsFilled(tokens: seq<Token>, path: string) returns (parts: seq<string>)
    requires Matches(tokens, path)
    ensures Fills(tokens, parts) && Concat(parts) == path
    decreases |tokens|
  {
    parts := [];
    if tokens != [] {
      var k := if tokens[0].Lit? then |tokens[0].text| else 0;
      if tokens[0].Var? {
        k :| 0 <= k <= |path| && tokens[0].accepts(path[..k]) && Matches(tokens[1..], path[k..]);
      }
      var more := MatchIsFilled(tokens[1..], path[k..]);
      parts := [path[..k]] + more;
      assert parts[1..] == more && path == path[..k] + path[k..];
    }
  }

  /** A dynamic path is matched exactly if it is the literals with accepted strings between them. */
  lemma MatchesIff(tokens: seq<Token>, path: string)
    ensures Matches(tokens, path) <==> exists parts :: Fills(tokens, parts) && Concat(parts) == path
  {
    if Matches(tokens, path) {
      var parts := MatchIsFilled(tokens, path);
    }
    if parts :| Fills(tokens, parts) && Concat(parts) == path {
      FilledMatches(tokens, parts);
    }
  }

  /**
    When a resource serves a request. A route for any method stands for every one,
    except in a static resource, which answers below its prefix and at it.
   */
  lemma ServesIff(r: Resource, path: string, verb: string)
    ensures MatchesPath(r, path) && HasRoute(r, verb) <==>
              if r.PlainResource? then path == r.path && (verb in r.methods || "*" in r.methods)
              else if r.StaticResource? then
                verb in r.methods && r.prefix <= path && (|path| > |r.prefix| ==> path[|r.prefix|] == '/')
              else
                (verb in r.methods || "*" in r.methods) && exists parts :: Fills(r.tokens, parts) && Concat(parts) == path
  {
    if r.DynamicResource? {
      MatchesIff(r.tokens, path);
    } else if r.StaticResource? {
      BelowPrefix(r.prefix, path);
    }
  }

  lemma BelowPrefix(p: string, path: string)
    ensures p + "/" <= path || path == p <==> p <= path && (|path| > |p| ==> path[|p|] == '/')
  {
    var q := p + "/";
    if q <= path {
      assert q[..|p|] == p && path[..|p|] == q[..|p|] && path[|p|] == q[|p|];
    }
    if p <= path && |path| > |p| && path[|p|] == '/' {
      assert path[..|q|] == q;
    }
  }

  /** The text, without the slashes at its end, is `key`; "/" stands for nothing. */
  predicate IsStripped(key: string, text: string) {
    var k := if key == "/" then "" else key;
    key != "" && k <= text && (k != "" ==> k[|k| - 1] != '/') && forall i :: |k| <= i < |text| ==> text[i] == '/'
  }

  lemma {:induction false} StrippedIs(text: string)
    ensures IsStripped(OrRoot(RStripSlash(text)), text)
  {
    if text != "" && text[|text| - 1] == '/' {
      StrippedIs(text[..|text| - 1]);
    }
  }

  /** Only one string is that. */
  lemma StrippedIsUnique(a: string, b: string, text: string)
    requires IsStripped(a, text) && IsStripped(b, text)
    ensures a == b
  {
    var k, l := if a == "/" then "" else a, if b == "/" then "" else b;
    assert k != "" ==> text[|k| - 1] == k[|k| - 1];
    assert l != "" ==> text[|l| - 1] == l[|l| - 1];
    assert k == text[..|k|] && l == text[..|l|];
  }

  lemma {:induction false} FormatLiterals(tokens: seq<Token>, parts: seq<string>, v: nat)
    requires |parts| == v <= |tokens| && forall i :: 0 <= i < v ==> tokens[i] == Lit(parts[i])
    ensures Format(tokens) == Concat(parts) + Format(tokens[v..])
    decreases v
  {
    if v == 0 {
      assert parts == [] && tokens[0..] == tokens && "" + Format(tokens) == Format(tokens);
    } else {
      FormatLiterals(tokens[1..], parts[1..], v - 1);
      assert tokens[1..][v - 1..] == tokens[v..];
      assert parts[0] + (Concat(parts[1..]) + Format(tokens[v..])) == Concat(parts) + Format(tokens[v..]);
    }
  }

  lemma NoneBefore(s: string)
    ensures '{' !in s ==> Before(s, '{') == s
  {
  }

  lemma KeyStrips(r: Resource, parts: seq<string>, n: nat)
    requires '{' !in Concat(parts)
    requires if r.PlainResource? then parts == [r.path]
             else if r.StaticResource? then parts == [r.prefix]
             else
               && |parts| <= |r.tokens| && (forall i :: 0 <= i < |parts| ==> r.tokens[i] == Lit(parts[i]))
               && (|parts| < |r.tokens| ==> r.tokens[|parts|].Var?)
    requires var text := Concat(parts);
             if r.DynamicResource? && |parts| < |r.tokens| then
               n < |text| && text[n] == '/' && '/' !in text[n + 1..]
             else n == |text|
    ensures IsStripped(Key(r), Concat(parts)[..n])
  {
    var text, c := Concat(parts), Canonical(r);
    assert text[..|text|] == text;
    if r.DynamicResource? {
      var v := |parts|;
      FormatLiterals(r.tokens, parts, v);
      var more := Format(r.tokens[v..]);
      if v < |r.tokens| {
        assert more[0] == '{' && c == text + more && c[|text|] == '{';
        BeforeConcat(text, more);
        assert Before(more, '{') == "" && text + "" == text;
        SameLast(text, '/', n);
        StrippedIs(text[..n]);
      } else {
        assert r.tokens[v..] == [] && text + "" == text;
        StrippedIs(text);
      }
    } else {
      assert Concat(parts[1..]) == "" && text == parts[0];
      StrippedIs(text);
    }
  }

  /**
    The key under which a resource is indexed: its path, or if it is dynamic the text
    `Concat(parts)` in front of the first variable up to the last slash (at `n`), both
    without slashes at the end.
   */
  lemma KeyIs(r: Resource, parts: seq<string>, n: nat)
    requires '{' !in Concat(parts)
    requires if r.PlainResource? then parts == [r.path]
             else if r.StaticResource? then parts == [r.prefix]
             else
               && |parts| <= |r.tokens| && (forall i :: 0 <= i < |parts| ==> r.tokens[i] == Lit(parts[i]))
               && (|parts| < |r.tokens| ==> r.tokens[|parts|].Var?)
    requires var text := Concat(parts);
             if r.DynamicResource? && |parts| < |r.tokens| then
               n < |text| && text[n] == '/' && '/' !in text[n + 1..]
             else n == |text|
    ensures forall k :: IsStripped(k, Concat(parts)[..n]) <==> k == Key(r)
  {
    KeyStrips(r, parts, n);
    forall k | IsStripped(k, Concat(parts)[..n])
      ensures k == Key(r)
    {
      StrippedIsUnique(k, Key(r), Concat(parts)[..n]);
    }
  }

  lemma SameLast(s: string, c: char, n: nat)
    requires n < |s| && s[n] == c && c !in s[n + 1..]
    ensures BeforeLast(s, c) == s[..n]
  {
    var r := |BeforeLast(s, c)|;
    assert forall m :: n < m < |s| ==> s[m] == s[n + 1..][m - n - 1];
    assert forall m :: r < m < |s| ==> s[m] == s[r + 1..][m - r - 1];
  }

  /** Freezing changes only the empty path, which from then on is "/". */
  lemma FrozenMatches(r: Resource, path: string)
    ensures MatchesPath(Frozen(r), path) <==>
              if r.PlainResource? && r.path == "" then path == "/" else MatchesPath(r, path)
    ensures forall verb :: HasRoute(Frozen(r), verb) <==> HasRoute(r, verb)
  {
  }

  /** Prefixing keeps the shape, and moves what is matched by the prefix. */
  lemma PrefixedMatches(r: Resource, prefix: string, path: string)
    requires Valid(r) && prefix != "" && prefix[0] == '/'
    ensures Valid(WithPrefix(r, prefix))
    ensures MatchesPath(WithPrefix(r, prefix), prefix + path) <==> MatchesPath(r, path)
    ensures MatchesPath(WithPrefix(r, prefix), path) ==> prefix <= path
    ensures forall verb :: HasRoute(WithPrefix(r, prefix), verb) <==> HasRoute(r, verb)
  {
    assert (prefix + path)[|prefix|..] == path;
    match r {
      case PlainResource(p, _) =>
        assert (prefix + p)[|prefix|..] == p;
      case DynamicResource(tokens, _) =>
        assert ([Lit(prefix)] + tokens)[1..] == tokens;
      case StaticResource(p, _) =>
        assert prefix + p + "/" == prefix + (p + "/");
        assert (prefix + p)[|prefix|..] == p;
        assert prefix + (p + "/") <= prefix + path <==> p + "/" <= path by {
          assert (prefix + (p + "/"))[|prefix|..] == p + "/";
        }
    }
  }
}
