/**
  The cookie jar of cookiejar.py: cookies by (domain, path, name), a heap of
  scheduled expirations that is only cleaned lazily, a cache of morsels that have
  been built, and the host-only flags. `heapq` is taken by its contract: the heap
  is a multiset whose first entry is a smallest one. The two-level dictionaries of
  the source are one map here, from the triple.
 */
module CookieJars {
  import opened Options
  import opened CookieMatching
  import Resources

  datatype MaxAge = NoAge | Seconds(n: int) | BadAge
  datatype Expires = NoDate | Date(when: int) | BadDate

  /** A `Morsel` with the attributes the jar looks at. */
  datatype Cookie = Cookie(value: string, coded: string, domain: string, path: string, secure: bool,
                           maxAge: MaxAge, expires: Expires)

  datatype Key = Key(domain: string, path: string, name: string)

  datatype Entry = Entry(when: int, key: Key)

  /** What goes into a request: a shared cookie by its value, any other as a built morsel. */
  datatype Sent = Shared(value: string) | Built(name: string, value: string, coded: string)

  function MorselOf(name: string, c: Cookie): Sent {
    Built(name, c.value, c.coded)
  }

  const MIN_SCHEDULED_COOKIE_EXPIRATION: nat := 100

  // ---------------------------------------------------------------------
  // The heap.
  // ---------------------------------------------------------------------

  predicate IsSmallest(e: Entry, heap: multiset<Entry>) {
    e in heap && forall x :: x in heap ==> e.when <= x.when
  }

  lemma {:induction false} SmallestExists(heap: multiset<Entry>)
    requires heap != multiset{}
    ensures exists e :: IsSmallest(e, heap)
    decreases |heap|
  {
    var e :| e in heap;
    var rest := heap - multiset{e};
    assert forall x :: x in heap ==> x in rest || x == e;
    if rest == multiset{} {
      assert IsSmallest(e, heap);
    } else {
      SmallestExists(rest);
      var m :| IsSmallest(m, rest);
      assert IsSmallest(if m.when < e.when then m else e, heap);
    }
  }

  /** The entry's time is the recorded expiry of its cookie. */
  predicate IsCurrent(e: Entry, expirations: map<Key, int>) {
    e.key in expirations && expirations[e.key] == e.when
  }

  /** The keys that are due. */
  ghost function Due(expirations: map<Key, int>, now: int): set<Key> {
    set k | k in expirations && expirations[k] <= now
  }

  ghost function Elements(keys: seq<Key>): set<Key> {
    set k | k in keys
  }

  lemma Without<V>(m: map<Key, V>, gone: set<Key>, k: Key)
    ensures m - gone - {k} == m - (gone + {k})
  {
  }

  /** The host-only flags of these cookies. */
  ghost function Flags(keys: set<Key>): set<(string, string)> {
    set k | k in keys :: (k.domain, k.name)
  }

  // ---------------------------------------------------------------------
  // Setting.
  // ---------------------------------------------------------------------

  /** `_is_domain_match`. */
  predicate IsDomainMatch(isIp: string -> bool, domain: string, host: string) {
    host == domain || (DomainMatch(domain, host) && !isIp(host))
  }

  /** The directory of a response path, for a cookie that comes without a usable path. */
  function DefaultPath(urlPath: string): (p: string)
    ensures p != "" && p[0] == '/'
  {
    if urlPath == "" || urlPath[0] != '/' then "/"
    else
      var r := |Resources.BeforeLast(urlPath, '/')|;
      "/" + if r >= 1 then urlPath[1..r] else ""
  }

  /** A cookie as it is stored: domain and path filled in, useless dates blanked. */
  function Normalised(c: Cookie, hostname: Option<string>, urlPath: string): Cookie {
    var d0 := if c.domain != "" && c.domain[|c.domain| - 1] == '.' then "" else c.domain;
    var d1 := if d0 == "" && hostname.Some? then hostname.value else d0;
    var d2 := if d1 != "" && d1[0] == '.' then d1[1..] else d1;
    c.(domain := d2,
       path := if c.path == "" || c.path[0] != '/' then DefaultPath(urlPath) else c.path,
       maxAge := if c.maxAge.BadAge? then NoAge else c.maxAge,
       expires := if c.maxAge.NoAge? && (c.expires.BadDate? || c.expires == Date(0)) then NoDate else c.expires)
  }

  /** A cookie without a usable domain of its own is for the host that set it alone. */
  function NewFlag(name: string, c: Cookie, hostname: Option<string>): set<(string, string)> {
    if hostname.Some? && (c.domain == "" || c.domain[|c.domain| - 1] == '.') then {(hostname.value, name)} else {}
  }

  /** When a cookie is to expire: its max-age if it has one that is a number, else its date. */
  function Expiry(c: Cookie, now: int, maxTime: int): Option<int> {
    if c.maxAge.Seconds? then Some(if now + c.maxAge.n <= maxTime then now + c.maxAge.n else maxTime)
    else if c.maxAge.NoAge? && c.expires.Date? && c.expires.when != 0 then Some(c.expires.when)
    else None
  }

  function KeyOf(name: string, stored: Cookie): Key {
    Key(stored.domain, Resources.RStripSlash(stored.path), name)
  }

  /** The origin of cookies: the host that set them, the path of its response, and which hosts are IP addresses. */
  datatype Origin = Origin(hostname: Option<string>, urlPath: string, isIp: string -> bool)

  /** A host may not set cookies for others. */
  predicate Refused(stored: Cookie, o: Origin) {
    o.hostname.Some? && o.hostname.value != "" && !IsDomainMatch(o.isIp, stored.domain, o.hostname.value)
  }

  /** The stored cookies once this one has been set. */
  function SetOne(cookies: map<Key, Cookie>, name: string, c: Cookie, o: Origin): map<Key, Cookie> {
    var stored := Normalised(c, o.hostname, o.urlPath);
    if Refused(stored, o) then cookies else cookies[KeyOf(name, stored) := stored]
  }

  /** The recorded expirations once this cookie has been set; one without a date leaves an earlier date in force. */
  function ScheduleOne(expirations: map<Key, int>, name: string, c: Cookie, o: Origin,
                       now: int, maxTime: int): map<Key, int>
  {
    var stored, when := Normalised(c, o.hostname, o.urlPath), Expiry(c, now, maxTime);
    if Refused(stored, o) || when.None? then expirations else expirations[KeyOf(name, stored) := when.value]
  }

  // The same for a list of cookies, in order.

  function SetAll(cookies: map<Key, Cookie>, all: seq<(string, Cookie)>, o: Origin): map<Key, Cookie> {
    if all == [] then cookies
    else SetOne(SetAll(cookies, all[..|all| - 1], o), all[|all| - 1].0, all[|all| - 1].1, o)
  }

  function ScheduleAll(expirations: map<Key, int>, all: seq<(string, Cookie)>, o: Origin,
                       now: int, maxTime: int): map<Key, int>
  {
    if all == [] then expirations
    else ScheduleOne(ScheduleAll(expirations, all[..|all| - 1], o, now, maxTime),
                     all[|all| - 1].0, all[|all| - 1].1, o, now, maxTime)
  }

  /** The host-only flags once all these have been set. */
  function FlagAll(flags: set<(string, string)>, all: seq<(string, Cookie)>, o: Origin): set<(string, string)> {
    if all == [] then flags
    else FlagAll(flags, all[..|all| - 1], o) + NewFlag(all[|all| - 1].0, all[|all| - 1].1, o.hostname)
  }

  lemma Prefixes(all: seq<(string, Cookie)>, i: nat)
    requires i < |all|
    ensures all[..i + 1][..i] == all[..i] && all[..i + 1][i] == all[i]
  {
  }

  // ---------------------------------------------------------------------
  // What setting means.
  // ---------------------------------------------------------------------

  /** The path begins with a slash and is everything before the last one, but never empty. */
  predicate IsDirectory(path: string, urlPath: string) {
    if "/" <= urlPath && '/' in urlPath[1..] then
      path != "" && path + "/" <= urlPath && '/' !in urlPath[|path| + 1..]
    else path == "/"
  }

  /**
    What is stored for a cookie: the domain it names, or the host if it names none or
    one that ends in a dot, without one dot in front; its path if that begins with a
    slash, else the directory of the response; no age that is no number, no date that
    is none, which is looked at only without an age.
   */
  predicate StoredAs(c: Cookie, o: Origin, s: Cookie) {
    && (var named := if c.domain != "" && c.domain[|c.domain| - 1] != '.' then c.domain
                     else if o.hostname.Some? then o.hostname.value else "";
        if "." <= named then named == "." + s.domain else named == s.domain)
    && (if "/" <= c.path then s.path == c.path else IsDirectory(s.path, o.urlPath))
    && s.value == c.value && s.coded == c.coded && s.secure == c.secure
    && s.maxAge == (if c.maxAge == BadAge then NoAge else c.maxAge)
    && s.expires == (if c.maxAge == NoAge && c.expires in [BadDate, Date(0)] then NoDate else c.expires)
  }

  /** A path with a slash behind its first one. */
  lemma DirectoryIs(urlPath: string, path: string, r: nat)
    requires "/" <= urlPath && 1 <= r < |urlPath| && urlPath[r] == '/' && '/' !in urlPath[r + 1..]
    ensures path == urlPath[..r] <==> path != "" && path + "/" <= urlPath && '/' !in urlPath[|path| + 1..]
  {
    assert urlPath[..r] + "/" == urlPath[..r + 1];
    if path != "" && path + "/" <= urlPath && '/' !in urlPath[|path| + 1..] {
      assert urlPath[|path|] == (path + "/")[|path|];
      LastAt(urlPath, '/', |path|);
      LastAt(urlPath, '/', r);
      assert path == (path + "/")[..|path|] == urlPath[..|path|];
    }
  }

  lemma DefaultPathIs(urlPath: string, path: string)
    ensures path == DefaultPath(urlPath) <==> IsDirectory(path, urlPath)
  {
    assert "/" <= urlPath <==> urlPath != "" && urlPath[0] == '/';
    if "/" <= urlPath && '/' in urlPath[1..] {
      LastSlashIsLater(urlPath);
      var r := |Resources.BeforeLast(urlPath, '/')|;
      assert DefaultPath(urlPath) == "/" + urlPath[1..r] == urlPath[..r];
      DirectoryIs(urlPath, path, r);
    } else if "/" <= urlPath {
      LastAt(urlPath, '/', 0);
      assert urlPath[..0] == "";
    }
  }

  lemma LastSlashIsLater(s: string)
    requires "/" <= s && '/' in s[1..]
    ensures var r := |Resources.BeforeLast(s, '/')|; 1 <= r < |s| && s[r] == '/' && '/' !in s[r + 1..]
  {
    assert s[0] == '/';
    var k :| 0 <= k < |s[1..]| && s[1..][k] == '/';
    assert s[k + 1] == '/';
    var r := |Resources.BeforeLast(s, '/')|;
    assert forall m :: r < m < |s| ==> s[m] == s[r + 1..][m - r - 1];
  }

  lemma DotIsDropped(named: string, d: string)
    ensures (if "." <= named then named == "." + d else named == d)
            <==> d == if named != "" && named[0] == '.' then named[1..] else named
  {
    if "." <= named {
      assert named[0] == '.' && named == "." + named[1..];
      assert ("." + d)[1..] == d;
    }
  }

  /** There is exactly one way to store a cookie. */
  lemma NormalisedIs(c: Cookie, o: Origin, s: Cookie)
    ensures s == Normalised(c, o.hostname, o.urlPath) <==> StoredAs(c, o, s)
  {
    var stored := Normalised(c, o.hostname, o.urlPath);
    DefaultPathIs(o.urlPath, s.path);
    var named := if c.domain != "" && c.domain[|c.domain| - 1] != '.' then c.domain
                 else if o.hostname.Some? then o.hostname.value else "";
    DotIsDropped(named, s.domain);
    assert "/" <= c.path <==> c.path != "" && c.path[0] == '/';
    assert stored.domain == if named != "" && named[0] == '.' then named[1..] else named;
  }

  /**
    The cookie is filed as `s` under this key: it is stored so, its path stripped of the
    slashes at the end, and its domain is the host that set it or, unless that is an IP
    address, domain-matches it (section 5.1.3 of RFC 6265). An unknown host sets anything.
   */
  predicate FiledAs(entry: (string, Cookie), o: Origin, k: Key, s: Cookie) {
    && StoredAs(entry.1, o, s) && k == Key(s.domain, Resources.RStripSlash(s.path), entry.0)
    && (o.hostname.Some? && o.hostname.value != "" ==>
          s.domain == o.hostname.value || (DomainMatch(s.domain, o.hostname.value) && !o.isIp(o.hostname.value)))
  }

  ghost predicate FiledUnder(entry: (string, Cookie), o: Origin, k: Key) {
    exists s :: FiledAs(entry, o, k, s)
  }

  lemma FiledIs(entry: (string, Cookie), o: Origin, k: Key)
    ensures var stored := Normalised(entry.1, o.hostname, o.urlPath);
            && (FiledUnder(entry, o, k) <==> !Refused(stored, o) && k == KeyOf(entry.0, stored))
            && (forall s :: FiledAs(entry, o, k, s) ==> s == stored)
  {
    var stored := Normalised(entry.1, o.hostname, o.urlPath);
    NormalisedIs(entry.1, o, stored);
    forall s | FiledAs(entry, o, k, s)
      ensures s == stored
    {
      NormalisedIs(entry.1, o, s);
    }
    assert !Refused(stored, o) && k == KeyOf(entry.0, stored) ==> FiledAs(entry, o, k, stored);
  }

  /** When the cookie is to go: after its age, at its date only without an age. */
  predicate GoesAt(c: Cookie, now: int, maxTime: int, when: int) {
    match c.maxAge
    case Seconds(n) => when <= maxTime && when <= now + n && (when == maxTime || when == now + n)
    case NoAge => c.expires == Date(when) && when != 0
    case BadAge => false
  }

  ghost predicate DatedUnder(entry: (string, Cookie), o: Origin, now: int, maxTime: int, k: Key) {
    FiledUnder(entry, o, k) && exists when :: GoesAt(entry.1, now, maxTime, when)
  }

  lemma ExpiryIs(c: Cookie, now: int, maxTime: int)
    ensures forall when :: GoesAt(c, now, maxTime, when) <==> Expiry(c, now, maxTime) == Some(when)
  {
  }

  lemma DatedIs(entry: (string, Cookie), o: Origin, now: int, maxTime: int, k: Key)
    ensures DatedUnder(entry, o, now, maxTime, k)
            <==> !Refused(Normalised(entry.1, o.hostname, o.urlPath), o)
                 && k == KeyOf(entry.0, Normalised(entry.1, o.hostname, o.urlPath)) && Expiry(entry.1, now, maxTime).Some?
    ensures forall when :: GoesAt(entry.1, now, maxTime, when) <==> Expiry(entry.1, now, maxTime) == Some(when)
  {
    FiledIs(entry, o, k);
    ExpiryIs(entry.1, now, maxTime);
    var when := Expiry(entry.1, now, maxTime);
    if when.Some? {
      assert GoesAt(entry.1, now, maxTime, when.value);
    }
  }

  /** What is stored under a key is the last cookie that was filed there (at `last`), else what was there before. */
  lemma {:induction false} LastCookieStays(cookies: map<Key, Cookie>, all: seq<(string, Cookie)>, o: Origin,
                                           k: Key, last: int)
    requires -1 <= last < |all| && (0 <= last ==> FiledUnder(all[last], o, k))
    requires forall j :: last < j < |all| ==> !FiledUnder(all[j], o, k)
    ensures var after := SetAll(cookies, all, o);
            if 0 <= last then k in after && FiledAs(all[last], o, k, after[k])
            else (k in after <==> k in cookies) && (k in after ==> after[k] == cookies[k])
  {
    if all != [] {
      FiledIs(all[|all| - 1], o, k);
      if last < |all| - 1 {
        LastCookieStays(cookies, all[..|all| - 1], o, k, last);
      }
    }
  }

  /**
    The expiry of a key is that of the last cookie filed there that gave one: a
    cookie set again without a date keeps the earlier expiry.
   */
  lemma {:induction false} LastDateStays(expirations: map<Key, int>, all: seq<(string, Cookie)>, o: Origin,
                                         now: int, maxTime: int, k: Key, last: int)
    requires -1 <= last < |all| && (0 <= last ==> DatedUnder(all[last], o, now, maxTime, k))
    requires forall j :: last < j < |all| ==> !DatedUnder(all[j], o, now, maxTime, k)
    ensures var after := ScheduleAll(expirations, all, o, now, maxTime);
            if 0 <= last then k in after && GoesAt(all[last].1, now, maxTime, after[k])
            else (k in after <==> k in expirations) && (k in after ==> after[k] == expirations[k])
  {
    if all != [] {
      DatedIs(all[|all| - 1], o, now, maxTime, k);
      if last < |all| - 1 {
        LastDateStays(expirations, all[..|all| - 1], o, now, maxTime, k, last);
      }
    }
  }

  /** A cookie with an age of n seconds is due exactly from then on, or from the end of time. */
  lemma AgeIsKept(expirations: map<Key, int>, all: seq<(string, Cookie)>, o: Origin,
                  now: int, maxTime: int, k: Key, last: nat, t: int)
    requires last < |all| && FiledUnder(all[last], o, k) && all[last].1.maxAge.Seconds?
    requires forall j :: last < j < |all| ==> !DatedUnder(all[j], o, now, maxTime, k)
    ensures k in Due(ScheduleAll(expirations, all, o, now, maxTime), t)
            <==> now + all[last].1.maxAge.n <= t || maxTime <= t
  {
    ExpiryIs(all[last].1, now, maxTime);
    assert GoesAt(all[last].1, now, maxTime, Expiry(all[last].1, now, maxTime).value);
    LastDateStays(expirations, all, o, now, maxTime, k, last);
  }

  /** Nothing is stored but what was there and what was filed. */
  lemma {:induction false} ChangedIsFiled(cookies: map<Key, Cookie>, all: seq<(string, Cookie)>, o: Origin, k: Key)
    requires var after := SetAll(cookies, all, o); k in after && !(k in cookies && cookies[k] == after[k])
    ensures exists i :: 0 <= i < |all| && FiledAs(all[i], o, k, SetAll(cookies, all, o)[k])
  {
    if all != [] {
      var n := |all| - 1;
      FiledIs(all[n], o, k);
      if !FiledUnder(all[n], o, k) {
        ChangedIsFiled(cookies, all[..n], o, k);
        var i :| 0 <= i < n && FiledAs(all[..n][i], o, k, SetAll(cookies, all[..n], o)[k]);
        assert FiledAs(all[i], o, k, SetAll(cookies, all, o)[k]);
      } else {
        assert FiledAs(all[n], o, k, SetAll(cookies, all, o)[k]);
      }
    }
  }

  lemma ChangesAreAllowed(before: map<Key, Cookie>, after: map<Key, Cookie>, all: seq<(string, Cookie)>,
                          o: Origin)
    requires forall k :: k in after ==> k in SetAll(before, all, o) && after[k] == SetAll(before, all, o)[k]
    ensures o.hostname.Some? && o.hostname.value != "" ==>
              forall k :: k in after && (k in before ==> before[k] != after[k]) ==>
                k.domain == o.hostname.value || (DomainMatch(k.domain, o.hostname.value) && !o.isIp(o.hostname.value))
  {
    forall k | k in after && (k in before ==> before[k] != after[k])
      ensures exists i :: 0 <= i < |all| && FiledAs(all[i], o, k, after[k])
    {
      ChangedIsFiled(before, all, o, k);
    }
  }

  lemma FilingsAreKept(before: map<Key, Cookie>, after: map<Key, Cookie>, all: seq<(string, Cookie)>, o: Origin,
                       due: set<Key>)
    requires after == SetAll(before, all, o) - due
    ensures forall i, k, c ::
              0 <= i < |all| && FiledAs(all[i], o, k, c) && (forall j :: i < j < |all| ==> !FiledUnder(all[j], o, k))
              ==> if k in after then after[k] == c else k in due
  {
    forall i, k, c | 0 <= i < |all| && FiledAs(all[i], o, k, c)
                     && (forall j :: i < j < |all| ==> !FiledUnder(all[j], o, k))
      ensures if k in after then after[k] == c else k in due
    {
      LastCookieStays(before, all, o, k, i);
      FiledIs(all[i], o, k);
    }
  }

  /** A name is marked for the host alone by a cookie that names no domain, or one that ends in a dot. */
  lemma {:induction false} FlagsAre(flags: set<(string, string)>, all: seq<(string, Cookie)>, o: Origin,
                                    flag: (string, string))
    ensures flag in FlagAll(flags, all, o) <==>
              || flag in flags
              || (o.hostname == Some(flag.0)
                  && exists i :: (0 <= i < |all| && all[i].0 == flag.1
                                  && (all[i].1.domain == "" || all[i].1.domain[|all[i].1.domain| - 1] == '.')))
    decreases |all|
  {
    if all != [] {
      FlagsAre(flags, all[..|all| - 1], o, flag);
    }
  }

  // ---------------------------------------------------------------------
  // Sending.
  // ---------------------------------------------------------------------

  /** What decides, besides domain and path, whether a cookie may go out. */
  datatype Request = Request(host: string, pathLen: nat, notSecure: bool)

  predicate Passes(c: Cookie, name: string, hostOnly: set<(string, string)>, r: Request) {
    && !((c.domain, name) in hostOnly && c.domain != r.host)
    && |c.path| <= r.pathLen
    && !(r.notSecure && c.secure)
  }

  /**
    A host-only cookie that stays when the cookies `gone` are deleted goes out to
    another host, whose path and scheme it fits, exactly if one of them had its domain
    and its name: the flag they share goes with the first of them.
   */
  lemma HostOnlyIsLostIff(c: Cookie, k: Key, hostOnly: set<(string, string)>, gone: set<Key>, r: Request)
    requires c.domain == k.domain && (k.domain, k.name) in hostOnly && r.host != k.domain
    requires |c.path| <= r.pathLen && !(r.notSecure && c.secure)
    ensures Passes(c, k.name, hostOnly - Flags(gone), r)
            <==> exists g :: g in gone && g.domain == k.domain && g.name == k.name
  {
    if g :| g in gone && g.domain == k.domain && g.name == k.name {
      assert (g.domain, g.name) in Flags(gone);
    }
  }

  /** Shorter domain first, then shorter path. */
  predicate AtMost(a: Key, domain: string, path: string) {
    |a.domain| < |domain| || (|a.domain| == |domain| && |a.path| <= |path|)
  }

  ghost predicate Growing(s: seq<string>) {
    forall i, j :: 0 <= i < j < |s| ==> |s[i]| < |s[j]|
  }

  lemma LookupsGrow(host: string, path: string)
    ensures Growing(Domains(host)) && Growing(Paths(path))
  {
    forall i, j | 0 <= i < j < |Domains(host)|
      ensures |Domains(host)[i]| < |Domains(host)[j]|
    {
      DomainsGrow(host, i, j);
    }
    forall i, j | 0 <= i < j < |Paths(path)|
      ensures |Paths(path)[i]| < |Paths(path)[j]|
    {
      PathsGrow(path, i, j);
    }
  }

  /**
    The answer for the cookies in `done`: by name, the one with the longest domain
    and then the longest path, which is `src`; shared cookies where there is none.
   */
  ghost predicate Tracks(cookies: map<Key, Cookie>, filtered: map<string, Sent>, src: map<string, Key>, done: set<Key>) {
    && (forall n :: n in src ==>
          && src[n] in done && src[n] in cookies && src[n].name == n
          && n in filtered && filtered[n] == Built(n, cookies[src[n]].value, cookies[src[n]].coded))
    && (forall k :: k in done ==> k.name in src && AtMost(k, src[k.name].domain, src[k.name].path))
    && (forall n :: n in filtered && n !in src ==>
          Key("", "", n) in cookies && filtered[n] == Shared(cookies[Key("", "", n)].value))
    && (forall n :: Key("", "", n) in cookies ==> n in filtered)
  }

  class CookieJar {
    const unsafe: bool
    const isIp: string -> bool
    const maxTime: int
    var cookies: map<Key, Cookie>
    var morselCache: map<Key, Sent>
    var hostOnlyCookies: set<(string, string)>
    var expireHeap: multiset<Entry>
    var expirations: map<Key, int>

    /** Every recorded expiry keeps an entry in the heap, stale and double entries beside it. */
    ghost predicate HeapOk()
      reads this
    {
      forall k :: k in expirations ==> Entry(expirations[k], k) in expireHeap
    }

    /** A cached morsel is the one that would be built from the cookie now. */
    ghost predicate CacheOk()
      reads this
    {
      forall k :: k in morselCache ==> k in cookies && morselCache[k] == MorselOf(k.name, cookies[k])
    }

    /** Cookies are filed under their domain and their path without trailing slashes. */
    ghost predicate FiledOk()
      reads this
    {
      forall k :: k in cookies ==>
        && cookies[k].domain == k.domain && Resources.RStripSlash(cookies[k].path) == k.path
        && cookies[k].path != "" && cookies[k].path[0] == '/'
    }

    ghost predicate Valid()
      reads this
    {
      HeapOk() && CacheOk() && FiledOk()
    }

    constructor (unsafe: bool, isIp: string -> bool, maxTime: int)
      ensures Valid() && cookies == map[] && expirations == map[]
    {
      this.unsafe, this.isIp, this.maxTime := unsafe, isIp, maxTime;
      cookies, morselCache, hostOnlyCookies, expireHeap, expirations := map[], map[], {}, multiset{}, map[];
    }

    /** `_delete_cookies`. A host-only flag belongs to a domain and a name, whatever the path. */
    method DeleteCookies(toDel: seq<Key>)
      requires CacheOk() && FiledOk()
      requires forall k :: k in expirations && k !in toDel ==> Entry(expirations[k], k) in expireHeap
      modifies this`cookies, this`morselCache, this`hostOnlyCookies, this`expirations
      ensures Valid()
      ensures var gone := Elements(toDel);
              && cookies == old(cookies) - gone
              && morselCache == old(morselCache) - gone
              && expirations == old(expirations) - gone
              && hostOnlyCookies == old(hostOnlyCookies) - Flags(gone)
    {
      for i := 0 to |toDel|
        invariant var gone := Elements(toDel[..i]);
                  && cookies == old(cookies) - gone
                  && morselCache == old(morselCache) - gone
                  && expirations == old(expirations) - gone
                  && hostOnlyCookies == old(hostOnlyCookies) - Flags(gone)
      {
        var key := toDel[i];
        Without(old(cookies), Elements(toDel[..i]), key);
        Without(old(morselCache), Elements(toDel[..i]), key);
        Without(old(expirations), Elements(toDel[..i]), key);
        hostOnlyCookies := hostOnlyCookies - {(key.domain, key.name)};
        cookies := cookies - {key};
        morselCache := morselCache - {key};
        expirations := expirations - {key};
        OneMoreGone(toDel, i);
      }
      assert toDel[..|toDel|] == toDel;
    }

    lemma OneMoreGone(toDel: seq<Key>, i: nat)
      requires i < |toDel|
      ensures Elements(toDel[..i + 1]) == Elements(toDel[..i]) + {toDel[i]}
      ensures Flags(Elements(toDel[..i + 1]))
           == Flags(Elements(toDel[..i])) + {(toDel[i].domain, toDel[i].name)}
    {
      assert toDel[..i + 1] == toDel[..i] + [toDel[i]];
    }

    /** `_expire_cookie`. */
    method ExpireCookie(when: int, key: Key)
      requires HeapOk()
      modifies this`expireHeap, this`expirations
      ensures HeapOk() && expirations == old(expirations)[key := when]
    {
      if key in expirations && expirations[key] == when {
        return;
      }
      expireHeap := expireHeap + multiset{Entry(when, key)};
      expirations := expirations[key := when];
    }

    /** The compaction: only entries that are current stay in the heap. */
    method Compact()
      requires HeapOk()
      modifies this`expireHeap
      ensures HeapOk() && forall e :: expireHeap[e] == if IsCurrent(e, expirations) then old(expireHeap[e]) else 0
    {
      var kept, left := multiset{}, expireHeap;
      while left != multiset{}
        invariant forall e :: kept[e] + (if IsCurrent(e, expirations) then left[e] else 0)
                           == if IsCurrent(e, expirations) then old(expireHeap[e]) else 0
        decreases |left|
      {
        var e :| e in left;
        left := left - multiset{e};
        if IsCurrent(e, expirations) {
          kept := kept + multiset{e};
        }
      }
      expireHeap := kept;
    }

    /** `_do_expiration`: exactly the cookies whose recorded expiry has come are removed. */
    method DoExpiration(now: int)
      requires Valid()
      modifies this`cookies, this`morselCache, this`hostOnlyCookies, this`expirations, this`expireHeap
      ensures Valid()
      ensures var due := Due(old(expirations), now);
              && cookies == old(cookies) - due
              && morselCache == old(morselCache) - due
              && expirations == old(expirations) - due
              && hostOnlyCookies == old(hostOnlyCookies) - Flags(due)
    {
      if |expireHeap| > MIN_SCHEDULED_COOKIE_EXPIRATION && |expireHeap| > |expirations| * 2 {
        Compact();
      }
      var toDel := PopDue(now);
      assert Elements(toDel) == Due(expirations, now);
      if toDel != [] {
        DeleteCookies(toDel);
      }
    }

    /** Pops every entry that is due and collects the keys of the current ones. */
    method PopDue(now: int) returns (toDel: seq<Key>)
      requires HeapOk()
      modifies this`expireHeap
      ensures forall k :: k in toDel <==> k in Due(expirations, now)
      ensures forall k :: k in expirations && k !in toDel ==> Entry(expirations[k], k) in expireHeap
    {
      toDel := [];
      while expireHeap != multiset{}
        invariant forall k :: k in toDel ==> k in Due(expirations, now)
        invariant forall k :: k in expirations && k !in toDel ==> Entry(expirations[k], k) in expireHeap
        decreases |expireHeap|
      {
        SmallestExists(expireHeap);
        var e :| IsSmallest(e, expireHeap);
        if e.when > now {
          break;
        }
        expireHeap := expireHeap - multiset{e};
        if IsCurrent(e, expirations) {
          toDel := toDel + [e.key];
        }
      }
    }

    /** `clear` without a predicate. */
    method Clear()
      modifies this
      ensures Valid() && cookies == map[] && morselCache == map[] && hostOnlyCookies == {}
      ensures expirations == map[] && expireHeap == multiset{}
    {
      expireHeap, cookies, morselCache, hostOnlyCookies, expirations := multiset{}, map[], map[], {}, map[];
    }

    /** The keys that `clear` with a predicate removes: what is due, and what the predicate picks. */
    ghost function Picked(pick: Cookie -> bool, now: int): set<Key>
      reads this
    {
      set k | k in cookies && (k in Due(expirations, now) || pick(cookies[k]))
    }

    method Pick(pick: Cookie -> bool, now: int) returns (toDel: seq<Key>)
      ensures Elements(toDel) == Picked(pick, now)
    {
      var left := cookies.Keys;
      toDel := [];
      while left != {}
        invariant left <= cookies.Keys
        invariant forall k :: k in Elements(toDel) <==> k in Picked(pick, now) && k !in left
        decreases |left|
      {
        var k :| k in left;
        left := left - {k};
        if (k in expirations && expirations[k] <= now) || pick(cookies[k]) {
          toDel := toDel + [k];
        }
      }
    }

    /** `clear` with a predicate. The heap keeps its entries. */
    method ClearPicked(pick: Cookie -> bool, now: int)
      requires Valid()
      modifies this`cookies, this`morselCache, this`hostOnlyCookies, this`expirations
      ensures Valid()
      ensures var gone := old(Picked(pick, now));
              && cookies == old(cookies) - gone
              && morselCache == old(morselCache) - gone
              && expirations == old(expirations) - gone
              && hostOnlyCookies == old(hostOnlyCookies) - Flags(gone)
    {
      var toDel := Pick(pick, now);
      if toDel != [] {
        DeleteCookies(toDel);
      }
    }

    /** The domain a cookie is filed under; a cookie without one belongs to the host alone. */
    method SettleDomain(name: string, cookie: Cookie, hostname: Option<string>, ghost urlPath: string)
      returns (domain: string)
      modifies this`hostOnlyCookies
      ensures domain == Normalised(cookie, hostname, urlPath).domain
      ensures hostOnlyCookies == old(hostOnlyCookies) + NewFlag(name, cookie, hostname)
    {
      domain := cookie.domain;
      if domain != "" && domain[|domain| - 1] == '.' {
        domain := "";
      }
      if domain == "" && hostname.Some? {
        hostOnlyCookies := hostOnlyCookies + {(hostname.value, name)};
        domain := hostname.value;
      }
      if domain != "" && domain[0] == '.' {
        domain := domain[1..];
      }
    }

    /** Schedules the expiry, or blanks a date that cannot be used. */
    method SettleExpiry(cookie: Cookie, key: Key, now: int) returns (stored: Cookie)
      requires HeapOk()
      modifies this`expireHeap, this`expirations
      ensures HeapOk()
      ensures expirations == match Expiry(cookie, now, maxTime)
                             case Some(when) => old(expirations)[key := when]
                             case None => old(expirations)
      ensures stored == cookie.(maxAge := Normalised(cookie, None, "").maxAge,
                                expires := Normalised(cookie, None, "").expires)
    {
      stored := cookie;
      if !cookie.maxAge.NoAge? {
        if cookie.maxAge.Seconds? {
          ExpireCookie(if now + cookie.maxAge.n <= maxTime then now + cookie.maxAge.n else maxTime, key);
        } else {
          stored := stored.(maxAge := NoAge);
        }
      } else if !cookie.expires.NoDate? {
        if cookie.expires.Date? && cookie.expires.when != 0 {
          ExpireCookie(cookie.expires.when, key);
        } else {
          stored := stored.(expires := NoDate);
        }
      }
    }

    /** The cache is left alone when the same cookie is set again. */
    method Store(key: Key, stored: Cookie)
      requires CacheOk() && FiledOk()
      requires stored.domain == key.domain && Resources.RStripSlash(stored.path) == key.path
      requires stored.path != "" && stored.path[0] == '/'
      modifies this`cookies, this`morselCache
      ensures CacheOk() && FiledOk() && cookies == old(cookies)[key := stored]
      ensures morselCache == if old(key in cookies && cookies[key] == stored) then old(morselCache)
                             else old(morselCache) - {key}
    {
      if key !in cookies || cookies[key] != stored {
        cookies := cookies[key := stored];
        morselCache := morselCache - {key};
      }
    }

    /** One cookie of `update_cookies`. */
    method UpdateOne(name: string, cookie: Cookie, hostname: Option<string>, urlPath: string, now: int)
      requires Valid()
      modifies this
      ensures Valid()
      ensures var o := Origin(hostname, urlPath, isIp);
              && cookies == SetOne(old(cookies), name, cookie, o)
              && expirations == ScheduleOne(old(expirations), name, cookie, o, now, maxTime)
              && hostOnlyCookies == old(hostOnlyCookies) + NewFlag(name, cookie, hostname)
    {
      var domain := SettleDomain(name, cookie, hostname, urlPath);
      if hostname.Some? && hostname.value != "" && !IsDomainMatch(isIp, domain, hostname.value) {
        return;
      }
      var path := cookie.path;
      if path == "" || path[0] != '/' {
        path := DefaultPath(urlPath);
      }
      var key := Key(domain, Resources.RStripSlash(path), name);
      var stored := SettleExpiry(cookie, key, now);
      Store(key, stored.(domain := domain, path := path));
    }

    /**
      `update_cookies`: the cookies are set in order, those of IP addresses are
      refused, and what has expired by then is removed at the end.
     */
    method UpdateCookies(all: seq<(string, Cookie)>, hostname: Option<string>, urlPath: string, now: int)
      requires Valid()
      modifies this
      ensures Valid()
      ensures var o := Origin(hostname, urlPath, isIp);
              if !unsafe && hostname.Some? && isIp(hostname.value) then unchanged(this)
              else
                var scheduled := ScheduleAll(old(expirations), all, o, now, maxTime);
                && cookies == SetAll(old(cookies), all, o) - Due(scheduled, now)
                && expirations == scheduled - Due(scheduled, now)
                && hostOnlyCookies == FlagAll(old(hostOnlyCookies), all, o) - Flags(Due(scheduled, now))
      // whatever is new or has changed belongs to the host that set it
      ensures hostname.Some? && hostname.value != "" ==>
                forall k :: k in cookies && (k in old(cookies) ==> old(cookies)[k] != cookies[k]) ==>
                  k.domain == hostname.value || (DomainMatch(k.domain, hostname.value) && !isIp(hostname.value))
      // and what the host may set is stored, unless a later cookie takes its key or it has expired by now
      ensures var o := Origin(hostname, urlPath, isIp);
              unsafe || hostname.None? || !isIp(hostname.value) ==>
                forall i, k, c ::
                  0 <= i < |all| && FiledAs(all[i], o, k, c)
                  && (forall j :: i < j < |all| ==> !FiledUnder(all[j], o, k))
                  ==> if k in cookies then cookies[k] == c
                      else k in Due(ScheduleAll(old(expirations), all, o, now, maxTime), now)
    {
      if !unsafe && hostname.Some? && isIp(hostname.value) {
        return;
      }
      ghost var o := Origin(hostname, urlPath, isIp);
      for i := 0 to |all|
        invariant Valid() && cookies == SetAll(old(cookies), all[..i], o)
        invariant expirations == ScheduleAll(old(expirations), all[..i], o, now, maxTime)
        invariant hostOnlyCookies == FlagAll(old(hostOnlyCookies), all[..i], o)
      {
        Prefixes(all, i);
        UpdateOne(all[i].0, all[i].1, hostname, urlPath, now);
      }
      assert all[..|all|] == all;
      DoExpiration(now);
      ChangesAreAllowed(old(cookies), cookies, all, o);
      FilingsAreKept(old(cookies), cookies, all, o, Due(ScheduleAll(old(expirations), all, o, now, maxTime), now));
    }

    /** The cookies filed under a domain and a path that may go out. */
    ghost function At(domain: string, path: string, r: Request): set<Key>
      reads this
    {
      set k | k in cookies && k.domain == domain && k.path == path && Passes(cookies[k], k.name, hostOnlyCookies, r)
    }

    /** The cookies of the first `i` domains, and those of domain `i` under the first `j` paths. */
    ghost function Covered(domains: seq<string>, paths: seq<string>, i: nat, j: nat, r: Request): set<Key>
      reads this
      requires i <= |domains| && j <= |paths|
    {
      set k | k in cookies && Passes(cookies[k], k.name, hostOnlyCookies, r)
              && ((k.domain in domains[..i] && k.path in paths)
                  || (i < |domains| && k.domain == domains[i] && k.path in paths[..j]))
    }

    lemma CoverPath(domains: seq<string>, paths: seq<string>, i: nat, j: nat, r: Request)
      requires i < |domains| && j < |paths|
      ensures Covered(domains, paths, i, j + 1, r) == Covered(domains, paths, i, j, r) + At(domains[i], paths[j], r)
    {
      assert paths[..j + 1] == paths[..j] + [paths[j]];
    }

    lemma CoverDomain(domains: seq<string>, paths: seq<string>, i: nat, r: Request)
      requires i < |domains|
      ensures Covered(domains, paths, i + 1, 0, r) == Covered(domains, paths, i, |paths|, r)
    {
      assert domains[..i + 1] == domains[..i] + [domains[i]];
      assert paths[..|paths|] == paths;
    }

    lemma CoveredIsShorter(domains: seq<string>, paths: seq<string>, i: nat, j: nat, r: Request, k: Key)
      requires Growing(domains) && Growing(paths) && i < |domains| && j < |paths|
      requires k in Covered(domains, paths, i, j, r)
      ensures AtMost(k, domains[i], paths[j])
    {
      if k.domain in domains[..i] {
        var a :| 0 <= a < i && domains[..i][a] == k.domain;
        assert domains[a] == k.domain;
      } else {
        var b :| 0 <= b < j && paths[..j][b] == k.path;
        assert paths[b] == k.path;
      }
    }

    /** The cookie's morsel, from the cache if it has been built before. */
    method Build(k: Key) returns (m: Sent)
      requires k in cookies && CacheOk()
      modifies this`morselCache
      ensures CacheOk() && m == Built(k.name, cookies[k].value, cookies[k].coded)
    {
      if k in morselCache {
        return morselCache[k];
      }
      m := MorselOf(k.name, cookies[k]);
      morselCache := morselCache[k := m];
    }

    lemma TracksMore(filtered: map<string, Sent>, src: map<string, Key>, done: set<Key>, k: Key)
      requires Tracks(cookies, filtered, src, done) && k in cookies
      requires forall x :: x in done && x.name == k.name ==> AtMost(x, k.domain, k.path)
      ensures Tracks(cookies, filtered[k.name := MorselOf(k.name, cookies[k])], src[k.name := k], done + {k})
    {
    }

    /** One pair of the product of domains and paths. */
    method AddPair(domain: string, path: string, r: Request, filtered: map<string, Sent>,
                   ghost src: map<string, Key>, ghost done: set<Key>)
      returns (filtered': map<string, Sent>, ghost src': map<string, Key>)
      requires CacheOk() && Tracks(cookies, filtered, src, done)
      requires forall k :: k in done ==> AtMost(k, domain, path)
      modifies this`morselCache
      ensures CacheOk() && Tracks(cookies, filtered', src', done + At(domain, path, r))
    {
      var left := set k | k in cookies && k.domain == domain && k.path == path;
      filtered', src' := filtered, src;
      ghost var now := done;
      while left != {}
        invariant CacheOk() && Tracks(cookies, filtered', src', now)
        invariant forall k :: k in left ==> k in cookies && k.domain == domain && k.path == path
        invariant forall k :: k in At(domain, path, r) ==> k in left || k in now
        invariant forall k :: k in now ==> k in done || (k in At(domain, path, r) && k !in left)
        invariant done <= now
        decreases |left|
      {
        var k :| k in left;
        left := left - {k};
        var c := cookies[k];
        if (c.domain, k.name) in hostOnlyCookies && c.domain != r.host {
          continue;
        }
        if |c.path| > r.pathLen {
          continue;
        }
        if r.notSecure && c.secure {
          continue;
        }
        var m := Build(k);
        TracksMore(filtered', src', now, k);
        filtered', src', now := filtered'[k.name := m], src'[k.name := k], now + {k};
      }
      assert now == done + At(domain, path, r);
    }

    /** The loop over the product of domains and paths. */
    method Gather(domains: seq<string>, paths: seq<string>, r: Request, shared: map<string, Sent>)
      returns (filtered: map<string, Sent>, ghost src: map<string, Key>)
      requires CacheOk() && Growing(domains) && Growing(paths) && Tracks(cookies, shared, map[], {})
      modifies this`morselCache
      ensures CacheOk() && Tracks(cookies, filtered, src, Covered(domains, paths, |domains|, 0, r))
    {
      filtered, src := shared, map[];
      assert Covered(domains, paths, 0, 0, r) == {};
      for i := 0 to |domains|
        invariant CacheOk() && Tracks(cookies, filtered, src, Covered(domains, paths, i, 0, r))
      {
        for j := 0 to |paths|
          invariant CacheOk() && Tracks(cookies, filtered, src, Covered(domains, paths, i, j, r))
        {
          forall k | k in Covered(domains, paths, i, j, r)
            ensures AtMost(k, domains[i], paths[j])
          {
            CoveredIsShorter(domains, paths, i, j, r, k);
          }
          CoverPath(domains, paths, i, j, r);
          filtered, src := AddPair(domains[i], paths[j], r, filtered, src, Covered(domains, paths, i, j, r));
        }
        CoverDomain(domains, paths, i, r);
      }
    }

    /** The cookies without a domain, which go out with every request. */
    method SharedCookies() returns (shared: map<string, Sent>)
      ensures Tracks(cookies, shared, map[], {})
    {
      shared := map[];
      var left := set k | k in cookies && k.domain == "" && k.path == "";
      while left != {}
        invariant forall k :: k in left ==> k in cookies && k.domain == "" && k.path == ""
        invariant forall n :: n in shared ==>
                    Key("", "", n) in cookies && shared[n] == Shared(cookies[Key("", "", n)].value)
        invariant forall n :: Key("", "", n) in cookies ==> n in shared || Key("", "", n) in left
        decreases |left|
      {
        var k :| k in left;
        left := left - {k};
        shared := shared[k.name := Shared(cookies[k].value)];
      }
    }

    /** The domains that are looked up for a host. */
    function LookedUp(host: string): seq<string> {
      if isIp(host) then (if unsafe then [host] else []) else Domains(host)
    }

    /**
      For a host that does not end in a dot, the cookies reached by the lookups are those
      that domain-match, path-match and pass the two flags. An IP address matches itself
      alone, and not even that unless the jar is told to trust addresses.
     */
    lemma EligibleIsMatched(host: string, path: string, notSecure: bool, k: Key)
      requires Valid() && k in cookies && (isIp(host) || host == "" || host[|host| - 1] != '.')
      requires path != "" && path[0] == '/' && !EndsInTwoSlashes(cookies[k].path)
      ensures k in Covered(LookedUp(host), Paths(path), |LookedUp(host)|, 0, Request(host, |path|, notSecure)) <==>
                && (if isIp(host) then unsafe && k.domain == host else DomainMatch(k.domain, host))
                && PathMatch(cookies[k].path, path)
                && ((k.domain, k.name) in hostOnlyCookies ==> k.domain == host)
                && (notSecure ==> !cookies[k].secure)
    {
      EnumeratedOrMatched(host, k.domain);
      PathsAre(path, k.path);
      OneSlashIsExact(cookies[k].path, path);
      assert LookedUp(host)[..|LookedUp(host)|] == LookedUp(host);
    }

    /**
      `filter_cookies`: of the cookies that have not expired, by name, the eligible one
      with the longest domain and then the longest path.
     */
    method FilterCookies(host: string, path: string, notSecure: bool, now: int)
      returns (filtered: map<string, Sent>, ghost src: map<string, Key>)
      requires Valid()
      modifies this
      ensures Valid() && cookies == old(cookies) - Due(old(expirations), now)
      ensures if old(cookies) == map[] then expirations == old(expirations) && hostOnlyCookies == old(hostOnlyCookies)
              else expirations == old(expirations) - Due(old(expirations), now)
                   && hostOnlyCookies == old(hostOnlyCookies) - Flags(Due(old(expirations), now))
      ensures Tracks(cookies, filtered, src,
                     Covered(LookedUp(host), Paths(path), |LookedUp(host)|, 0, Request(host, |path|, notSecure)))
    {
      filtered, src := map[], map[];
      if cookies == map[] {
        return;
      }
      DoExpiration(now);
      if cookies == map[] {
        return;
      }
      filtered := SharedCookies();
      LookupsGrow(host, path);
      filtered, src := Gather(LookedUp(host), Paths(path), Request(host, |path|, notSecure), filtered);
    }
  }
}
