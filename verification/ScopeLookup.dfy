/**
 * Which scope of a signature policy, and which entry of a credentials file, applies to an image:
 * the loops that list candidates, and what "most specific" means without them.
 */
module ScopeLookup {
  import opened Results

  datatype Reference = Reference(registry: string, repository: string, whole: string)

  // ---------- splitting ----------

  function FirstIndex(s: string, c: char): (r: Option<nat>)
    ensures r.Some? ==> r.value < |s| && s[r.value] == c && forall k :: 0 <= k < r.value ==> s[k] != c
    ensures r.None? ==> forall k :: 0 <= k < |s| ==> s[k] != c
  {
    if s == "" then None
    else if s[0] == c then Some(0)
    else
      match FirstIndex(s[1..], c)
      case None =>
        assert forall k :: 1 <= k < |s| ==> s[k] == s[1..][k - 1];
        None
      case Some(i) =>
        assert forall k :: 1 <= k < i + 1 ==> s[k] == s[1..][k - 1];
        Some(i + 1)
  }

  function LastIndex(s: string, c: char): (r: Option<nat>)
    ensures r.Some? ==> r.value < |s| && s[r.value] == c && forall k :: r.value < k < |s| ==> s[k] != c
    ensures r.None? ==> forall k :: 0 <= k < |s| ==> s[k] != c
  {
    if s == "" then None
    else if s[|s| - 1] == c then Some(|s| - 1)
    else
      match LastIndex(s[..|s| - 1], c)
      case None =>
        assert forall k :: 0 <= k < |s| - 1 ==> s[k] == s[..|s| - 1][k];
        None
      case Some(i) =>
        assert forall k :: 0 <= k < |s| - 1 ==> s[k] == s[..|s| - 1][k];
        Some(i)
  }

  function FullName(image: Reference): string {
    if image.registry == "" then image.repository else image.registry + "/" + image.repository
  }

  // ---------- candidates, as the loops list them ----------

  /** The name, then what is left of it each time its last component is cut off. */
  function Ancestors(name: string): (r: seq<string>)
    ensures |r| > 0
    decreases |name|
  {
    match LastIndex(name, '/')
    case None => [name]
    case Some(i) => [name] + Ancestors(name[..i])
  }

  function HostOf(name: string): string {
    Ancestors(name)[|Ancestors(name)| - 1]
  }

  function StripPort(host: string): string {
    match LastIndex(host, ':')
    case None => host
    case Some(i) => host[..i]
  }

  function Wildcards(host: string): seq<string>
    decreases |host|
  {
    match FirstIndex(host, '.')
    case None => []
    case Some(i) => ["*." + host[i + 1..]] + Wildcards(host[i + 1..])
  }

  function Namespaces(name: string): seq<string> {
    Ancestors(name) + Wildcards(StripPort(HostOf(name)))
  }

  /** The candidates of an image: its paths from long to short, then its wildcards from long to short. */
  method GetImageNamespaces(image: Reference) returns (res: seq<string>)
    ensures res == Namespaces(FullName(image))
    ensures forall s :: s in res <==> IsPath(s, image) || IsDomain(s, image)
    ensures |res| > 0 && res[0] == (if image.registry == "" then image.repository else image.registry + "/" + image.repository)
    ensures exists n :: 0 <= n <= |res| && PathsThenDomains(res, n, image)
  {
    hide IsPath, IsDomain, PathsThenDomains, FullName;
    NamespacesDescribed(image);
    res := [];
    var name := FullName(image);
    var cut := true;
    while cut
      invariant cut ==> res + Ancestors(name) == Ancestors(FullName(image))
      invariant !cut ==> res == Ancestors(FullName(image)) && name == HostOf(name)
      invariant HostOf(name) == HostOf(FullName(image))
      decreases cut, |name|
    {
      HostStep(name);
      res := res + [name];
      match LastIndex(name, '/') {
        case None => cut := false;
        case Some(i) => name := name[..i];
      }
    }

    match LastIndex(name, ':') {
      case None =>
      case Some(i) => name := name[..i];
    }
    assert name == StripPort(HostOf(FullName(image)));

    var wildcards := WildcardDomains(name);
    res := res + wildcards;
  }

  /** The second loop: each step drops one leading label of the host. */
  method WildcardDomains(host: string) returns (res: seq<string>)
    ensures res == Wildcards(host)
  {
    res := [];
    var name := host;
    while true
      invariant res + Wildcards(name) == Wildcards(host)
      decreases |name|
    {
      match FirstIndex(name, '.') {
        case None =>
          assert res + [] == res;
          break;
        case Some(i) =>
          NextWildcard(res, name, i);
          name := name[i + 1..];
      }
      res := res + ["*." + name];
    }
  }

  lemma NextWildcard(res: seq<string>, host: string, i: nat)
    requires FirstIndex(host, '.') == Some(i)
    ensures res + Wildcards(host) == res + ["*." + host[i + 1..]] + Wildcards(host[i + 1..])
  {
  }

  lemma HostStep(name: string)
    ensures match LastIndex(name, '/')
            case None => HostOf(name) == name
            case Some(i) => HostOf(name) == HostOf(name[..i])
  {
  }

  /** The keys tried in a credentials file: the same list, made by truncation in place. */
  method AuthKeysForKey(key: string) returns (res: seq<string>)
    ensures res == Ancestors(key)
  {
    var rest := key;
    res := [rest];
    HeadIsName(key);
    var r := LastIndex(rest, '/');
    while r.Some?
      invariant r == LastIndex(rest, '/') && res + Ancestors(rest)[1..] == Ancestors(key)
      decreases |rest|
    {
      rest := rest[..r.value];
      HeadIsName(rest);
      res := res + [rest];
      r := LastIndex(rest, '/');
    }
  }

  lemma HeadIsName(name: string)
    ensures Ancestors(name) == [name] + Ancestors(name)[1..]
  {
  }

  // ---------- candidates, without the loops ----------

  /** The name itself, or a part of it that stops just before a slash. */
  predicate IsAncestor(s: string, name: string) {
    s == name || (|s| < |name| && name[..|s|] == s && name[|s|] == '/')
  }

  /** A star standing for a non-empty list of leading labels of the host. */
  ghost predicate IsWildcard(s: string, host: string) {
    exists k :: 0 <= k < |host| && host[k] == '.' && s == "*." + host[k + 1..]
  }

  predicate Descending(names: seq<string>) {
    forall i, j :: 0 <= i < j < |names| ==> |names[i]| > |names[j]|
  }

  lemma {:induction false} AncestorsAre(name: string, s: string)
    ensures s in Ancestors(name) <==> IsAncestor(s, name)
    decreases |name|
  {
    match LastIndex(name, '/')
    case None =>
    case Some(i) =>
      var front := name[..i];
      AncestorsAre(front, s);
      if |s| <= i {
        assert name[..|s|] == front[..|s|];
        assert |s| < i ==> front[|s|] == name[|s|];
      }
      assert s in Ancestors(name) <==> s == name || s in Ancestors(front);
  }

  lemma {:induction false} AncestorsDescend(name: string)
    ensures Descending(Ancestors(name)) && forall s <- Ancestors(name) :: |s| <= |name|
    decreases |name|
  {
    match LastIndex(name, '/')
    case None =>
    case Some(i) =>
      AncestorsDescend(name[..i]);
      assert forall j :: 0 <= j < |Ancestors(name[..i])| ==> Ancestors(name[..i])[j] in Ancestors(name[..i]);
  }

  lemma {:induction false} WildcardsAre(host: string, s: string)
    ensures s in Wildcards(host) <==> IsWildcard(s, host)
    decreases |host|
  {
    match FirstIndex(host, '.')
    case None =>
    case Some(i) =>
      WildcardsAre(host[i + 1..], s);
      WildcardOfTail(host, i, s);
      if IsWildcard(s, host) {
        WildcardOfWhole(host, i, s);
      }
      assert s in Wildcards(host) <==> s == "*." + host[i + 1..] || s in Wildcards(host[i + 1..]);
  }

  lemma WildcardOfTail(host: string, i: nat, s: string)
    requires i < |host| && host[i] == '.'
    ensures s == "*." + host[i + 1..] || IsWildcard(s, host[i + 1..]) ==> IsWildcard(s, host)
  {
    var tail := host[i + 1..];
    if IsWildcard(s, tail) {
      var j :| 0 <= j < |tail| && tail[j] == '.' && s == "*." + tail[j + 1..];
      var k := i + 1 + j;
      assert host[k] == '.' && host[k + 1..] == tail[j + 1..];
    }
  }

  lemma WildcardOfWhole(host: string, i: nat, s: string)
    requires FirstIndex(host, '.') == Some(i) && IsWildcard(s, host)
    ensures s == "*." + host[i + 1..] || IsWildcard(s, host[i + 1..])
  {
    var tail := host[i + 1..];
    var k :| 0 <= k < |host| && host[k] == '.' && s == "*." + host[k + 1..];
    if k > i {
      var j := k - i - 1;
      assert tail[j] == '.' && tail[j + 1..] == host[k + 1..];
    }
  }

  lemma PrependDescends(first: string, rest: seq<string>)
    requires Descending(rest) && forall s <- rest :: |s| < |first|
    ensures Descending([first] + rest)
  {
    assert forall j :: 0 <= j < |rest| ==> rest[j] in rest;
  }

  lemma {:induction false} WildcardsDescend(host: string)
    ensures Descending(Wildcards(host)) && forall s <- Wildcards(host) :: 2 <= |s| <= |host| + 1
    decreases |host|
  {
    hide Descending;
    match FirstIndex(host, '.')
    case None => NothingDescends();
    case Some(i) =>
      var tail := host[i + 1..];
      WildcardsDescend(tail);
      PrependDescends("*." + tail, Wildcards(tail));
  }

  lemma NothingDescends()
    ensures Descending([])
  {
  }

  /** The host is the one ancestor without a slash. */
  lemma {:induction false} HostIs(name: string)
    ensures FirstIndex(HostOf(name), '/').None? && IsAncestor(HostOf(name), name)
    decreases |name|
  {
    match LastIndex(name, '/')
    case None =>
    case Some(i) =>
      HostIs(name[..i]);
      assert HostOf(name) == HostOf(name[..i]);
      AncestorsAre(name[..i], HostOf(name));
      AncestorsAre(name, HostOf(name));
      assert HostOf(name) in Ancestors(name[..i]);
  }

  /** The candidates of the loops are exactly the ancestors and the wildcards. */
  lemma NamespacesAre(name: string, s: string)
    ensures s in Namespaces(name) <==> IsAncestor(s, name) || IsWildcard(s, StripPort(HostOf(name)))
  {
    AncestorsAre(name, s);
    WildcardsAre(StripPort(HostOf(name)), s);
  }

  predicate NoDuplicates(names: seq<string>) {
    forall i, j :: 0 <= i < j < |names| ==> names[i] != names[j]
  }

  /**
   * No candidate is listed twice, unless the host is itself written as a wildcard without a port.
   */
  lemma NamespacesDistinctIff(name: string)
    ensures NoDuplicates(Namespaces(name)) <==>
            !("*." <= HostOf(name) && FirstIndex(HostOf(name), ':').None?)
  {
    if "*." <= HostOf(name) && FirstIndex(HostOf(name), ':').None? {
      HostListedTwice(name);
    } else {
      var host := StripPort(HostOf(name));
      var up, wild := Ancestors(name), Wildcards(host);
      forall i, j | 0 <= i < |up| && 0 <= j < |wild|
        ensures up[i] != wild[j]
      {
        if up[i] == wild[j] {
          AncestorsAre(name, up[i]);
          WildcardsAre(host, wild[j]);
          SharedCandidate(name, up[i]);
        }
      }
      AncestorsDescend(name);
      WildcardsDescend(host);
      JoinDistinct(up, wild);
    }
  }

  lemma JoinDistinct(xs: seq<string>, ys: seq<string>)
    requires Descending(xs) && Descending(ys)
    requires forall i, j :: 0 <= i < |xs| && 0 <= j < |ys| ==> xs[i] != ys[j]
    ensures NoDuplicates(xs + ys)
  {
  }

  lemma HostListedTwice(name: string)
    requires "*." <= HostOf(name) && FirstIndex(HostOf(name), ':').None?
    ensures !NoDuplicates(Namespaces(name))
  {
    var host := HostOf(name);
    var up, wild := Ancestors(name), Wildcards(host);
    assert host[1] == '.' && host == "*." + host[2..];
    WildcardsAre(host, host);
    var j :| 0 <= j < |wild| && wild[j] == host;
    assert Namespaces(name)[|up| - 1] == host == Namespaces(name)[|up| + j];
  }

  /** An ancestor that is also a wildcard of the host can only be the host itself. */
  lemma SharedCandidate(name: string, s: string)
    requires IsAncestor(s, name) && IsWildcard(s, StripPort(HostOf(name)))
    ensures s == HostOf(name) && "*." <= HostOf(name) && FirstIndex(HostOf(name), ':').None?
  {
    HostIs(name);
    WildcardNoSlash(HostOf(name), s);
    NoSlashAncestor(name, s);
    WildcardOfItself(s);
  }

  lemma WildcardNoSlash(host: string, s: string)
    requires FirstIndex(host, '/').None? && IsWildcard(s, StripPort(host))
    ensures forall i :: 0 <= i < |s| ==> s[i] != '/'
  {
    var bare := StripPort(host);
    var k :| 0 <= k < |bare| && bare[k] == '.' && s == "*." + bare[k + 1..];
    forall i | 0 <= i < |s|
      ensures s[i] != '/'
    {
      if i >= 2 {
        var j := k + 1 + (i - 2);
        assert s[i] == bare[j] == host[j];
      }
    }
  }

  lemma WildcardOfItself(host: string)
    requires IsWildcard(host, StripPort(host))
    ensures "*." <= host && FirstIndex(host, ':').None?
  {
    var bare := StripPort(host);
    var k :| 0 <= k < |bare| && bare[k] == '.' && host == "*." + bare[k + 1..];
    assert host[0] == '*' && host[1] == '.' && host[k] == bare[k] == '.';
    assert k != 0 && |host| <= |bare|;
  }

  lemma NoSlashAncestor(name: string, s: string)
    requires IsAncestor(s, name) && forall i :: 0 <= i < |s| ==> s[i] != '/'
    ensures s == HostOf(name)
  {
    HostIs(name);
    var host := HostOf(name);
    assert forall i :: 0 <= i < |host| ==> name[i] == host[i] != '/';
    assert forall i :: 0 <= i < |s| ==> name[i] == s[i] != '/';
    assert |s| == |host|;
    assert s == name[..|s|] && host == name[..|host|];
  }

  // ---------- candidates, in terms of registry and repository ----------

  /** Registry and repository, the latter cut before any slash; or the registry alone, likewise cut. */
  predicate IsPath(s: string, image: Reference) {
    if image.registry == "" then IsAncestor(s, image.repository)
    else
      || IsAncestor(s, image.registry)
      || (image.registry + "/" <= s && IsAncestor(s[|image.registry| + 1..], image.repository))
  }

  /** A star for some leading labels of the host that the registry names, or the repository without one. */
  ghost predicate IsDomain(s: string, image: Reference) {
    exists h :: IsHost(h, image) && IsWildcard(s, h)
  }

  ghost predicate IsHost(h: string, image: Reference) {
    exists t :: IsFirstPart(t, if image.registry == "" then image.repository else image.registry) && IsBareHost(h, t)
  }

  /** What stands before the first slash. */
  predicate IsFirstPart(t: string, name: string) {
    '/' !in t && (name == t || t + "/" <= name)
  }

  /** `h` is `t` without what follows the last colon. */
  ghost predicate IsBareHost(h: string, t: string) {
    (h == t && ':' !in t) || exists port :: ':' !in port && t == h + (":" + port)
  }

  lemma PathIff(image: Reference, s: string)
    ensures IsPath(s, image) <==> IsAncestor(s, FullName(image))
  {
    if image.registry != "" {
      var front, name := image.registry + "/", FullName(image);
      assert name == front + image.repository;
      if |s| >= |front| {
        PathBelow(front, image.repository, s);
      } else {
        assert name[..|s|] == image.registry[..|s|];
        assert |s| < |image.registry| ==> name[|s|] == image.registry[|s|];
        assert |s| == |image.registry| ==> name[|s|] == '/';
      }
    }
  }

  lemma PathBelow(front: string, rest: string, s: string)
    requires |s| >= |front| > 0 && front[|front| - 1] == '/'
    ensures IsAncestor(s, front + rest) <==> front <= s && IsAncestor(s[|front|..], rest)
    ensures !IsAncestor(s, front[..|front| - 1])
  {
    var name, tail, k := front + rest, s[|front|..], |s| - |front|;
    assert s == s[..|front|] + tail;
    if |s| < |name| {
      assert name[..|s|] == front + rest[..k] && name[|s|] == rest[k];
    }
    if front <= s {
      assert s == front + tail;
    }
  }

  lemma FirstPartIff(name: string, t: string)
    ensures IsFirstPart(t, name) <==> t == HostOf(name)
  {
    HostIs(name);
    if IsFirstPart(t, name) {
      assert name != t ==> name[|t|] == '/';
      NoSlashAncestor(name, t);
    }
    var host := HostOf(name);
    assert host != name ==> host + "/" == name[..|host| + 1];
  }

  lemma LastColon(t: string, h: string, port: string)
    requires t == h + (":" + port) && ':' !in port
    ensures LastIndex(t, ':') == Some(|h|) && t[..|h|] == h
  {
    assert t[|h|] == ':';
    forall j | |h| < j < |t|
      ensures t[j] != ':'
    {
      assert t[j] == port[j - |h| - 1];
    }
  }

  lemma BareHostIff(t: string, h: string)
    ensures IsBareHost(h, t) <==> h == StripPort(t)
  {
    forall port | ':' !in port && t == h + (":" + port)
      ensures h == StripPort(t)
    {
      LastColon(t, h, port);
    }
    match LastIndex(t, ':')
    case None =>
    case Some(i) =>
      assert t == t[..i] + (":" + t[i + 1..]);
      assert ':' !in t[i + 1..];
  }

  lemma HostIff(image: Reference, h: string)
    ensures IsHost(h, image) <==> h == StripPort(HostOf(FullName(image)))
  {
    var start := if image.registry == "" then image.repository else image.registry;
    var t := HostOf(start);
    FirstPartIff(start, t);
    assert IsFirstPart(t, FullName(image)) by {
      if image.registry != "" {
        assert t + "/" <= image.registry + "/";
      }
    }
    FirstPartIff(FullName(image), t);
    BareHostIff(t, h);
    forall u | IsFirstPart(u, start)
      ensures u == t
    {
      FirstPartIff(start, u);
    }
  }

  lemma DomainIff(image: Reference, s: string)
    ensures IsDomain(s, image) <==> IsWildcard(s, StripPort(HostOf(FullName(image))))
  {
    var host := StripPort(HostOf(FullName(image)));
    HostIff(image, host);
    forall h | IsHost(h, image)
      ensures h == host
    {
      HostIff(image, h);
    }
  }

  /** The candidates are exactly the image's paths and domains. */
  lemma CandidatesAre(image: Reference, s: string)
    ensures s in Namespaces(FullName(image)) <==> IsPath(s, image) || IsDomain(s, image)
  {
    NamespacesAre(FullName(image), s);
    PathIff(image, s);
    DomainIff(image, s);
  }

  ghost predicate PathsThenDomains(res: seq<string>, n: nat, image: Reference)
    requires n <= |res|
  {
    && Descending(res[..n]) && Descending(res[n..])
    && (forall s <- res[..n] :: IsPath(s, image)) && (forall s <- res[n..] :: IsDomain(s, image))
  }

  lemma NamespacesInOrder(image: Reference)
    ensures var res, n := Namespaces(FullName(image)), |Ancestors(FullName(image))|;
            n <= |res| && PathsThenDomains(res, n, image) && res[0] == FullName(image)
  {
    var name := FullName(image);
    var host := StripPort(HostOf(name));
    var up, wild := Ancestors(name), Wildcards(host);
    var res := up + wild;
    assert res[..|up|] == up && res[|up|..] == wild;
    AncestorsDescend(name);
    WildcardsDescend(host);
    forall s <- up
      ensures IsPath(s, image)
    {
      AncestorsAre(name, s);
      PathIff(image, s);
    }
    forall s <- wild
      ensures IsDomain(s, image)
    {
      WildcardsAre(host, s);
      DomainIff(image, s);
    }
  }

  lemma NamespacesDescribed(image: Reference)
    ensures var res := Namespaces(FullName(image));
            && (forall s :: s in res <==> IsPath(s, image) || IsDomain(s, image))
            && |res| > 0
            && res[0] == (if image.registry == "" then image.repository else image.registry + "/" + image.repository)
            && exists n :: 0 <= n <= |res| && PathsThenDomains(res, n, image)
  {
    forall s
      ensures s in Namespaces(FullName(image)) <==> IsPath(s, image) || IsDomain(s, image)
    {
      CandidatesAre(image, s);
    }
    NamespacesInOrder(image);
  }

  /**
   * For a registry without a slash: it is itself a path, below it exactly the cuts of the repository
   * before a slash are, and each dot of its host, with or without a port, gives a domain.
   */
  lemma RegistryCandidates(image: Reference, k: nat)
    requires image.registry != "" && '/' !in image.registry
    ensures IsPath(image.registry, image) && IsPath(image.registry + "/" + image.repository, image)
    ensures k < |image.repository| ==>
              (IsPath(image.registry + "/" + image.repository[..k], image) <==> image.repository[k] == '/')
    ensures k < |image.registry| && image.registry[k] == '.' && ':' !in image.registry ==>
              IsDomain("*." + image.registry[k + 1..], image)
    ensures forall h, port :: image.registry == h + (":" + port) && ':' !in port && k < |h| && h[k] == '.' ==>
              IsDomain("*." + h[k + 1..], image)
  {
    var front := image.registry + "/";
    assert IsFirstPart(image.registry, image.registry);
    CutBelow(front, image.repository, |image.repository|);
    if k < |image.repository| {
      CutBelow(front, image.repository, k);
    }
    if k < |image.registry| && image.registry[k] == '.' && ':' !in image.registry {
      assert IsBareHost(image.registry, image.registry);
      assert IsHost(image.registry, image) && IsWildcard("*." + image.registry[k + 1..], image.registry);
    }
    forall h, port | image.registry == h + (":" + port) && ':' !in port && k < |h| && h[k] == '.'
      ensures IsDomain("*." + h[k + 1..], image)
    {
      assert IsBareHost(h, image.registry);
      assert IsHost(h, image) && IsWildcard("*." + h[k + 1..], h);
    }
  }

  lemma CutBelow(front: string, rest: string, k: nat)
    requires k <= |rest| && |front| > 0
    ensures var s := front + rest[..k];
            && front <= s && s[|front|..] == rest[..k] && !IsAncestor(s, front[..|front| - 1])
            && (IsAncestor(s[|front|..], rest) <==> k == |rest| || rest[k] == '/')
  {
    assert rest[..|rest|] == rest;
  }
}
