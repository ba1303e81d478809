/** The lookups themselves: the requirements for an image, and the credential for a registry. */
module Policy {
  import opened Results
  import opened ScopeLookup

  const DOCKER: string := "docker"

  type Scopes<R> = map<string, R>

  datatype SignaturePolicy<R> = SignaturePolicy(default: R, transports: map<string, Scopes<R>>)

  /** The first of the names that is present. */
  function FirstPresent<R>(names: seq<string>, scopes: map<string, R>): Option<R> {
    if names == [] then None
    else if names[0] in scopes then Some(scopes[names[0]])
    else FirstPresent(names[1..], scopes)
  }

  /** `requirements_for_image`: identity, candidates in order, the transport's default, the policy's. */
  function RequirementsForImage<R>(policy: SignaturePolicy<R>, image: Reference): R {
    if DOCKER in policy.transports then
      var scopes := policy.transports[DOCKER];
      if image.whole in scopes then scopes[image.whole]
      else
        match FirstPresent(Namespaces(FullName(image)), scopes)
        case Some(reqs) => reqs
        case None => if "" in scopes then scopes[""] else policy.default
    else policy.default
  }

  // ---------- most specific ----------

  ghost predicate Applies(scope: string, image: Reference) {
    scope == image.whole || scope == "" || IsPath(scope, image) || IsDomain(scope, image)
  }

  /** Exact identities before paths, paths before wildcards, wildcards before the empty scope. */
  ghost function Kind(scope: string, image: Reference): nat {
    if scope == image.whole then 3
    else if IsPath(scope, image) then 2
    else if IsDomain(scope, image) then 1
    else 0
  }

  ghost predicate MoreSpecific(a: string, b: string, image: Reference) {
    Kind(a, image) > Kind(b, image) || (Kind(a, image) == Kind(b, image) && |a| > |b|)
  }

  /** No two applying scopes tie. */
  lemma SpecificityTotal(a: string, b: string, image: Reference)
    requires Applies(a, image) && Applies(b, image) && a != b
    ensures MoreSpecific(a, b, image) || MoreSpecific(b, a, image)
  {
    PathIff(image, a);
    PathIff(image, b);
    if Kind(a, image) == Kind(b, image) == 1 {
      DomainIff(image, a);
      DomainIff(image, b);
      WildcardByLength(StripPort(HostOf(FullName(image))), a, b);
    }
  }

  lemma WildcardByLength(host: string, a: string, b: string)
    requires IsWildcard(a, host) && IsWildcard(b, host)
    ensures |a| == |b| ==> a == b
  {
    var j :| 0 <= j < |host| && host[j] == '.' && a == "*." + host[j + 1..];
    var k :| 0 <= k < |host| && host[k] == '.' && b == "*." + host[k + 1..];
    assert |a| == 1 + |host| - j && |b| == 1 + |host| - k;
  }

  /** `scope` is present, applies, and is more specific than any other that does. */
  ghost predicate IsBest<R>(scopes: map<string, R>, image: Reference, scope: string) {
    && scope in scopes && Applies(scope, image)
    && forall other <- scopes :: other != scope && Applies(other, image) ==> MoreSpecific(scope, other, image)
  }

  lemma {:induction false} FirstPresentIs<R>(names: seq<string>, scopes: map<string, R>) returns (i: nat)
    ensures i <= |names|
    ensures forall j :: 0 <= j < i ==> names[j] !in scopes
    ensures i < |names| ==> names[i] in scopes && FirstPresent(names, scopes) == Some(scopes[names[i]])
    ensures i == |names| ==> FirstPresent(names, scopes) == None
    decreases |names|
  {
    if names == [] || names[0] in scopes {
      i := 0;
    } else {
      var k := FirstPresentIs(names[1..], scopes);
      i := k + 1;
      forall j | 0 <= j < i
        ensures names[j] !in scopes
      {
        assert j > 0 ==> names[j] == names[1..][j - 1];
      }
    }
  }

  /** Listed later means less specific, among candidates that are not the identity. */
  lemma LaterIsLessSpecific(image: Reference, i: nat, j: nat)
    requires i < |Namespaces(FullName(image))| && j < |Namespaces(FullName(image))|
    requires var names := Namespaces(FullName(image));
             names[i] != names[j] && names[i] != image.whole && names[j] != image.whole &&
             forall k :: 0 <= k < i ==> names[k] != names[j]
    ensures MoreSpecific(Namespaces(FullName(image))[i], Namespaces(FullName(image))[j], image)
  {
    CandidateKind(image, i);
    CandidateKind(image, j);
    LaterIsShorter(FullName(image), i, j);
  }

  /** Listed later means shorter, within the ancestors and within the wildcards. */
  lemma LaterIsShorter(name: string, i: nat, j: nat)
    requires i < |Namespaces(name)| && j < |Namespaces(name)| && Namespaces(name)[i] != Namespaces(name)[j]
    requires forall k :: 0 <= k < i ==> Namespaces(name)[k] != Namespaces(name)[j]
    ensures var names, up := Namespaces(name), Ancestors(name);
            && (names[i] in up && names[j] in up ==> |names[i]| > |names[j]|)
            && (names[i] !in up ==> names[j] !in up && |names[i]| > |names[j]|)
  {
    AncestorsDescend(name);
    WildcardsDescend(StripPort(HostOf(name)));
    LaterIsShorterIn(Ancestors(name), Wildcards(StripPort(HostOf(name))), i, j);
  }

  lemma LaterIsShorterIn(up: seq<string>, wild: seq<string>, i: nat, j: nat)
    requires Descending(up) && Descending(wild) && i < |up + wild| && j < |up + wild| && (up + wild)[i] != (up + wild)[j]
    requires forall k :: 0 <= k < i ==> (up + wild)[k] != (up + wild)[j]
    ensures var names := up + wild;
            && (names[i] in up && names[j] in up ==> |names[i]| > |names[j]|)
            && (names[i] !in up ==> names[j] !in up && |names[i]| > |names[j]|)
  {
    var names := up + wild;
    assert i < j;
    if names[j] in up {
      var k :| 0 <= k < |up| && up[k] == names[j];
      assert names[k] == names[j];
    }
    assert i < |up| ==> names[i] == up[i];
    if i >= |up| {
      assert names[i] == wild[i - |up|] && names[j] == wild[j - |up|];
    }
  }

  lemma CandidateKind(image: Reference, i: nat)
    requires i < |Namespaces(FullName(image))| && Namespaces(FullName(image))[i] != image.whole
    ensures Kind(Namespaces(FullName(image))[i], image) ==
            if Namespaces(FullName(image))[i] in Ancestors(FullName(image)) then 2 else 1
    ensures i < |Ancestors(FullName(image))| ==> Namespaces(FullName(image))[i] in Ancestors(FullName(image))
  {
    var name := FullName(image);
    var s := Namespaces(name)[i];
    CandidatesAre(image, s);
    PathIff(image, s);
    AncestorsAre(name, s);
    if i < |Ancestors(name)| {
      assert s == Ancestors(name)[i];
    }
  }

  /**
   * The requirements of an image are those of the most specific scope present that applies to it,
   * and the policy's default exactly when there is none.
   */
  lemma MostSpecificScope<R>(policy: SignaturePolicy<R>, image: Reference)
    ensures DOCKER !in policy.transports ==> RequirementsForImage(policy, image) == policy.default
    ensures DOCKER in policy.transports ==>
              var scopes := policy.transports[DOCKER];
              if exists scope <- scopes :: Applies(scope, image)
              then exists scope :: IsBest(scopes, image, scope) && RequirementsForImage(policy, image) == scopes[scope]
              else RequirementsForImage(policy, image) == policy.default
  {
    if DOCKER in policy.transports {
      var scopes := policy.transports[DOCKER];
      var names := Namespaces(FullName(image));
      var i := FirstPresentIs(names, scopes);
      if image.whole in scopes {
        assert IsBest(scopes, image, image.whole);
      } else if i < |names| {
        BestCandidate(scopes, image, i);
      } else {
        NoCandidate(scopes, image);
        assert "" in scopes ==> IsBest(scopes, image, "");
      }
    }
  }

  lemma BestCandidate<R>(scopes: map<string, R>, image: Reference, i: nat)
    requires image.whole !in scopes && i < |Namespaces(FullName(image))|
    requires Namespaces(FullName(image))[i] in scopes
    requires forall j :: 0 <= j < i ==> Namespaces(FullName(image))[j] !in scopes
    ensures IsBest(scopes, image, Namespaces(FullName(image))[i])
  {
    var name := FullName(image);
    var names := Namespaces(name);
    CandidatesAre(image, names[i]);
    forall other <- scopes | other != names[i] && Applies(other, image)
      ensures MoreSpecific(names[i], other, image)
    {
      CandidatesAre(image, other);
      if other in names {
        var j :| 0 <= j < |names| && names[j] == other;
        LaterIsLessSpecific(image, i, j);
      }
    }
  }

  lemma NoCandidate<R>(scopes: map<string, R>, image: Reference)
    requires image.whole !in scopes && forall j :: 0 <= j < |Namespaces(FullName(image))| ==> Namespaces(FullName(image))[j] !in scopes
    ensures forall scope <- scopes :: Applies(scope, image) ==> scope == ""
  {
    forall scope <- scopes | Applies(scope, image)
      ensures scope == ""
    {
      CandidatesAre(image, scope);
      assert forall j :: 0 <= j < |Namespaces(FullName(image))| ==> Namespaces(FullName(image))[j] != scope;
    }
  }

  /** A scope for an organization on a registry is found for its images. */
  lemma OrganizationScope<R>(r: R, default: R)
    ensures var policy := SignaturePolicy(default, map["docker" := map["quay.io/ns" := r]]);
            RequirementsForImage(policy, Reference("quay.io", "ns/img", "quay.io/ns/img:latest")) == r
  {
    var scopes := map["quay.io/ns" := r];
    var image := Reference("quay.io", "ns/img", "quay.io/ns/img:latest");
    assert image.registry + "/" == "quay.io/" && "quay.io/" <= "quay.io/ns" && "quay.io/ns"[8..] == "ns";
    assert image.repository[..2] == "ns";
    assert "quay.io/ns" in scopes && Applies("quay.io/ns", image);
    MostSpecificScope(SignaturePolicy(default, map["docker" := scopes]), image);
  }

  // ---------- credentials ----------

  datatype RegistryAuth = Anonymous | Basic(username: string, password: string)
  datatype AuthError = InvalidRegistryAuthFile

  function StripPrefix(s: string, prefix: string): Option<string> {
    if prefix <= s then Some(s[|prefix|..]) else None
  }

  function NormalizeRegistry(registry: string): string {
    if registry == "registry-1.docker.io" || registry == "docker.io" then "index.docker.io" else registry
  }

  function NormalizeKeyToRegistry(key: string): string {
    var plain := match StripPrefix(key, "http://") case Some(rest) => rest case None => key;
    var stripped := match StripPrefix(key, "https://") case Some(rest) => rest case None => plain;
    var host :=
      if stripped == key then stripped
      else match FirstIndex(stripped, '/') case Some(i) => stripped[..i] case None => stripped;
    NormalizeRegistry(host)
  }

  /** A key with a scheme names the part up to its first slash, any other key the whole of itself. */
  lemma KeyNamesRegistry(scheme: string, host: string, rest: string)
    requires scheme == "https://" || scheme == "http://"
    requires '/' !in host
    ensures NormalizeKeyToRegistry(scheme + host) == NormalizeRegistry(host)
    ensures NormalizeKeyToRegistry(scheme + (host + ("/" + rest))) == NormalizeRegistry(host)
  {
    SchemeCut(scheme, host);
    SchemeCut(scheme, host + ("/" + rest));
    FirstSlash(host, rest);
  }

  lemma SchemeCut(scheme: string, s: string)
    requires scheme == "https://" || scheme == "http://"
    ensures NormalizeKeyToRegistry(scheme + s) ==
            NormalizeRegistry(match FirstIndex(s, '/') case Some(i) => s[..i] case None => s)
  {
    var key := scheme + s;
    assert key[|scheme|..] == s && |key| > |s|;
    assert key[4] == scheme[4];
    assert scheme == "http://" ==> !("https://" <= key);
    assert scheme == "https://" ==> "https://" <= key;
  }

  lemma FirstSlash(host: string, rest: string)
    requires '/' !in host
    ensures FirstIndex(host, '/').None?
    ensures FirstIndex(host + ("/" + rest), '/') == Some(|host|) && (host + ("/" + rest))[..|host|] == host
  {
    var s := host + ("/" + rest);
    assert s[|host|] == '/';
    assert forall k :: 0 <= k < |host| ==> s[k] == host[k] != '/';
  }

  lemma KeyWithoutScheme(key: string)
    requires !("https://" <= key) && !("http://" <= key)
    ensures NormalizeKeyToRegistry(key) == NormalizeRegistry(key)
  {
  }

  /** The names of Docker Hub are one registry, whatever follows them in a key. */
  lemma DockerHub(rest: string)
    ensures NormalizeRegistry("docker.io") == NormalizeRegistry("registry-1.docker.io") == "index.docker.io"
    ensures NormalizeKeyToRegistry("https://" + ("index.docker.io" + ("/" + rest))) == "index.docker.io"
    ensures NormalizeRegistry("quay.io") == "quay.io"
  {
    KeyNamesRegistry("https://", "index.docker.io", rest);
    assert "index.docker.io"[0] == 'i' && "quay.io"[0] == 'q';
  }

  // ---------- the user and the password in an auth string ----------

  predicate AllNewlines(s: string) {
    forall c <- s :: c == '\n'
  }

  function TrimStart(s: string): (r: string)
    ensures r == "" || r[0] != '\n'
  {
    if s != "" && s[0] == '\n' then TrimStart(s[1..]) else s
  }

  function TrimEnd(s: string): (r: string)
    ensures r == "" || r[|r| - 1] != '\n'
    ensures r <= s
  {
    if s != "" && s[|s| - 1] == '\n' then TrimEnd(s[..|s| - 1]) else s
  }

  /** `trim_matches` for newlines. */
  function TrimNewlines(s: string): string {
    TrimEnd(TrimStart(s))
  }

  lemma {:induction false} TrimStartCuts(s: string) returns (a: string)
    ensures AllNewlines(a) && s == a + TrimStart(s)
  {
    if s != "" && s[0] == '\n' {
      var rest := TrimStartCuts(s[1..]);
      a := [s[0]] + rest;
      assert s == [s[0]] + s[1..] == a + TrimStart(s);
    } else {
      a := "";
    }
  }

  lemma {:induction false} TrimEndCuts(s: string) returns (b: string)
    ensures AllNewlines(b) && s == TrimEnd(s) + b
    decreases |s|
  {
    if s != "" && s[|s| - 1] == '\n' {
      var n := |s| - 1;
      var rest := TrimEndCuts(s[..n]);
      b := rest + [s[n]];
      assert s == s[..n] + [s[n]] == TrimEnd(s) + b;
    } else {
      b := "";
    }
  }

  /** An auth string. Base64 and UTF-8 decoding are one arbitrary function; the first colon splits the text. */
  function Decoded(decode: string -> Option<string>, auth: string): Result<RegistryAuth, AuthError> {
    match decode(auth)
    case None => Failure(InvalidRegistryAuthFile)
    case Some(text) =>
      match FirstIndex(text, ':')
      case None => Failure(InvalidRegistryAuthFile)
      case Some(i) => Success(Basic(text[..i], TrimNewlines(text[i + 1..])))
  }

  /** Newlines around a text that neither starts nor ends with one. */
  ghost predicate Padded(s: string, inner: string) {
    && (inner == "" || (inner[0] != '\n' && inner[|inner| - 1] != '\n'))
    && exists a, b :: AllNewlines(a) && AllNewlines(b) && s == a + (inner + b)
  }

  lemma TrimmedIs(s: string)
    ensures Padded(s, TrimNewlines(s))
  {
    hide AllNewlines;
    var middle := TrimStart(s);
    var a := TrimStartCuts(s);
    var b := TrimEndCuts(middle);
    var inner := TrimEnd(middle);
    assert inner != "" ==> inner[0] == middle[0];
  }

  /** A text of user and password: no colon in the user, newlines around the password allowed. */
  ghost predicate Holds(text: string, user: string, password: string) {
    ':' !in user && exists field :: Padded(field, password) && text == user + (":" + field)
  }

  /** Decoding gives a user and a password that the text holds, and fails exactly when it has no colon. */
  lemma DecodedIs(decode: string -> Option<string>, auth: string)
    ensures match Decoded(decode, auth)
            case Failure(_) => decode(auth).None? || ':' !in decode(auth).value
            case Success(Anonymous) => false
            case Success(Basic(user, password)) => decode(auth).Some? && Holds(decode(auth).value, user, password)
  {
    hide TrimNewlines, Padded;
    if decode(auth).Some? && FirstIndex(decode(auth).value, ':').Some? {
      var text := decode(auth).value;
      var i := FirstIndex(text, ':').value;
      TrimmedIs(text[i + 1..]);
      assert text == text[..i] + (":" + text[i + 1..]);
    }
  }

  /** `key` is the longest path of the image in the file. */
  ghost predicate LongestKey(auths: map<string, string>, image: Reference, key: string) {
    && key in auths && IsPath(key, image)
    && forall other <- auths :: other != key && IsPath(other, image) ==> |other| < |key|
  }

  /**
   * The credential is that of the longest key that is a path of the image; failing
   * that, of some key that names the same registry; failing that, anonymous.
   */
  method CredentialFromAuthConfig(auths: map<string, string>, image: Reference, resolvedRegistry: string,
                                  decode: string -> Option<string>)
    returns (r: Result<RegistryAuth, AuthError>)
    ensures if exists key <- auths :: IsPath(key, image)
            then exists key :: LongestKey(auths, image, key) && r == Decoded(decode, auths[key])
            else if exists key <- auths :: NormalizeKeyToRegistry(key) == NormalizeRegistry(resolvedRegistry)
            then exists key <- auths :: NormalizeKeyToRegistry(key) == NormalizeRegistry(resolvedRegistry) &&
                                        r == Decoded(decode, auths[key])
            else r == Success(Anonymous)
  {
    var authKeys := AuthKeysForKey(FullName(image));
    ghost var i := FirstPresentIs(authKeys, auths);
    KeysByLength(auths, image, i);
    match FirstPresent(authKeys, auths) {
      case Some(auth) =>
        return Decoded(decode, auth);
      case None =>
    }
    var registry := NormalizeRegistry(resolvedRegistry);
    if key :| key in auths && NormalizeKeyToRegistry(key) == registry {
      return Decoded(decode, auths[key]);
    }
    return Success(Anonymous);
  }

  lemma KeysByLength(auths: map<string, string>, image: Reference, i: nat)
    requires var keys := Ancestors(FullName(image));
             i <= |keys| && (forall j :: 0 <= j < i ==> keys[j] !in auths) && (i < |keys| ==> keys[i] in auths)
    ensures i < |Ancestors(FullName(image))| ==> LongestKey(auths, image, Ancestors(FullName(image))[i])
    ensures i == |Ancestors(FullName(image))| ==> forall key <- auths :: !IsPath(key, image)
  {
    var name := FullName(image);
    var keys := Ancestors(name);
    AncestorsDescend(name);
    forall key <- auths | IsPath(key, image)
      ensures exists j :: i <= j < |keys| && keys[j] == key
    {
      PathIff(image, key);
      AncestorsAre(name, key);
      var j :| 0 <= j < |keys| && keys[j] == key;
    }
    if i < |keys| {
      AncestorsAre(name, keys[i]);
      PathIff(image, keys[i]);
    }
  }
}
