/** The comma-separated list of wrapped keys in a layer's annotations. */
module KeyWrap {
  import opened Results

  type Blob = seq<bv8>

  /** The base64 codec as two arbitrary functions, with the laws of RFC 4648, section 4, that are used. */
  datatype Base64 = Base64(encode: Blob -> string, decode: string -> Option<Blob>) {
    ghost predicate Lawful() {
      && (forall b :: decode(encode(b)) == Some(b))
      && (forall b :: ',' !in encode(b))
      && (forall b :: encode(b) == "" <==> b == [])
    }
  }

  /** A key wrapper under fixed configurations. */
  datatype KeyWrapper = KeyWrapper(wrap: Blob -> Option<Blob>, unwrap: Blob -> Result<Blob, string>)

  datatype WrapError = WrapFailed | EmptyAnnotation | EmptyAnnotations | BadBase64 | NoSuitableKey(errs: string)

  /** `str::split` at commas. */
  function Split(s: string): (parts: seq<string>)
    ensures |parts| > 0
    ensures forall part <- parts :: ',' !in part
  {
    if s == "" then [""]
    else
      var tail := Split(s[1..]);
      if s[0] == ',' then [""] + tail else [[s[0]] + tail[0]] + tail[1..]
  }

  function Join(parts: seq<string>): string
    requires |parts| > 0
  {
    if |parts| == 1 then parts[0] else parts[0] + "," + Join(parts[1..])
  }

  /** Splitting undoes joining, for parts free of commas. */
  lemma {:induction false} SplitJoin(parts: seq<string>)
    requires |parts| > 0 && forall i :: 0 <= i < |parts| ==> ',' !in parts[i]
    ensures Split(Join(parts)) == parts
    decreases |parts|
  {
    if |parts| == 1 {
      SplitWhole(parts[0]);
    } else {
      var first, rest := parts[0], parts[1..];
      SplitJoin(rest);
      SplitAfter(first, Join(rest));
      assert first + "," + Join(rest) == first + ("," + Join(rest));
      assert parts == [first] + rest;
    }
  }

  lemma {:induction false} SplitWhole(part: string)
    requires ',' !in part
    ensures Split(part) == [part]
  {
    if part != "" {
      assert part == [part[0]] + part[1..];
      SplitWhole(part[1..]);
    }
  }

  lemma {:induction false} SplitAfter(part: string, rest: string)
    requires ',' !in part
    ensures Split(part + ("," + rest)) == [part] + Split(rest)
  {
    var s := part + ("," + rest);
    if part == "" {
      assert s == "," + rest && s[1..] == rest;
    } else {
      assert s[1..] == part[1..] + ("," + rest) && s[0] == part[0];
      SplitAfter(part[1..], rest);
      assert [part[0]] + part[1..] == part;
    }
  }

  /** And joining undoes splitting, for every string. */
  lemma {:induction false} JoinSplit(s: string)
    ensures Join(Split(s)) == s
  {
    if s != "" {
      JoinSplit(s[1..]);
      var tail := Split(s[1..]);
      if s[0] == ',' {
        assert ([""] + tail)[1..] == tail;
      } else {
        assert ([[s[0]] + tail[0]] + tail[1..])[1..] == tail[1..];
        JoinHead(s[0], tail);
      }
      assert s == [s[0]] + s[1..];
    }
  }

  lemma JoinHead(c: char, parts: seq<string>)
    requires |parts| > 0
    ensures Join([[c] + parts[0]] + parts[1..]) == [c] + Join(parts)
  {
    var first, rest := [c] + parts[0], parts[1..];
    if rest == [] {
      assert [first] + rest == [first];
    } else {
      JoinCons(first, rest);
      Regroup([c], parts[0], "," + Join(rest));
      Regroup(parts[0], ",", Join(rest));
    }
  }

  lemma JoinCons(first: string, rest: seq<string>)
    requires rest != []
    ensures Join([first] + rest) == first + ("," + Join(rest))
  {
    assert ([first] + rest)[1..] == rest;
    Regroup(first, ",", Join(rest));
  }

  lemma Regroup(x: string, y: string, z: string)
    ensures x + y + z == x + (y + z)
  {
  }

  /** A part appended after a comma is one part more, whatever stands before it. */
  lemma {:induction false} SplitAppend(s: string, part: string)
    requires ',' !in part
    ensures Split(s + ("," + part)) == Split(s) + [part]
  {
    if s == "" {
      SplitWhole(part);
      assert s + ("," + part) == "," + part && ("," + part)[1..] == part;
    } else {
      var t := s + ("," + part);
      assert t[0] == s[0] && t[1..] == s[1..] + ("," + part);
      SplitAppend(s[1..], part);
      var tail := Split(s[1..]);
      assert (tail + [part])[0] == tail[0] && (tail + [part])[1..] == tail[1..] + [part];
      assert [""] + (tail + [part]) == [""] + tail + [part];
      assert [[s[0]] + tail[0]] + (tail[1..] + [part]) == [[s[0]] + tail[0]] + tail[1..] + [part];
    }
  }

  method PreWrapKey(b: Base64, w: KeyWrapper, b64Annotations: string, optsData: Blob)
    returns (r: Result<string, WrapError>)
    ensures r == Wrapped(b, w, b64Annotations, optsData)
    ensures r.Success? <==> GivesBlob(w, optsData)
    ensures r.Failure? ==> r.error == if w.wrap(optsData).None? then WrapFailed else EmptyAnnotation
    ensures b.Lawful() && r.Success? ==>
              r.value != "" && Split(r.value) == Parts(b64Annotations) + [b.encode(w.wrap(optsData).value)]
  {
    WrapAddsOnePart(b, w, b64Annotations, optsData);
    var newAnnotation;
    match w.wrap(optsData) {
      case None => return Failure(WrapFailed);
      case Some(blob) => newAnnotation := blob;
    }
    if newAnnotation == [] {
      return Failure(EmptyAnnotation);
    }
    var b64NewAnnotation := b.encode(newAnnotation);
    if b64Annotations == "" {
      return Success(b64NewAnnotation);
    }
    var annotations := b64Annotations;
    annotations := annotations + [','];
    annotations := annotations + b64NewAnnotation;
    return Success(annotations);
  }

  function Wrapped(b: Base64, w: KeyWrapper, annotations: string, optsData: Blob): Result<string, WrapError> {
    match w.wrap(optsData)
    case None => Failure(WrapFailed)
    case Some(blob) =>
      if blob == [] then Failure(EmptyAnnotation)
      else if annotations == "" then Success(b.encode(blob))
      else Success(annotations + "," + b.encode(blob))
  }

  predicate GivesBlob(w: KeyWrapper, optsData: Blob) {
    w.wrap(optsData).Some? && w.wrap(optsData).value != []
  }

  /** The parts that annotations hold: none at first. */
  function Parts(annotations: string): seq<string> {
    if annotations == "" then [] else Split(annotations)
  }

  /** One wrap succeeds exactly with a non-empty blob, and then adds its encoding as the last part. */
  lemma WrapAddsOnePart(b: Base64, w: KeyWrapper, annotations: string, optsData: Blob)
    ensures Wrapped(b, w, annotations, optsData).Success? <==> GivesBlob(w, optsData)
    ensures b.Lawful() && GivesBlob(w, optsData) ==>
              var s := Wrapped(b, w, annotations, optsData).value;
              s != "" && Split(s) == Parts(annotations) + [b.encode(w.wrap(optsData).value)]
  {
    if b.Lawful() && GivesBlob(w, optsData) {
      var part := b.encode(w.wrap(optsData).value);
      if annotations == "" {
        SplitWhole(part);
      } else {
        SplitAppend(annotations, part);
        assert annotations + ("," + part) == annotations + "," + part;
      }
    }
  }

  /** The annotations after a chain of wraps, each with its own wrapper, from the empty string. */
  function WrapChain(b: Base64, ws: seq<KeyWrapper>, optsData: Blob): Result<string, WrapError> {
    if ws == [] then Success("")
    else
      match WrapChain(b, ws[..|ws| - 1], optsData)
      case Failure(error) => Failure(error)
      case Success(annotations) => Wrapped(b, ws[|ws| - 1], annotations, optsData)
  }

  function Encoded(b: Base64, blobs: seq<Blob>): (parts: seq<string>)
    ensures |parts| == |blobs|
    ensures forall i :: 0 <= i < |blobs| ==> parts[i] == b.encode(blobs[i])
  {
    seq(|blobs|, i requires 0 <= i < |blobs| => b.encode(blobs[i]))
  }

  /** After any chain that succeeds, splitting the annotations at commas gives the encodings in order. */
  lemma {:induction false} ChainSplits(b: Base64, ws: seq<KeyWrapper>, optsData: Blob) returns (blobs: seq<Blob>)
    requires b.Lawful() && WrapChain(b, ws, optsData).Success?
    ensures |blobs| == |ws|
    ensures forall i :: 0 <= i < |ws| ==> ws[i].wrap(optsData) == Some(blobs[i])
    ensures Parts(WrapChain(b, ws, optsData).value) == Encoded(b, blobs)
    ensures ws != [] ==> WrapChain(b, ws, optsData).value != ""
    decreases |ws|
  {
    if ws == [] {
      blobs := [];
    } else {
      var n := |ws| - 1;
      var front := ChainSplits(b, ws[..n], optsData);
      WrapAddsOnePart(b, ws[n], WrapChain(b, ws[..n], optsData).value, optsData);
      var blob := ws[n].wrap(optsData).value;
      blobs := front + [blob];
      assert Encoded(b, front + [blob]) == Encoded(b, front) + [b.encode(blob)];
    }
  }

  /** The declarative search: the first part that unwraps, unless an undecodable one comes first. */
  function UnwrapParts(b: Base64, w: KeyWrapper, parts: seq<string>, errs: string): Result<Blob, WrapError> {
    if parts == [] then Failure(NoSuitableKey(errs))
    else
      match b.decode(parts[0])
      case None => Failure(BadBase64)
      case Some(annotation) =>
        match w.unwrap(annotation)
        case Success(optsData) => Success(optsData)
        case Failure(e) => UnwrapParts(b, w, parts[1..], errs + e)
  }

  /** A part that is decoded and not unwrapped, so that the search goes on. */
  predicate Passed(b: Base64, w: KeyWrapper, part: string) {
    b.decode(part).Some? && w.unwrap(b.decode(part).value).Failure?
  }

  /** The errors of the parts passed, one after the other. */
  function Errors(b: Base64, w: KeyWrapper, parts: seq<string>): string
    requires forall i :: 0 <= i < |parts| ==> Passed(b, w, parts[i])
    decreases |parts|
  {
    if parts == [] then ""
    else
      assert Passed(b, w, parts[0]);
      w.unwrap(b.decode(parts[0]).value).error + Errors(b, w, parts[1..])
  }

  /** For any text at all: the first part that is not passed decides; if all are, their errors are reported. */
  lemma {:induction false} FirstDecides(b: Base64, w: KeyWrapper, parts: seq<string>, n: nat, errs: string)
    requires n <= |parts| && forall i :: 0 <= i < n ==> Passed(b, w, parts[i])
    ensures n == |parts| ==> UnwrapParts(b, w, parts, errs) == Failure(NoSuitableKey(errs + Errors(b, w, parts)))
    ensures n < |parts| && b.decode(parts[n]).None? ==> UnwrapParts(b, w, parts, errs) == Failure(BadBase64)
    ensures n < |parts| && b.decode(parts[n]).Some? && w.unwrap(b.decode(parts[n]).value).Success? ==>
              UnwrapParts(b, w, parts, errs) == Success(w.unwrap(b.decode(parts[n]).value).value)
    decreases n
  {
    if n > 0 {
      assert Passed(b, w, parts[0]);
      var e := w.unwrap(b.decode(parts[0]).value).error;
      FirstDecides(b, w, parts[1..], n - 1, errs + e);
      if n == |parts| {
        Regroup(errs, e, Errors(b, w, parts[1..]));
      }
    } else {
      assert errs + "" == errs;
    }
  }

  method PreUnwrapKey(b: Base64, w: KeyWrapper, b64Annotations: string) returns (r: Result<Blob, WrapError>)
    ensures r == if b64Annotations == "" then Failure(EmptyAnnotations)
                 else UnwrapParts(b, w, Split(b64Annotations), "")
  {
    if b64Annotations == "" {
      return Failure(EmptyAnnotations);
    }
    var parts := Split(b64Annotations);
    var errs := "";
    for i := 0 to |parts|
      invariant UnwrapParts(b, w, parts, "") == UnwrapParts(b, w, parts[i..], errs)
    {
      var annotation;
      match b.decode(parts[i]) {
        case None => return Failure(BadBase64);
        case Some(blob) => annotation := blob;
      }
      match w.unwrap(annotation) {
        case Failure(e) => errs := errs + e;
        case Success(optsData) => return Success(optsData);
      }
    }
    return Failure(NoSuitableKey(errs));
  }

  /**
   * Of a list of wrapped blobs, the payload of the first that unwraps comes back; and there is
   * a failure exactly when none does.
   */
  lemma {:induction false} FirstThatUnwraps(b: Base64, w: KeyWrapper, blobs: seq<Blob>, errs: string)
    requires b.Lawful()
    ensures FirstUnwrapped(w, blobs, UnwrapParts(b, w, Encoded(b, blobs), errs))
    decreases |blobs|
  {
    if blobs != [] {
      assert Encoded(b, blobs)[1..] == Encoded(b, blobs[1..]);
      match w.unwrap(blobs[0])
      case Success(_) =>
        assert UnwrapsAt(w, blobs, 0, w.unwrap(blobs[0]).value);
      case Failure(e) =>
        FirstThatUnwraps(b, w, blobs[1..], errs + e);
        FirstOfRest(w, blobs, UnwrapParts(b, w, Encoded(b, blobs[1..]), errs + e));
    }
  }

  /** `payload` is what blob `i` unwraps to, and no earlier blob unwraps. */
  ghost predicate UnwrapsAt(w: KeyWrapper, blobs: seq<Blob>, i: nat, payload: Blob) {
    i < |blobs| && w.unwrap(blobs[i]) == Success(payload) && forall j :: 0 <= j < i ==> w.unwrap(blobs[j]).Failure?
  }

  ghost predicate FirstUnwrapped(w: KeyWrapper, blobs: seq<Blob>, r: Result<Blob, WrapError>) {
    && (r.Failure? <==> forall i :: 0 <= i < |blobs| ==> w.unwrap(blobs[i]).Failure?)
    && (r.Success? ==> exists i :: UnwrapsAt(w, blobs, i, r.value))
  }

  lemma FirstOfRest(w: KeyWrapper, blobs: seq<Blob>, r: Result<Blob, WrapError>)
    requires blobs != [] && w.unwrap(blobs[0]).Failure? && FirstUnwrapped(w, blobs[1..], r)
    ensures FirstUnwrapped(w, blobs, r)
  {
    assert forall i :: 0 < i < |blobs| ==> blobs[i] == blobs[1..][i - 1];
    if r.Success? {
      var i: nat :| UnwrapsAt(w, blobs[1..], i, r.value);
      assert UnwrapsAt(w, blobs, i + 1, r.value);
    } else {
      forall i | 0 <= i < |blobs|
        ensures w.unwrap(blobs[i]).Failure?
      {
        assert i > 0 ==> w.unwrap(blobs[1..][i - 1]).Failure?;
      }
    }
  }

  /** Wrapping for a chain of recipients and unwrapping again, end to end. */
  lemma WrapThenUnwrap(b: Base64, ws: seq<KeyWrapper>, optsData: Blob, w: KeyWrapper, annotations: string)
    returns (blobs: seq<Blob>)
    requires b.Lawful() && ws != [] && WrapChain(b, ws, optsData) == Success(annotations)
    ensures annotations != "" && |blobs| == |ws|
    ensures forall i :: 0 <= i < |ws| ==> ws[i].wrap(optsData) == Some(blobs[i])
    ensures FirstUnwrapped(w, blobs, UnwrapParts(b, w, Split(annotations), ""))
  {
    blobs := ChainSplits(b, ws, optsData);
    FirstThatUnwraps(b, w, blobs, "");
  }
}
