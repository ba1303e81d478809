/** Which layers of an image are pulled, what is remembered of them, and how they are mounted. */
module ImageMeta {
  import opened Results

  datatype Descriptor = Descriptor(digest: string, mediaType: string)

  datatype LayerMeta = LayerMeta(
    compressedDigest: string,
    uncompressedDigest: string,
    storePath: string,
    encrypted: bool)

  datatype MetaError = DiffIdCountMismatch

  /** `i` is the first layer with its digest. */
  predicate IsFirst(layers: seq<Descriptor>, i: nat)
    requires i < |layers|
  {
    forall j :: 0 <= j < i ==> layers[j].digest != layers[i].digest
  }

  /** The indices below `n` of first occurrences, in order. */
  function Firsts(layers: seq<Descriptor>, n: nat): (ks: seq<nat>)
    requires n <= |layers|
    ensures forall i :: 0 <= i < |ks| ==> ks[i] < n
  {
    if n == 0 then []
    else if IsFirst(layers, n - 1) then Firsts(layers, n - 1) + [n - 1]
    else Firsts(layers, n - 1)
  }

  function Pick<T>(s: seq<T>, ks: seq<nat>): (r: seq<T>)
    requires forall i :: 0 <= i < |ks| ==> ks[i] < |s|
    ensures |r| == |ks| && forall i :: 0 <= i < |ks| ==> r[i] == s[ks[i]]
  {
    seq(|ks|, i requires 0 <= i < |ks| => s[ks[i]])
  }

  predicate Increasing(ks: seq<nat>) {
    forall i, j :: 0 <= i < j < |ks| ==> ks[i] < ks[j]
  }

  lemma {:induction false} FirstsIncrease(layers: seq<Descriptor>, n: nat)
    requires n <= |layers|
    ensures Increasing(Firsts(layers, n))
  {
    if n > 0 {
      FirstsIncrease(layers, n - 1);
    }
  }

  /** They are exactly the indices of first occurrences. */
  lemma {:induction false} FirstsAre(layers: seq<Descriptor>, n: nat, k: nat)
    requires n <= |layers|
    ensures k in Firsts(layers, n) <==> k < n && IsFirst(layers, k)
  {
    if n > 0 {
      FirstsAre(layers, n - 1, k);
    }
  }

  /** Every layer's digest is that of some first occurrence. */
  lemma {:induction false} FirstExists(layers: seq<Descriptor>, i: nat) returns (k: nat)
    requires i < |layers|
    ensures k <= i && IsFirst(layers, k) && layers[k].digest == layers[i].digest
    decreases i
  {
    if IsFirst(layers, i) {
      k := i;
    } else {
      var j :| 0 <= j < i && layers[j].digest == layers[i].digest;
      k := FirstExists(layers, j);
    }
  }

  /** The selection of `create_image_meta`: the layers and diff ids to pull. */
  method CreateImageMeta(layers: seq<Descriptor>, diffIds: seq<string>)
    returns (r: Result<(seq<Descriptor>, seq<string>), MetaError>)
    ensures r.Failure? <==> |layers| != |diffIds|
    ensures r.Success? ==>
              var ks := Firsts(layers, |layers|);
              r.value == (Pick(layers, ks), Pick(diffIds, ks))
  {
    if |diffIds| != |layers| {
      return Failure(DiffIdCountMismatch);
    }
    var uniqueLayers: seq<Descriptor> := [];
    var uniqueDiffIds: seq<string> := [];
    var digests: set<string> := {};
    for i := 0 to |diffIds|
      invariant uniqueLayers == Pick(layers, Firsts(layers, i)) && uniqueDiffIds == Pick(diffIds, Firsts(layers, i))
      invariant forall d :: d in digests <==> exists j :: 0 <= j < i && layers[j].digest == d
    {
      if layers[i].digest in digests {
        continue;
      }
      digests := digests + {layers[i].digest};
      uniqueLayers := uniqueLayers + [layers[i]];
      uniqueDiffIds := uniqueDiffIds + [diffIds[i]];
    }
    return Success((uniqueLayers, uniqueDiffIds));
  }

  /**
   * What that selection is: a subsequence in manifest order, without repeated digests, with the
   * same set of digests, and with every kept diff id still beside its own layer.
   */
  lemma UniqueLayers(layers: seq<Descriptor>, diffIds: seq<string>)
    requires |layers| == |diffIds|
    ensures var ks := Firsts(layers, |layers|);
            var unique, ids := Pick(layers, ks), Pick(diffIds, ks);
            && Increasing(ks) && |unique| == |ids| == |ks|
            && (forall i :: 0 <= i < |ks| ==> unique[i] == layers[ks[i]] && ids[i] == diffIds[ks[i]])
            && NoRepeats(unique)
            && (forall i, j :: 0 <= i < |ks| && 0 <= j < ks[i] ==> layers[j].digest != layers[ks[i]].digest)
            && (forall i :: 0 <= i < |layers| ==> exists k :: 0 <= k < |unique| && unique[k].digest == layers[i].digest)
  {
    var ks := Firsts(layers, |layers|);
    var unique := Pick(layers, ks);
    FirstsIncrease(layers, |layers|);
    forall i, j | 0 <= i < j < |unique|
      ensures unique[i].digest != unique[j].digest
    {
      FirstsAre(layers, |layers|, ks[j]);
      assert ks[j] in ks && IsFirst(layers, ks[j]) && ks[i] < ks[j];
    }
    forall i, j | 0 <= i < |ks| && 0 <= j < ks[i]
      ensures layers[j].digest != layers[ks[i]].digest
    {
      FirstsAre(layers, |layers|, ks[i]);
      assert ks[i] in ks && IsFirst(layers, ks[i]);
    }
    forall i | 0 <= i < |layers|
      ensures exists k :: 0 <= k < |unique| && unique[k].digest == layers[i].digest
    {
      var first := FirstExists(layers, i);
      FirstsAre(layers, |layers|, first);
      assert first in ks;
      var k :| 0 <= k < |ks| && ks[k] == first;
      assert unique[k].digest == layers[i].digest;
    }
  }

  predicate NoRepeats(layers: seq<Descriptor>) {
    forall i, j :: 0 <= i < j < |layers| ==> layers[i].digest != layers[j].digest
  }

  /** The mount order of `create_bundle`: the last layer first. */
  method LayerPaths(metas: seq<LayerMeta>) returns (paths: seq<string>)
    ensures |paths| == |metas|
    ensures forall i :: 0 <= i < |metas| ==> paths[i] == metas[|metas| - 1 - i].storePath
  {
    paths := [];
    for i := 0 to |metas|
      invariant |paths| == i
      invariant forall k :: 0 <= k < i ==> paths[k] == metas[|metas| - 1 - k].storePath
    {
      paths := paths + [metas[|metas| - 1 - i].storePath];
    }
  }
}
