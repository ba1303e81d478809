/**
 * The crypto agile log entry (TCG PC Client Platform Firmware Profile, section 10.2.2)
 * and the agent events wrapped in it.
 */
module Tcg2 {
  import opened Results
  import opened ByteCodec
  import opened AaelEvent

  datatype HashAlgorithm = Sha256 | Sha384 | Sha512 | Sm3 {
    function DigestLen(): (n: nat)
      ensures 32 <= n <= 64
    {
      match this
      case Sha256 => 32
      case Sha384 => 48
      case Sha512 => 64
      case Sm3 => 32
    }

    function TcgId(): (id: nat)
      ensures id < 0x1_0000
    {
      match this
      case Sha256 => 0xB
      case Sha384 => 0xC
      case Sha512 => 0xD
      case Sm3 => 0x12
    }
  }

  /**
   * What the attester supplies: the platform's algorithm, its hash as an arbitrary function
   * of that output length, and the measurement register the configured PCR maps to.
   */
  datatype Platform = Platform(alg: HashAlgorithm, hash: Bytes -> Bytes, register: u32) {
    ghost predicate Valid() {
      forall x :: |hash(x)| == alg.DigestLen()
    }
  }

  datatype ElDigest = ElDigest(alg: HashAlgorithm, digest: Bytes)

  datatype Tcg2EventEntry = Tcg2EventEntry(
    targetRegister: u32,
    eventType: u32,
    digestCount: u32,
    digests: seq<ElDigest>,
    dataLength: u32,
    data: Bytes)

  const EV_EVENT_TAG_TYPE: u32 := 0x6
  const AAEL_TAGGED_EVENT_ID: u32 := 0x4141454c

  // ---------- printing ----------

  function DigestBytes(d: ElDigest): (r: Bytes)
    ensures |r| == 2 + |d.digest|
  {
    LeBytes(d.alg.TcgId(), 2) + d.digest
  }

  function DigestListBytes(ds: seq<ElDigest>): Bytes {
    if ds == [] then [] else DigestBytes(ds[0]) + DigestListBytes(ds[1..])
  }

  function EntryBytes(e: Tcg2EventEntry): Bytes {
    Le32(e.targetRegister) + Le32(e.eventType) + Le32(e.digestCount) +
    DigestListBytes(e.digests) + Le32(e.dataLength) + e.data
  }

  function PrintEntries(es: seq<Tcg2EventEntry>): Bytes {
    if es == [] then [] else EntryBytes(es[0]) + PrintEntries(es[1..])
  }

  lemma {:induction false} DigestListSnoc(ds: seq<ElDigest>, d: ElDigest)
    ensures DigestListBytes(ds + [d]) == DigestListBytes(ds) + DigestBytes(d)
  {
    if ds == [] {
      assert [d][1..] == [] && [] + [d] == [d];
    } else {
      assert (ds + [d])[1..] == ds[1..] + [d];
      DigestListSnoc(ds[1..], d);
    }
  }

  lemma {:induction false} PrintConcat(xs: seq<Tcg2EventEntry>, ys: seq<Tcg2EventEntry>)
    ensures PrintEntries(xs + ys) == PrintEntries(xs) + PrintEntries(ys)
  {
    if xs == [] {
      assert xs + ys == ys;
    } else {
      assert (xs + ys)[1..] == xs[1..] + ys;
      PrintConcat(xs[1..], ys);
    }
  }

  /** The serializer: fixed fields around a loop over the digest list. */
  method ToLeBytes(e: Tcg2EventEntry) returns (bytes: Bytes)
    ensures bytes == EntryBytes(e)
  {
    bytes := [];
    bytes := bytes + Le32(e.targetRegister);
    bytes := bytes + Le32(e.eventType);
    bytes := bytes + Le32(e.digestCount);
    ghost var front := bytes;
    for i := 0 to |e.digests|
      invariant bytes == front + DigestListBytes(e.digests[..i])
    {
      bytes := bytes + DigestBytes(e.digests[i]);
      DigestListSnoc(e.digests[..i], e.digests[i]);
      assert e.digests[..i + 1] == e.digests[..i] + [e.digests[i]];
    }
    assert e.digests[..|e.digests|] == e.digests;
    bytes := bytes + Le32(e.dataLength);
    bytes := bytes + e.data;
  }

  // ---------- agent events as entries ----------

  function TaggedBytes(text: Bytes): (r: Bytes)
    ensures |r| == |text| + 8
  {
    Le32(AAEL_TAGGED_EVENT_ID) + Le32(AsU32(|text|)) + text
  }

  /** `From<Event>`, with the register default and the empty digest list. */
  function FromEvent(e: Event): Tcg2EventEntry {
    var data := TaggedBytes(Print(e));
    Tcg2EventEntry(1, EV_EVENT_TAG_TYPE, 0, [], AsU32(|data|), data)
  }

  function WithTargetRegister(e: Tcg2EventEntry, register: u32): Tcg2EventEntry {
    e.(targetRegister := register)
  }

  function WithDigest(p: Platform, e: Tcg2EventEntry): (Tcg2EventEntry, Bytes) {
    var digest := p.hash(e.data);
    (e.(digestCount := 1, digests := [ElDigest(p.alg, digest)]), digest)
  }

  function SerializeEvent(p: Platform, e: Event): (Bytes, Bytes) {
    var (entry, digest) := WithDigest(p, WithTargetRegister(FromEvent(e), p.register));
    (EntryBytes(entry), digest)
  }

  /** The measured digest and the log entry, as functions of the text alone. */
  function TextDigest(p: Platform, text: Bytes): Bytes {
    p.hash(TaggedBytes(text))
  }

  function TextEntry(p: Platform, text: Bytes): Tcg2EventEntry {
    Tcg2EventEntry(p.register, EV_EVENT_TAG_TYPE, 1, [ElDigest(p.alg, TextDigest(p, text))],
                   AsU32(|text| + 8), TaggedBytes(text))
  }

  function TextBytes(p: Platform, text: Bytes): (r: Bytes)
    ensures |r| > |text|
  {
    EntryBytes(TextEntry(p, text))
  }

  lemma SerializeUsesTextOnly(p: Platform, e: Event)
    ensures SerializeEvent(p, e) == (TextBytes(p, Print(e)), TextDigest(p, Print(e)))
  {
  }

  /** Reading an event back never changes what is logged or measured for it. */
  lemma ReparsePreservesEntry(p: Platform, e: Event)
    requires ParseEvent(Print(e)).Success?
    ensures SerializeEvent(p, ParseEvent(Print(e)).value) == SerializeEvent(p, e)
    ensures Print(ParseEvent(Print(e)).value) == Print(e)
  {
    PrintParsed(Print(e));
    SerializeUsesTextOnly(p, e);
    SerializeUsesTextOnly(p, ParseEvent(Print(e)).value);
  }

  // ---------- entries as the standard has them ----------

  predicate WfDigest(d: ElDigest) {
    |d.digest| == d.alg.DigestLen()
  }

  /** Counts and lengths say what follows them. */
  predicate WfEntry(e: Tcg2EventEntry) {
    e.digestCount == |e.digests| && e.dataLength == |e.data| && forall d <- e.digests :: WfDigest(d)
  }

  predicate WfEntries(es: seq<Tcg2EventEntry>) {
    forall e <- es :: WfEntry(e)
  }

  /** The event data of an entry: the bytes "LEAA", little endian for the tag, the length, the text. */
  lemma TaggedReadsBack(text: Bytes)
    ensures var data := TaggedBytes(text);
            && data[..4] == [0x4c, 0x45, 0x41, 0x41] && data[8..] == text
            && FromLe(data[4..8]) == |text| % TWO_TO_THE_32
  {
    var data, size := TaggedBytes(text), Le32(AsU32(|text|));
    assert data[..4] == Le32(AAEL_TAGGED_EVENT_ID) && data[4..8] == size;
    Le32RoundTrip(AsU32(|text|));
    assert Le32(AAEL_TAGGED_EVENT_ID) == [0x4c] + LeBytes(0x414145, 3);
  }

  /** Truncating the length to 32 bits is what makes an over-long event ill-formed. */
  lemma TextEntryWellFormedIff(p: Platform, text: Bytes)
    requires p.Valid()
    ensures WfEntry(TextEntry(p, text)) <==> |text| + 8 < TWO_TO_THE_32
  {
    var d := ElDigest(p.alg, TextDigest(p, text));
    assert WfDigest(d);
  }

  lemma DigestPrefix(d1: ElDigest, x: Bytes, d2: ElDigest, y: Bytes)
    requires WfDigest(d1) && WfDigest(d2)
    requires DigestBytes(d1) + x == DigestBytes(d2) + y
    ensures d1 == d2 && x == y
  {
    var i1, i2 := LeBytes(d1.alg.TcgId(), 2), LeBytes(d2.alg.TcgId(), 2);
    assert i1 + (d1.digest + x) == DigestBytes(d1) + x;
    assert i2 + (d2.digest + y) == DigestBytes(d2) + y;
    SplitSame(i1, d1.digest + x, i2, d2.digest + y);
    LeRoundTrip(d1.alg.TcgId(), 2);
    LeRoundTrip(d2.alg.TcgId(), 2);
    assert d1.alg == d2.alg;
    SplitSame(d1.digest, x, d2.digest, y);
  }

  lemma {:induction false} DigestListPrefix(ds1: seq<ElDigest>, x: Bytes, ds2: seq<ElDigest>, y: Bytes)
    requires |ds1| == |ds2|
    requires (forall d <- ds1 :: WfDigest(d)) && (forall d <- ds2 :: WfDigest(d))
    requires DigestListBytes(ds1) + x == DigestListBytes(ds2) + y
    ensures ds1 == ds2 && x == y
  {
    if ds1 != [] {
      var t1, t2 := DigestListBytes(ds1[1..]), DigestListBytes(ds2[1..]);
      assert DigestBytes(ds1[0]) + (t1 + x) == DigestListBytes(ds1) + x;
      assert DigestBytes(ds2[0]) + (t2 + y) == DigestListBytes(ds2) + y;
      DigestPrefix(ds1[0], t1 + x, ds2[0], t2 + y);
      DigestListPrefix(ds1[1..], x, ds2[1..], y);
      assert ds1 == [ds1[0]] + ds1[1..] && ds2 == [ds2[0]] + ds2[1..];
    } else {
      assert [] + x == x && [] + y == y;
    }
  }

  lemma Le32Prefix(m: u32, x: Bytes, n: u32, y: Bytes)
    requires Le32(m) + x == Le32(n) + y
    ensures m == n && x == y
  {
    SplitSame(Le32(m), x, Le32(n), y);
    Le32Injective(m, n);
  }

  /** Entries are self-delimiting: no well-formed entry is a proper prefix of another. */
  lemma EntryPrefix(e1: Tcg2EventEntry, x: Bytes, e2: Tcg2EventEntry, y: Bytes)
    requires WfEntry(e1) && WfEntry(e2)
    requires EntryBytes(e1) + x == EntryBytes(e2) + y
    ensures e1 == e2 && x == y
  {
    var r1 := EntryRest(e1, x);
    var r2 := EntryRest(e2, y);
    Le32Prefix(e1.targetRegister, r1.0, e2.targetRegister, r2.0);
    Le32Prefix(e1.eventType, r1.1, e2.eventType, r2.1);
    Le32Prefix(e1.digestCount, r1.2, e2.digestCount, r2.2);
    DigestListPrefix(e1.digests, r1.3, e2.digests, r2.3);
    Le32Prefix(e1.dataLength, e1.data + x, e2.dataLength, e2.data + y);
    SplitSame(e1.data, x, e2.data, y);
  }

  /** What follows each field of an entry that is itself followed by `x`. */
  function EntryRest(e: Tcg2EventEntry, x: Bytes): (r: (Bytes, Bytes, Bytes, Bytes))
    ensures r.3 == Le32(e.dataLength) + (e.data + x)
    ensures r.2 == DigestListBytes(e.digests) + r.3
    ensures r.1 == Le32(e.digestCount) + r.2
    ensures r.0 == Le32(e.eventType) + r.1
    ensures EntryBytes(e) + x == Le32(e.targetRegister) + r.0
  {
    var r3 := Le32(e.dataLength) + (e.data + x);
    var r2 := DigestListBytes(e.digests) + r3;
    var r1 := Le32(e.digestCount) + r2;
    var r0 := Le32(e.eventType) + r1;
    EntryRegroup(Le32(e.targetRegister), Le32(e.eventType), Le32(e.digestCount), DigestListBytes(e.digests),
                 Le32(e.dataLength), e.data, x);
    (r0, r1, r2, r3)
  }

  lemma EntryRegroup(a: Bytes, b: Bytes, c: Bytes, d: Bytes, e: Bytes, f: Bytes, x: Bytes)
    ensures a + b + c + d + e + f + x == a + (b + (c + (d + (e + (f + x)))))
  {
    assert a + b + c + d + e + f + x == a + b + c + d + e + (f + x);
    assert a + b + c + d + e + (f + x) == a + b + c + d + (e + (f + x));
    assert a + b + c + d + (e + (f + x)) == a + b + c + (d + (e + (f + x)));
    assert a + b + c + (d + (e + (f + x))) == a + b + (c + (d + (e + (f + x))));
  }

  /** The offsets of the fields of an entry standing at `i`, in both directions. */
  lemma EntryAt(c: Bytes, i: nat, e: Tcg2EventEntry)
    ensures var j := i + 12 + |DigestListBytes(e.digests)|;
            At(c, i, EntryBytes(e)) <==>
            At(c, i, Le32(e.targetRegister)) && At(c, i + 4, Le32(e.eventType)) &&
            At(c, i + 8, Le32(e.digestCount)) && At(c, i + 12, DigestListBytes(e.digests)) &&
            At(c, j, Le32(e.dataLength)) && At(c, j + 4, e.data)
  {
    hide At, EntryBytes, DigestListBytes;
    var (r0, r1, r2, r3) := EntryRest(e, []);
    assert EntryBytes(e) + [] == EntryBytes(e) && e.data + [] == e.data;
    AtConcat(c, i, Le32(e.targetRegister), r0);
    AtConcat(c, i + 4, Le32(e.eventType), r1);
    AtConcat(c, i + 8, Le32(e.digestCount), r2);
    AtConcat(c, i + 12, DigestListBytes(e.digests), r3);
    AtConcat(c, i + 12 + |DigestListBytes(e.digests)|, Le32(e.dataLength), e.data);
  }

  /** A log is the printout of at most one list of entries. */
  lemma {:induction false} PrintInjective(xs: seq<Tcg2EventEntry>, ys: seq<Tcg2EventEntry>)
    requires WfEntries(xs) && WfEntries(ys)
    requires PrintEntries(xs) == PrintEntries(ys)
    ensures xs == ys
  {
    if xs == [] || ys == [] {
      NonEmptyPrints(xs);
      NonEmptyPrints(ys);
    } else {
      EntryPrefix(xs[0], PrintEntries(xs[1..]), ys[0], PrintEntries(ys[1..]));
      PrintInjective(xs[1..], ys[1..]);
      assert xs == [xs[0]] + xs[1..] && ys == [ys[0]] + ys[1..];
    }
  }

  lemma NonEmptyPrints(es: seq<Tcg2EventEntry>)
    ensures es == [] <==> PrintEntries(es) == []
  {
    if es != [] {
      assert |EntryBytes(es[0])| >= 16;
    }
  }

  // ---------- the bytes of an agent event, one by one ----------

  /** Identifier and length of each algorithm's digests. */
  predicate AlgorithmFields(alg: HashAlgorithm, id: Bytes, n: nat) {
    match alg
    case Sha256 => id == [0x0B, 0] && n == 32
    case Sha384 => id == [0x0C, 0] && n == 48
    case Sha512 => id == [0x0D, 0] && n == 64
    case Sm3 => id == [0x12, 0] && n == 32
  }

  lemma AlgorithmFieldsAre(alg: HashAlgorithm)
    ensures AlgorithmFields(alg, LeBytes(alg.TcgId(), 2), alg.DigestLen())
  {
    var id := alg.TcgId();
    assert LeBytes(id, 2) == [id % 256] + LeBytes(id / 256, 1);
    assert LeBytes(id / 256, 1) == [id / 256 % 256];
  }

  /**
   * `b` logs the event with this text in the platform's register: type 6, one digest of `n` bytes,
   * which is that of the event data; then the data, with its tag, both lengths cut to 32 bits.
   */
  predicate LogsText(p: Platform, b: Bytes, n: nat, text: Bytes) {
    && |b| == 26 + n + |text|
    && FromLe(b[..4]) == p.register && b[4..8] == [6, 0, 0, 0] && b[8..12] == [1, 0, 0, 0]
    && AlgorithmFields(p.alg, b[12..14], n) && b[14..14 + n] == p.hash(b[18 + n..])
    && FromLe(b[14 + n..18 + n]) == (|text| + 8) % TWO_TO_THE_32
    && b[18 + n..22 + n] == [0x4c, 0x45, 0x41, 0x41] && FromLe(b[22 + n..26 + n]) == |text| % TWO_TO_THE_32
    && b[26 + n..] == text
  }

  /** Every byte of what the serializer gives for an event, and the digest it is measured with. */
  lemma SerializedEvent(p: Platform, e: Event)
    requires p.Valid()
    ensures var (b, digest) := SerializeEvent(p, e);
            LogsText(p, b, |digest|, Print(e)) && b[14..14 + |digest|] == digest
  {
    SerializeUsesTextOnly(p, e);
    TextLogged(p, Print(e));
  }

  lemma TextLogged(p: Platform, text: Bytes)
    requires p.Valid()
    ensures LogsText(p, TextBytes(p, text), p.alg.DigestLen(), text)
    ensures TextBytes(p, text)[14..14 + p.alg.DigestLen()] == TextDigest(p, text)
  {
    var b, n, data := TextBytes(p, text), p.alg.DigestLen(), TaggedBytes(text);
    TextFields(p, text);
    assert b[18 + n..] == data;
    assert b[18 + n..22 + n] == data[..4] && b[22 + n..26 + n] == data[4..8] && b[26 + n..] == data[8..];
    TaggedReadsBack(text);
  }

  lemma TextFields(p: Platform, text: Bytes)
    requires p.Valid()
    ensures var b, n := TextBytes(p, text), p.alg.DigestLen();
            && |b| == 26 + n + |text|
            && FromLe(b[..4]) == p.register && b[4..8] == [6, 0, 0, 0] && b[8..12] == [1, 0, 0, 0]
            && AlgorithmFields(p.alg, b[12..14], n) && b[14..14 + n] == TextDigest(p, text)
            && FromLe(b[14 + n..18 + n]) == (|text| + 8) % TWO_TO_THE_32
            && At(b, 18 + n, TaggedBytes(text))
  {
    hide LeBytes, FromLe, DigestListBytes, TaggedBytes;
    var b, n, e := TextBytes(p, text), p.alg.DigestLen(), TextEntry(p, text);
    assert b[..|b|] == b && At(b, 0, EntryBytes(e));
    EntryAt(b, 0, e);
    assert e.digests == [e.digests[0]];
    OneDigestAt(b, 12, e.digests[0]);
    Le32RoundTrip(p.register);
    Le32RoundTrip(AsU32(|text| + 8));
    SmallLe32(6);
    SmallLe32(1);
  }

  lemma OneDigestAt(b: Bytes, i: nat, d: ElDigest)
    requires At(b, i, DigestListBytes([d])) && WfDigest(d)
    ensures |DigestListBytes([d])| == 2 + |d.digest| && i + 2 + |d.digest| <= |b|
    ensures AlgorithmFields(d.alg, b[i..i + 2], |d.digest|) && b[i + 2..i + 2 + |d.digest|] == d.digest
  {
    assert DigestListBytes([d]) == DigestBytes(d) + [];
    AtConcat(b, i, LeBytes(d.alg.TcgId(), 2), d.digest);
    AlgorithmFieldsAre(d.alg);
  }

  lemma SmallLe32(n: byte)
    ensures Le32(n) == [n, 0, 0, 0]
  {
    assert LeBytes(0, 3) == [0] + LeBytes(0, 2) && LeBytes(0, 2) == [0] + LeBytes(0, 1) && LeBytes(0, 1) == [0];
  }
}
