/** Trimming the firmware log at its stop flag, and joining it with the agent log. */
module Ccel {
  import opened Results
  import opened ByteCodec
  import opened Tcg2

  datatype CcelError =
    | NotEnoughLength | NoEndFlag | NoDigestLength | NoDigestAlgorithm
    | UnsupportedDigestAlgorithm | NoEventDataSize

  const EV_NO_ACTION: u32 := 0x3

  /** The largest length of a Rust vector, and the range of its indices. */
  const ISIZE_MAX: nat := 0x7FFF_FFFF_FFFF_FFFF

  /**
   * The fixed header for agents without a firmware log: an EV_NO_ACTION entry in register 0
   * whose 37 bytes of data name the digest sizes of sha384 and sm3.
   */
  const EL_HEADER_ENTRY: Header :=
    NoAction([0, 0, 0, 0], Zeros(20),
             Zeros(24) + [0x02, 0, 0, 0, 0x0C, 0, 0x30, 0, 0x12, 0, 0x20, 0, 0])

  const EL_HEADER: Bytes := HeaderBytes(EL_HEADER_ENTRY)

  /** Its 69 bytes. */
  lemma FixedHeader()
    ensures |EL_HEADER| == 69 && WfHeader(EL_HEADER_ENTRY)
    ensures EL_HEADER[..4] == [0, 0, 0, 0] && EL_HEADER[4..8] == [3, 0, 0, 0] && EL_HEADER[8..28] == Zeros(20)
    ensures EL_HEADER[28..32] == [0x25, 0, 0, 0] && EL_HEADER[32..56] == Zeros(24)
    ensures EL_HEADER[56..] == [0x02, 0, 0, 0, 0x0C, 0, 0x30, 0, 0x12, 0, 0x20, 0, 0]
  {
    SmallLe32(3);
    SmallLe32(0x25);
    var sizes: Bytes := [0x02, 0, 0, 0, 0x0C, 0, 0x30, 0, 0x12, 0, 0x20, 0, 0];
    assert EL_HEADER_ENTRY.data == Zeros(24) + sizes;
    assert EL_HEADER == [0, 0, 0, 0] + [3, 0, 0, 0] + Zeros(20) + [0x25, 0, 0, 0] + (Zeros(24) + sizes);
  }

  const EL_END_FLAG: Bytes := [0xFF, 0xFF, 0xFF, 0xFF, 0xFF, 0xFF, 0xFF, 0xFF]

  predicate IsStopFlag(flag: Bytes) {
    |flag| == 8 && (AllAre(flag, 0xFF) || AllAre(flag, 0))
  }

  /** The stop test compares the flag as a 64-bit number. */
  lemma StopFlagValue(flag: Bytes)
    requires |flag| == 8
    ensures IsStopFlag(flag) <==> FromLe(flag) == 0xFFFF_FFFF_FFFF_FFFF || FromLe(flag) == 0
  {
    ExtremeValues(flag);
    assert Pow256(8) == TWO_TO_THE_64;
  }

  predicate StopAt(c: Bytes, i: nat) {
    i + 8 <= |c| && IsStopFlag(c[i..i + 8])
  }

  function U32At(c: Bytes, i: nat): u32
    requires i + 4 <= |c|
  {
    assert Pow256(4) == TWO_TO_THE_32;
    FromLe(c[i..i + 4])
  }

  /** The parser's own table of digest lengths. */
  function DigestLength(digestType: nat): (r: Option<nat>)
    ensures r.Some? ==> 32 <= r.value <= 64
  {
    match digestType
    case 0xB => Some(0x20)
    case 0xC => Some(0x30)
    case 0xD => Some(0x40)
    case 0x12 => Some(0x20)
    case _ => None
  }

  // ---------- the walk, as functions ----------

  /** Where the digest list of `n` digests starting at `i` ends. */
  function SkipDigests(c: Bytes, i: nat, n: nat): (r: Result<nat, CcelError>)
    ensures r.Success? ==> r.value == i || i + 34 <= r.value <= |c| + 64
    decreases n
  {
    if n == 0 then Success(i)
    else if |c| < i + 2 then Failure(NoDigestAlgorithm)
    else
      match DigestLength(FromLe(c[i..i + 2]))
      case None => Failure(UnsupportedDigestAlgorithm)
      case Some(length) => SkipDigests(c, i + 2 + length, n - 1)
  }

  /** Where the entry starting at `i` ends: past at least sixteen bytes, and within reach of an index. */
  function SkipEntry(c: Bytes, i: nat): (r: Result<nat, CcelError>)
    requires i + 8 <= |c|
    ensures r.Success? ==> i + 16 <= r.value < |c| + TWO_TO_THE_32
  {
    if |c| < i + 12 then Failure(NoDigestLength)
    else
      match SkipDigests(c, i + 12, U32At(c, i + 8))
      case Failure(error) => Failure(error)
      case Success(j) => if |c| < j + 4 then Failure(NoEventDataSize) else Success(j + 4 + U32At(c, j))
  }

  /** Where the stop flag is, walking entries from `i`. */
  function WalkFrom(c: Bytes, i: nat): (r: Result<nat, CcelError>)
    ensures r.Success? ==> i <= r.value && StopAt(c, r.value)
    decreases if i <= |c| then |c| - i else 0
  {
    if |c| < i + 8 then Failure(NoEndFlag)
    else if StopAt(c, i) then Success(i)
    else
      match SkipEntry(c, i)
      case Failure(error) => Failure(error)
      case Success(j) => WalkFrom(c, j)
  }

  /** Where the first entry, which has its own shape, ends. */
  function SkipHeader(c: Bytes): (r: Result<nat, CcelError>)
    ensures r.Success? ==> 28 <= r.value && (r.value == 28 || r.value < |c| + TWO_TO_THE_32)
  {
    if |c| < 8 then Failure(NotEnoughLength)
    else if U32At(c, 4) != EV_NO_ACTION then Success(28)
    else if |c| < 32 then Failure(NotEnoughLength)
    else Success(32 + U32At(c, 28))
  }

  function Walk(c: Bytes): (r: Result<nat, CcelError>)
    ensures r.Success? ==> 28 <= r.value && StopAt(c, r.value)
  {
    match SkipHeader(c)
    case Failure(error) => Failure(error)
    case Success(i) => WalkFrom(c, i)
  }

  /** A success is a prefix of the input that stops just before a stop flag. */
  function Trim(c: Bytes): (r: Result<Bytes, CcelError>)
    ensures r.Success? ==> 28 <= |r.value| && StopAt(c, |r.value|) && r.value == c[..|r.value|]
  {
    match Walk(c)
    case Failure(error) => Failure(error)
    case Success(end) => Success(c[..end])
  }

  /** The loop over one digest list. */
  method TrimDigests(ccel: Bytes, start: u64, digestsLength: u32) returns (r: Result<u64, CcelError>)
    requires start <= |ccel| <= ISIZE_MAX
    ensures r == SkipDigests(ccel, start, digestsLength)
  {
    var index: u64 := start;
    for n := 0 to digestsLength
      invariant SkipDigests(ccel, start, digestsLength) == SkipDigests(ccel, index, digestsLength - n)
      invariant index <= |ccel| + 64
    {
      if |ccel| < index + 2 {
        return Failure(NoDigestAlgorithm);
      }
      var digestType := FromLe(ccel[index..index + 2]);
      index := index + 2;
      match DigestLength(digestType) {
        case None => return Failure(UnsupportedDigestAlgorithm);
        case Some(length) => index := index + length;
      }
    }
    return Success(index);
  }

  /** One entry: register and type are skipped, the digests walked, the event data skipped. */
  method TrimEntry(ccel: Bytes, start: u64) returns (r: Result<u64, CcelError>)
    requires start + 8 <= |ccel| <= ISIZE_MAX
    ensures r == SkipEntry(ccel, start)
  {
    var index: u64 := start + 8;
    if |ccel| < index + 4 {
      return Failure(NoDigestLength);
    }
    var digestsLength := U32At(ccel, index);
    index := index + 4;
    var digests := TrimDigests(ccel, index, digestsLength);
    match digests {
      case Failure(error) => return Failure(error);
      case Success(end) => index := end;
    }
    if |ccel| < index + 4 {
      return Failure(NoEventDataSize);
    }
    var eventDataSize := U32At(ccel, index);
    index := index + 4;
    index := index + eventDataSize;
    return Success(index);
  }

  /** The first entry: of its event type, and of its event data when it is EV_NO_ACTION. */
  method TrimHeader(ccel: Bytes) returns (r: Result<u64, CcelError>)
    requires |ccel| <= ISIZE_MAX
    ensures r == SkipHeader(ccel)
  {
    var index: u64 := 4;
    if |ccel| < index + 4 {
      return Failure(NotEnoughLength);
    }
    var eventType := U32At(ccel, index);
    index := index + 4;
    index := index + 20;
    if eventType == EV_NO_ACTION {
      if |ccel| < index + 4 {
        return Failure(NotEnoughLength);
      }
      var eventDataSize := U32At(ccel, index);
      index := index + 4;
      index := index + eventDataSize;
    }
    return Success(index);
  }

  /**
   * The trimming loop. Every index is a machine word, so the types alone show that none
   * overflows; every slice is shown to be in range.
   */
  method TrimCcel(ccel: Bytes) returns (r: Result<Bytes, CcelError>)
    requires |ccel| <= ISIZE_MAX
    ensures r == Trim(ccel)
  {
    var index: u64;
    var header := TrimHeader(ccel);
    match header {
      case Failure(error) => return Failure(error);
      case Success(end) => index := end;
    }
    while true
      invariant Walk(ccel) == WalkFrom(ccel, index)
      invariant index == 28 || index <= |ccel| + 0xFFFF_FFFF
      decreases if index <= |ccel| then |ccel| - index else 0
    {
      if |ccel| < index + 8 {
        return Failure(NoEndFlag);
      }
      var stopFlag := FromLe(ccel[index..index + 8]);
      StopFlagValue(ccel[index..index + 8]);
      if stopFlag == 0xFFFF_FFFF_FFFF_FFFF || stopFlag == 0 {
        return Success(ccel[..index]);
      }
      var entry := TrimEntry(ccel, index);
      match entry {
        case Failure(error) => return Failure(error);
        case Success(end) => index := end;
      }
    }
  }

  // ---------- the grammar the walk accepts ----------

  datatype Header =
    | NoAction(register: Bytes, filler: Bytes, data: Bytes)
    | Bare(bytes: Bytes)

  predicate WfHeader(h: Header) {
    match h
    case NoAction(register, filler, data) => |register| == 4 && |filler| == 20 && |data| < TWO_TO_THE_32
    case Bare(bytes) => |bytes| == 28 && bytes[4..8] != Le32(EV_NO_ACTION)
  }

  function HeaderBytes(h: Header): Bytes {
    match h
    case NoAction(register, filler, data) =>
      register + Le32(EV_NO_ACTION) + filler + Le32(AsU32(|data|)) + data
    case Bare(bytes) => bytes
  }

  /** The first eight bytes of the entry would read as a stop flag. */
  predicate LooksLikeStop(e: Tcg2EventEntry) {
    (e.targetRegister == 0 && e.eventType == 0) || (e.targetRegister == 0xFFFF_FFFF && e.eventType == 0xFFFF_FFFF)
  }

  predicate Walkable(es: seq<Tcg2EventEntry>) {
    forall e <- es :: WfEntry(e) && !LooksLikeStop(e)
  }

  /** `c` is a header, walkable entries, a stop flag and anything at all. */
  ghost predicate IsLog(c: Bytes, h: Header, es: seq<Tcg2EventEntry>, flag: Bytes, rest: Bytes) {
    WfHeader(h) && Walkable(es) && IsStopFlag(flag) && c == HeaderBytes(h) + PrintEntries(es) + flag + rest
  }

  // ---------- parser undoes printer ----------

  lemma U32Printed(c: Bytes, i: nat, n: u32)
    requires At(c, i, Le32(n))
    ensures i + 4 <= |c| && U32At(c, i) == n
  {
    Le32RoundTrip(n);
  }

  lemma {:induction false} SkipDigestsPrinted(c: Bytes, i: nat, ds: seq<ElDigest>)
    requires At(c, i, DigestListBytes(ds)) && forall d <- ds :: WfDigest(d)
    ensures SkipDigests(c, i, |ds|) == Success(i + |DigestListBytes(ds)|)
    decreases |ds|
  {
    hide At, DigestBytes, WfDigest;
    if ds != [] {
      assert ds[0] in ds;
      AtConcat(c, i, DigestBytes(ds[0]), DigestListBytes(ds[1..]));
      SkipDigest(c, i, ds[0], |ds| - 1);
      SkipDigestsPrinted(c, i + |DigestBytes(ds[0])|, ds[1..]);
    }
  }

  lemma SkipDigest(c: Bytes, i: nat, d: ElDigest, n: nat)
    requires At(c, i, DigestBytes(d)) && WfDigest(d)
    ensures SkipDigests(c, i, n + 1) == SkipDigests(c, i + |DigestBytes(d)|, n)
  {
    AtConcat(c, i, LeBytes(d.alg.TcgId(), 2), d.digest);
    LeRoundTrip(d.alg.TcgId(), 2);
  }

  /** The parser's table and the serializer's agree. */
  lemma LengthIsAlgorithms(id: nat) returns (alg: HashAlgorithm)
    requires DigestLength(id).Some?
    ensures alg.TcgId() == id && DigestLength(id) == Some(alg.DigestLen())
  {
    alg := if id == 0xB then Sha256 else if id == 0xC then Sha384 else if id == 0xD then Sha512 else Sm3;
  }

  /** One digest of a list, by the two bytes it starts with. */
  lemma SkipOneDigest(c: Bytes, i: nat, n: nat)
    requires i + 2 <= |c|
    ensures c[i..i + 2] == [0x0B, 0] || c[i..i + 2] == [0x12, 0] ==> SkipDigests(c, i, n + 1) == SkipDigests(c, i + 34, n)
    ensures c[i..i + 2] == [0x0C, 0] ==> SkipDigests(c, i, n + 1) == SkipDigests(c, i + 50, n)
    ensures c[i..i + 2] == [0x0D, 0] ==> SkipDigests(c, i, n + 1) == SkipDigests(c, i + 66, n)
    ensures c[i..i + 2] !in {[0x0B, 0], [0x0C, 0], [0x0D, 0], [0x12, 0]} ==>
              SkipDigests(c, i, n + 1) == Failure(UnsupportedDigestAlgorithm)
  {
    var id := c[i..i + 2];
    var low: int, high: int := id[0], id[1];
    assert id[1..] == [id[1]] && FromLe([id[1]]) == high + 256 * FromLe([]);
    assert FromLe(id) == low + 256 * high && id == [id[0], id[1]];
  }

  /** The digests that entries are allowed to carry, by their first two bytes. */
  lemma DigestsByBytes(d: ElDigest)
    requires WfDigest(d)
    ensures AlgorithmFields(d.alg, DigestBytes(d)[..2], |d.digest|) && DigestBytes(d)[2..] == d.digest
  {
    AlgorithmFieldsAre(d.alg);
  }

  lemma SkipEntryPrinted(c: Bytes, i: nat, e: Tcg2EventEntry)
    requires WfEntry(e) && At(c, i, EntryBytes(e))
    ensures i + 8 <= |c| && SkipEntry(c, i) == Success(i + |EntryBytes(e)|)
  {
    hide At, U32At, SkipDigests;
    var j := i + 12 + |DigestListBytes(e.digests)|;
    EntryAt(c, i, e);
    AtInRange(c, i + 8, Le32(e.digestCount));
    AtInRange(c, j, Le32(e.dataLength));
    U32Printed(c, i + 8, e.digestCount);
    SkipDigestsPrinted(c, i + 12, e.digests);
    U32Printed(c, j, e.dataLength);
  }

  lemma StopFlagIsLooksLikeStop(c: Bytes, i: nat, e: Tcg2EventEntry)
    requires At(c, i, Le32(e.targetRegister)) && At(c, i + 4, Le32(e.eventType))
    ensures StopAt(c, i) <==> LooksLikeStop(e)
  {
    var t, v := Le32(e.targetRegister), Le32(e.eventType);
    assert c[i..i + 8] == t + v;
    AllAreConcat(t, v, 0);
    AllAreConcat(t, v, 0xFF);
    ExtremeU32(e.targetRegister);
    ExtremeU32(e.eventType);
  }

  lemma ExtremeU32(n: u32)
    ensures AllAre(Le32(n), 0) <==> n == 0
    ensures AllAre(Le32(n), 0xFF) <==> n == 0xFFFF_FFFF
  {
    Le32RoundTrip(n);
    ExtremeValues(Le32(n));
    assert Pow256(4) == TWO_TO_THE_32;
  }

  lemma AllAreConcat(x: Bytes, y: Bytes, b: byte)
    ensures AllAre(x + y, b) <==> AllAre(x, b) && AllAre(y, b)
  {
    if AllAre(x + y, b) {
      assert forall k :: 0 <= k < |x| ==> x[k] == (x + y)[k];
      assert forall k :: 0 <= k < |y| ==> y[k] == (x + y)[|x| + k];
    }
  }

  lemma EntryStop(c: Bytes, i: nat, e: Tcg2EventEntry)
    requires At(c, i, EntryBytes(e))
    ensures StopAt(c, i) <==> LooksLikeStop(e)
  {
    EntryAt(c, i, e);
    StopFlagIsLooksLikeStop(c, i, e);
  }

  lemma WalkStep(c: Bytes, i: nat, e: Tcg2EventEntry)
    requires WfEntry(e) && !LooksLikeStop(e) && At(c, i, EntryBytes(e))
    ensures WalkFrom(c, i) == WalkFrom(c, i + |EntryBytes(e)|)
  {
    hide At, EntryBytes, StopAt, LooksLikeStop, SkipEntry, WfEntry;
    EntryStop(c, i, e);
    SkipEntryPrinted(c, i, e);
  }

  lemma WalkStops(c: Bytes, i: nat)
    requires StopAt(c, i)
    ensures WalkFrom(c, i) == Success(i)
  {
  }

  lemma HeadAt(c: Bytes, i: nat, es: seq<Tcg2EventEntry>) returns (j: nat)
    requires es != [] && At(c, i, PrintEntries(es)) && Walkable(es)
    ensures WfEntry(es[0]) && !LooksLikeStop(es[0]) && Walkable(es[1..])
    ensures j == i + |EntryBytes(es[0])| && At(c, i, EntryBytes(es[0])) && At(c, j, PrintEntries(es[1..]))
    ensures j + |PrintEntries(es[1..])| == i + |PrintEntries(es)|
  {
    hide At, EntryBytes, WfEntry, LooksLikeStop;
    j := i + |EntryBytes(es[0])|;
    assert es[0] in es;
    AtConcat(c, i, EntryBytes(es[0]), PrintEntries(es[1..]));
  }

  lemma {:induction false} WalkPrinted(c: Bytes, i: nat, es: seq<Tcg2EventEntry>, end: nat)
    requires Walkable(es) && At(c, i, PrintEntries(es)) && end == i + |PrintEntries(es)| && StopAt(c, end)
    ensures WalkFrom(c, i) == Success(end)
    decreases |es|
  {
    hide At, EntryBytes, StopAt, LooksLikeStop, SkipEntry, WfEntry;
    WalkStops(c, end);
    if es != [] {
      var j := HeadAt(c, i, es);
      WalkStep(c, i, es[0]);
      WalkPrinted(c, j, es[1..], end);
    }
  }

  lemma SkipHeaderPrinted(c: Bytes, h: Header)
    requires WfHeader(h) && At(c, 0, HeaderBytes(h))
    ensures SkipHeader(c) == Success(|HeaderBytes(h)|)
  {
    match h
    case NoAction(register, filler, data) =>
      NoActionAt(c, register, filler, data);
      U32Printed(c, 4, EV_NO_ACTION);
      U32Printed(c, 28, AsU32(|data|));
    case Bare(bytes) =>
      assert c[4..8] == bytes[4..8];
      LeBytesOfFromLe(c[4..8]);
  }

  lemma NoActionAt(c: Bytes, register: Bytes, filler: Bytes, data: Bytes)
    requires |register| == 4 && |filler| == 20
    requires At(c, 0, register + Le32(EV_NO_ACTION) + filler + Le32(AsU32(|data|)) + data)
    ensures At(c, 4, Le32(EV_NO_ACTION)) && At(c, 28, Le32(AsU32(|data|)))
  {
    var size := Le32(AsU32(|data|));
    AtConcat(c, 0, register + Le32(EV_NO_ACTION) + filler + size, data);
    AtConcat(c, 0, register + Le32(EV_NO_ACTION) + filler, size);
    AtConcat(c, 0, register + Le32(EV_NO_ACTION), filler);
    AtConcat(c, 0, register, Le32(EV_NO_ACTION));
  }

  /** Trimming a printed log gives back exactly the header and the entries. */
  lemma TrimPrinted(c: Bytes, h: Header, es: seq<Tcg2EventEntry>, flag: Bytes, rest: Bytes)
    requires IsLog(c, h, es, flag, rest)
    ensures Trim(c) == Success(HeaderBytes(h) + PrintEntries(es))
  {
    hide At, AllAre, StopAt, HeaderBytes, PrintEntries, SkipHeader, WalkFrom;
    var front := HeaderBytes(h) + PrintEntries(es);
    PiecesOfLog(c, h, es, flag, rest);
    SkipHeaderPrinted(c, h);
    WalkPrinted(c, |HeaderBytes(h)|, es, |front|);
  }

  lemma PiecesOfLog(c: Bytes, h: Header, es: seq<Tcg2EventEntry>, flag: Bytes, rest: Bytes)
    requires IsLog(c, h, es, flag, rest)
    ensures var front := HeaderBytes(h) + PrintEntries(es);
            && At(c, 0, HeaderBytes(h)) && At(c, |HeaderBytes(h)|, PrintEntries(es))
            && StopAt(c, |front|) && c[..|front|] == front
  {
    hide HeaderBytes, PrintEntries, AllAre;
    var front := HeaderBytes(h) + PrintEntries(es);
    assert At(c, 0, front + flag + rest);
    AtConcat(c, 0, front + flag, rest);
    AtConcat(c, 0, front, flag);
    AtConcat(c, 0, HeaderBytes(h), PrintEntries(es));
  }

  // ---------- and accepts nothing else ----------

  lemma ReadDigests(c: Bytes, i: nat, n: nat) returns (ds: seq<ElDigest>)
    requires i <= |c| && SkipDigests(c, i, n).Success? && SkipDigests(c, i, n).value <= |c|
    ensures |ds| == n && forall d <- ds :: WfDigest(d)
    ensures SkipDigests(c, i, n).value == i + |DigestListBytes(ds)| && At(c, i, DigestListBytes(ds))
    decreases n
  {
    if n == 0 {
      ds := [];
    } else {
      var alg := LengthIsAlgorithms(FromLe(c[i..i + 2]));
      var j := i + 2 + alg.DigestLen();
      assert SkipDigests(c, i, n) == SkipDigests(c, j, n - 1);
      var tail := ReadDigests(c, j, n - 1);
      var d := ElDigest(alg, c[i + 2..j]);
      ds := [d] + tail;
      ConsDigest(c, i, d, tail);
    }
  }

  lemma ConsDigest(c: Bytes, i: nat, d: ElDigest, tail: seq<ElDigest>)
    requires WfDigest(d) && i + 2 + |d.digest| <= |c|
    requires FromLe(c[i..i + 2]) == d.alg.TcgId() && d.digest == c[i + 2..i + 2 + |d.digest|]
    requires At(c, i + 2 + |d.digest|, DigestListBytes(tail))
    ensures At(c, i, DigestListBytes([d] + tail))
    ensures |DigestListBytes([d] + tail)| == 2 + |d.digest| + |DigestListBytes(tail)|
  {
    assert ([d] + tail)[1..] == tail;
    LeBytesOfFromLe(c[i..i + 2]);
    AtConcat(c, i, LeBytes(d.alg.TcgId(), 2), d.digest);
    AtConcat(c, i, DigestBytes(d), DigestListBytes(tail));
  }

  lemma Le32Is(c: Bytes, i: nat)
    requires i + 4 <= |c|
    ensures Le32(U32At(c, i)) == c[i..i + 4]
  {
    LeBytesOfFromLe(c[i..i + 4]);
  }

  lemma Le32At(c: Bytes, i: nat)
    requires i + 4 <= |c|
    ensures At(c, i, Le32(U32At(c, i)))
  {
    Le32Is(c, i);
  }

  lemma ReadEntry(c: Bytes, i: nat) returns (e: Tcg2EventEntry)
    requires i + 8 <= |c| && SkipEntry(c, i).Success? && SkipEntry(c, i).value <= |c|
    ensures WfEntry(e) && SkipEntry(c, i).value == i + |EntryBytes(e)| && At(c, i, EntryBytes(e))
  {
    var n := U32At(c, i + 8);
    var ds := ReadDigests(c, i + 12, n);
    e := BuildEntry(c, i, n, ds);
  }

  /** Reading the fixed fields around a digest list already read. */
  lemma BuildEntry(c: Bytes, i: nat, n: u32, ds: seq<ElDigest>) returns (e: Tcg2EventEntry)
    requires i + 12 <= |c| && n == U32At(c, i + 8) && |ds| == n && forall d <- ds :: WfDigest(d)
    requires At(c, i + 12, DigestListBytes(ds)) && i + 16 + |DigestListBytes(ds)| <= |c|
    requires i + 16 + |DigestListBytes(ds)| + U32At(c, i + 12 + |DigestListBytes(ds)|) <= |c|
    ensures WfEntry(e) && At(c, i, EntryBytes(e))
    ensures |EntryBytes(e)| == 16 + |DigestListBytes(ds)| + U32At(c, i + 12 + |DigestListBytes(ds)|)
  {
    var j := i + 12 + |DigestListBytes(ds)|;
    var size := U32At(c, j);
    e := Tcg2EventEntry(U32At(c, i), U32At(c, i + 4), n, ds, size, c[j + 4..j + 4 + size]);
    Le32At(c, i);
    Le32At(c, i + 4);
    Le32At(c, i + 8);
    Le32At(c, j);
    EntryAt(c, i, e);
  }

  lemma ReadEntries(c: Bytes, i: nat) returns (es: seq<Tcg2EventEntry>)
    requires WalkFrom(c, i).Success?
    ensures Walkable(es) && At(c, i, PrintEntries(es)) && WalkFrom(c, i).value == i + |PrintEntries(es)|
    decreases if i <= |c| then |c| - i else 0
  {
    if StopAt(c, i) {
      es := [];
    } else {
      var j := SkipEntry(c, i).value;
      assert WalkFrom(c, i) == WalkFrom(c, j);
      var tail := ReadEntries(c, j);
      var e := ReadEntry(c, i);
      es := [e] + tail;
      ConsEntry(c, i, e, tail);
    }
  }

  lemma ConsEntry(c: Bytes, i: nat, e: Tcg2EventEntry, tail: seq<Tcg2EventEntry>)
    requires WfEntry(e) && Walkable(tail)
    requires At(c, i, EntryBytes(e)) && At(c, i + |EntryBytes(e)|, PrintEntries(tail))
    requires !StopAt(c, i)
    ensures Walkable([e] + tail) && At(c, i, PrintEntries([e] + tail))
    ensures |PrintEntries([e] + tail)| == |EntryBytes(e)| + |PrintEntries(tail)|
  {
    assert ([e] + tail)[1..] == tail;
    AtConcat(c, i, EntryBytes(e), PrintEntries(tail));
    EntryStop(c, i, e);
  }

  lemma ReadHeader(c: Bytes) returns (h: Header)
    requires SkipHeader(c).Success? && SkipHeader(c).value <= |c|
    ensures WfHeader(h) && HeaderBytes(h) == c[..SkipHeader(c).value]
  {
    if U32At(c, 4) == EV_NO_ACTION {
      h := ReadNoAction(c);
    } else {
      h := Bare(c[..28]);
      assert c[..28][4..8] == c[4..8];
      Le32RoundTrip(EV_NO_ACTION);
    }
  }

  lemma ReadNoAction(c: Bytes) returns (h: Header)
    requires 32 <= |c| && U32At(c, 4) == EV_NO_ACTION && 32 + U32At(c, 28) <= |c|
    ensures WfHeader(h) && HeaderBytes(h) == c[..32 + U32At(c, 28)]
  {
    hide U32At, At;
    var end := 32 + U32At(c, 28);
    h := NoAction(c[..4], c[8..28], c[32..end]);
    Le32Is(c, 4);
    Le32Is(c, 28);
    assert AsU32(|h.data|) == U32At(c, 28);
    FivePieces(c, end);
  }

  lemma FivePieces(c: Bytes, i: nat)
    requires 32 <= i <= |c|
    ensures c[..i] == c[..4] + c[4..8] + c[8..28] + c[28..32] + c[32..i]
  {
    assert c[..4] + c[4..8] == c[..8];
    assert c[..8] + c[8..28] == c[..28];
    assert c[..28] + c[28..32] == c[..32];
    assert c[..32] + c[32..i] == c[..i];
  }

  /** Whatever is accepted has the grammar's shape, and the result is the part before the flag. */
  lemma TrimSound(c: Bytes) returns (h: Header, es: seq<Tcg2EventEntry>, flag: Bytes, rest: Bytes)
    requires Trim(c).Success?
    ensures IsLog(c, h, es, flag, rest)
    ensures Trim(c).value == HeaderBytes(h) + PrintEntries(es)
  {
    var i := SkipHeader(c).value;
    es := ReadEntries(c, i);
    h := ReadHeader(c);
    var end := i + |PrintEntries(es)|;
    flag, rest := c[end..end + 8], c[end + 8..];
    Pieces(c, i, end);
  }

  lemma Pieces(c: Bytes, i: nat, end: nat)
    requires i <= end && end + 8 <= |c|
    ensures c[..i] + c[i..end] == c[..end]
    ensures c == c[..i] + c[i..end] + c[end..end + 8] + c[end + 8..]
  {
    assert c[..i] + c[i..end] == c[..end];
    assert c[..end] + c[end..end + 8] == c[..end + 8];
    assert c[..end + 8] + c[end + 8..] == c;
  }

  /** The two directions together: acceptance is membership in the grammar. */
  lemma TrimAcceptsIff(c: Bytes, r: Bytes)
    ensures Trim(c) == Success(r) <==>
            exists h, es, flag, rest :: IsLog(c, h, es, flag, rest) && r == HeaderBytes(h) + PrintEntries(es)
  {
    if Trim(c) == Success(r) {
      var h, es, flag, rest := TrimSound(c);
    }
    forall h, es, flag, rest | IsLog(c, h, es, flag, rest) && r == HeaderBytes(h) + PrintEntries(es)
      ensures Trim(c) == Success(r)
    {
      TrimPrinted(c, h, es, flag, rest);
    }
  }

  // ---------- joining the logs ----------

  /**
   * The evidence log before its base64 encoding: the trimmed firmware log if there is one,
   * then the agent log under it or under the fixed header, then the end flag.
   */
  method ReadEventlog(ccel: Option<Bytes>, aael: Option<Bytes>) returns (r: Result<Option<Bytes>, CcelError>)
    requires ccel.Some? ==> |ccel.value| <= ISIZE_MAX
    ensures r == Eventlog(ccel, aael)
    ensures r.Failure? <==> ccel.Some? && Trim(ccel.value).Failure?
    ensures r.Failure? ==> r.error == Trim(ccel.value).error
    ensures r == Success(None) <==> ccel.None? && aael.None?
    ensures r.Success? && r.value.Some? ==>
              var front := if ccel.Some? then Trim(ccel.value).value else EL_HEADER;
              r.value.value == front + (if aael.Some? then aael.value else []) + EL_END_FLAG
  {
    var eventlog: Bytes := [];
    if ccel.Some? {
      eventlog := ccel.value;
      var trimmed := TrimCcel(eventlog);
      match trimmed {
        case Failure(error) => return Failure(error);
        case Success(bytes) => eventlog := bytes;
      }
    }
    if aael.Some? {
      if |eventlog| == 0 {
        eventlog := eventlog + EL_HEADER;
        assert eventlog == EL_HEADER;
      }
      eventlog := eventlog + aael.value;
    }
    if |eventlog| == 0 {
      return Success(None);
    }
    assert aael.None? ==> eventlog + [] == eventlog;
    eventlog := eventlog + EL_END_FLAG;
    return Success(Some(eventlog));
  }

  /** What the evidence log should be, case by case. */
  function Eventlog(ccel: Option<Bytes>, aael: Option<Bytes>): Result<Option<Bytes>, CcelError> {
    match (ccel, aael)
    case (None, None) => Success(None)
    case (None, Some(agent)) => Success(Some(EL_HEADER + agent + EL_END_FLAG))
    case (Some(firmware), _) =>
      match Trim(firmware)
      case Failure(error) => Failure(error)
      case Success(trimmed) =>
        Success(Some(trimmed + (if aael.Some? then aael.value else []) + EL_END_FLAG))
  }

  /**
   * Trimming the evidence log again removes exactly the end flag that was added: the agent's
   * entries stay behind the firmware's, or behind the fixed header.
   */
  lemma RetrimEventlog(ccel: Option<Bytes>, agent: seq<Tcg2EventEntry>)
    requires Walkable(agent)
    requires ccel.Some? ==> Trim(ccel.value).Success?
    ensures var front := if ccel.Some? then Trim(ccel.value).value else EL_HEADER;
            var log := Eventlog(ccel, Some(PrintEntries(agent)));
            log.Success? && log.value.Some? && Trim(log.value.value) == Success(front + PrintEntries(agent))
  {
    if ccel.Some? {
      var h, es, flag, rest := TrimSound(ccel.value);
      TrimJoined(h, es, agent);
    } else {
      assert HeaderBytes(EL_HEADER_ENTRY) + PrintEntries([]) == EL_HEADER;
      TrimJoined(EL_HEADER_ENTRY, [], agent);
    }
  }

  lemma TrimJoined(h: Header, es: seq<Tcg2EventEntry>, agent: seq<Tcg2EventEntry>)
    requires WfHeader(h) && Walkable(es) && Walkable(agent)
    ensures var front := HeaderBytes(h) + PrintEntries(es);
            Trim(front + PrintEntries(agent) + EL_END_FLAG) == Success(front + PrintEntries(agent))
  {
    PrintConcat(es, agent);
    var all := HeaderBytes(h) + PrintEntries(es + agent);
    Regroup(HeaderBytes(h), PrintEntries(es), PrintEntries(agent));
    TrimEnded(h, es + agent);
  }

  lemma TrimEnded(h: Header, es: seq<Tcg2EventEntry>)
    requires WfHeader(h) && Walkable(es)
    ensures Trim(HeaderBytes(h) + PrintEntries(es) + EL_END_FLAG) == Success(HeaderBytes(h) + PrintEntries(es))
  {
    var c := HeaderBytes(h) + PrintEntries(es) + EL_END_FLAG;
    assert c == c + [];
    TrimPrinted(c, h, es, EL_END_FLAG, []);
  }

  /** With no agent log, trimming the evidence log again changes nothing. */
  lemma RetrimFirmwareOnly(ccel: Bytes)
    requires Trim(ccel).Success?
    ensures Eventlog(Some(ccel), None) == Success(Some(Trim(ccel).value + EL_END_FLAG))
    ensures Trim(Trim(ccel).value + EL_END_FLAG) == Trim(ccel)
  {
    RetrimEventlog(Some(ccel), []);
    assert Trim(ccel).value + [] == Trim(ccel).value;
  }
}
