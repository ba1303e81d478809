/** Fixed-width integers as bytes, and UTF-8 well-formedness. */
module ByteCodec {
  import opened Results
  import opened Arithmetic

  type byte = b: int | 0 <= b < 256
  type Bytes = seq<byte>

  const TWO_TO_THE_32: nat := 0x1_0000_0000
  const TWO_TO_THE_64: nat := 0x1_0000_0000_0000_0000

  type u32 = n: nat | n < TWO_TO_THE_32
  type u64 = n: nat | n < TWO_TO_THE_64

  function Pow256(k: nat): (r: nat)
    ensures r > 0
  {
    if k == 0 then 1 else 256 * Pow256(k - 1)
  }

  function Zeros(n: nat): (r: Bytes)
    ensures |r| == n
  {
    seq(n, _ => 0)
  }

  /** The cast `n as u32`, which keeps the low 32 bits. */
  function AsU32(n: nat): u32 {
    n % TWO_TO_THE_32
  }

  // ---------- little endian ----------

  function LeBytes(n: nat, k: nat): (r: Bytes)
    ensures |r| == k
  {
    if k == 0 then [] else [n % 256] + LeBytes(n / 256, k - 1)
  }

  function FromLe(s: Bytes): (n: nat)
    ensures n < Pow256(|s|)
  {
    if s == [] then 0 else s[0] + 256 * FromLe(s[1..])
  }

  lemma {:induction false} LeRoundTrip(n: nat, k: nat)
    requires n < Pow256(k)
    ensures FromLe(LeBytes(n, k)) == n
  {
    if k > 0 {
      LeRoundTrip(n / 256, k - 1);
      assert LeBytes(n, k)[1..] == LeBytes(n / 256, k - 1);
    }
  }

  lemma {:induction false} LeBytesOfFromLe(s: Bytes)
    ensures LeBytes(FromLe(s), |s|) == s
  {
    if s != [] {
      LeBytesOfFromLe(s[1..]);
      assert FromLe(s) % 256 == s[0] && FromLe(s) / 256 == FromLe(s[1..]);
      assert s == [s[0]] + s[1..];
    }
  }

  /** Little endian: byte `j` has weight 256^j. */
  lemma {:induction false} LeDigit(n: nat, k: nat, j: nat)
    requires j < k
    ensures LeBytes(n, k)[j] == n / Pow256(j) % 256
  {
    if j > 0 {
      LeDigit(n / 256, k - 1, j - 1);
      DivBy256(n, Pow256(j - 1));
    }
  }

  predicate AllAre(s: Bytes, b: byte) {
    forall k :: 0 <= k < |s| ==> s[k] == b
  }

  /** The bytes of zero are all zero, and those of the largest value are all 0xFF. */
  lemma {:induction false} ExtremeValues(s: Bytes)
    ensures FromLe(s) == 0 <==> AllAre(s, 0)
    ensures FromLe(s) == Pow256(|s|) - 1 <==> AllAre(s, 0xFF)
  {
    if s != [] {
      ExtremeValues(s[1..]);
      AllAreStep(s, 0);
      AllAreStep(s, 0xFF);
    }
  }

  lemma AllAreStep(s: Bytes, b: byte)
    requires s != []
    ensures AllAre(s, b) <==> s[0] == b && AllAre(s[1..], b)
  {
    if s[0] == b && AllAre(s[1..], b) {
      forall k | 0 <= k < |s|
        ensures s[k] == b
      {
        assert k > 0 ==> s[k] == s[1..][k - 1];
      }
    }
  }

  function Le32(n: u32): (r: Bytes)
    ensures |r| == 4
  {
    LeBytes(n, 4)
  }

  lemma Le32RoundTrip(n: u32)
    ensures FromLe(Le32(n)) == n
  {
    LeRoundTrip(n, 4);
  }

  lemma Le32Injective(m: u32, n: u32)
    requires Le32(m) == Le32(n)
    ensures m == n
  {
    Le32RoundTrip(m);
    Le32RoundTrip(n);
  }

  // ---------- big endian ----------

  function BeBytes(n: nat, k: nat): (r: Bytes)
    ensures |r| == k
  {
    if k == 0 then [] else BeBytes(n / 256, k - 1) + [n % 256]
  }

  function FromBe(s: Bytes): (n: nat)
    ensures n < Pow256(|s|)
  {
    if s == [] then 0 else 256 * FromBe(s[..|s| - 1]) + s[|s| - 1]
  }

  lemma {:induction false} BeRoundTrip(n: nat, k: nat)
    requires n < Pow256(k)
    ensures FromBe(BeBytes(n, k)) == n
  {
    if k > 0 {
      BeRoundTrip(n / 256, k - 1);
      assert BeBytes(n, k)[..k - 1] == BeBytes(n / 256, k - 1);
    }
  }

  /** Big endian: the last byte has weight 1, each one before it 256 times more. */
  lemma {:induction false} BeDigit(n: nat, k: nat, j: nat)
    requires j < k
    ensures BeBytes(n, k)[k - 1 - j] == n / Pow256(j) % 256
  {
    if j > 0 {
      BeDigit(n / 256, k - 1, j - 1);
      DivBy256(n, Pow256(j - 1));
    }
  }

  // ---------- searching ----------

  /** `haystack.find(needle)` for an ASCII needle: the first position, if any. */
  function Find(s: Bytes, b: byte): (r: Option<nat>)
    ensures r.Some? ==> r.value < |s| && s[r.value] == b && b !in s[..r.value]
    ensures r.None? ==> b !in s
  {
    if s == [] then None
    else if s[0] == b then Some(0)
    else
      match Find(s[1..], b)
      case None => None
      case Some(i) =>
        assert s[..i + 1] == [s[0]] + s[1..][..i];
        Some(i + 1)
  }

  /** The first position is the only one whose prefix is free of the needle. */
  lemma FindIs(s: Bytes, b: byte, i: nat)
    requires i < |s| && s[i] == b && b !in s[..i]
    ensures Find(s, b) == Some(i)
  {
    var j := Find(s, b).value;
    forall k | 0 <= k < i
      ensures s[k] != b
    {
      assert s[k] in s[..i];
    }
    forall k | 0 <= k < j
      ensures s[k] != b
    {
      assert s[k] in s[..j];
    }
  }

  // ---------- UTF-8 ----------

  predicate Utf8Tail(b: byte) {
    0x80 <= b <= 0xBF
  }

  /** Width of the well-formed sequence at the front, 0 if there is none (RFC 3629, section 4). */
  function Utf8Width(s: Bytes): (w: nat)
    ensures w <= |s| && w <= 4
  {
    if |s| >= 1 && s[0] < 0x80 then 1
    else if |s| >= 2 && 0xC2 <= s[0] <= 0xDF && Utf8Tail(s[1]) then 2
    else if |s| >= 3 && Utf8Tail(s[1]) && Utf8Tail(s[2]) &&
            0xE0 <= s[0] <= 0xEF && (s[0] == 0xE0 ==> 0xA0 <= s[1]) && (s[0] == 0xED ==> s[1] <= 0x9F) then 3
    else if |s| >= 4 && Utf8Tail(s[1]) && Utf8Tail(s[2]) && Utf8Tail(s[3]) &&
            0xF0 <= s[0] <= 0xF4 && (s[0] == 0xF0 ==> 0x90 <= s[1]) && (s[0] == 0xF4 ==> s[1] <= 0x8F) then 4
    else 0
  }

  predicate ValidUtf8(s: Bytes)
    decreases |s|
  {
    s == [] || (Utf8Width(s) > 0 && ValidUtf8(s[Utf8Width(s)..]))
  }

  /** A Unicode scalar value: any code point but the surrogates. */
  predicate IsScalar(c: nat) {
    c < 0xD800 || 0xE000 <= c < 0x11_0000
  }

  /** The encoding of a scalar value (RFC 3629, section 3). */
  function EncodeScalar(c: nat): (r: Bytes)
    requires IsScalar(c)
    ensures 1 <= |r| <= 4
  {
    if c < 0x80 then [c]
    else if c < 0x800 then [0xC0 + c / 0x40, 0x80 + c % 0x40]
    else if c < 0x1_0000 then [0xE0 + c / 0x40 / 0x40, 0x80 + c / 0x40 % 0x40, 0x80 + c % 0x40]
    else [0xF0 + c / 0x40 / 0x40 / 0x40, 0x80 + c / 0x40 / 0x40 % 0x40, 0x80 + c / 0x40 % 0x40, 0x80 + c % 0x40]
  }

  function EncodeAll(cs: seq<nat>): Bytes
    requires forall c <- cs :: IsScalar(c)
  {
    if cs == [] then [] else EncodeScalar(cs[0]) + EncodeAll(cs[1..])
  }

  lemma ScalarWidth(c: nat)
    requires IsScalar(c)
    ensures Utf8Width(EncodeScalar(c)) == |EncodeScalar(c)|
  {
  }

  /** The scalar value at the front of a text. */
  lemma FrontScalar(s: Bytes) returns (c: nat)
    requires Utf8Width(s) > 0
    ensures IsScalar(c) && s[..Utf8Width(s)] == EncodeScalar(c)
  {
    var w := Utf8Width(s);
    var b0: int := s[0];
    match w
    case 1 =>
      c := b0;
    case 2 =>
      c := Joined(b0 - 0xC0, s[1]);
    case 3 =>
      c := Joined(Joined(b0 - 0xE0, s[1]), s[2]);
    case _ =>
      c := Joined(Joined(Joined(b0 - 0xF0, s[1]), s[2]), s[3]);
  }

  /** Six more bits from a continuation byte. */
  function Joined(high: nat, b: byte): (c: nat)
    requires Utf8Tail(b)
    ensures c / 0x40 == high && 0x80 + c % 0x40 == b
  {
    var low: int := b;
    0x40 * high + (low - 0x80)
  }

  /** What is well-formed: exactly the encodings of lists of scalar values. */
  lemma Utf8Iff(s: Bytes)
    ensures ValidUtf8(s) <==> exists cs: seq<nat> :: IsEncoding(s, cs)
  {
    if ValidUtf8(s) {
      var cs := Decode(s);
    }
    forall cs: seq<nat> | IsEncoding(s, cs)
      ensures ValidUtf8(s)
    {
      EncodedIsValid(cs);
    }
  }

  ghost predicate IsEncoding(s: Bytes, cs: seq<nat>) {
    (forall c <- cs :: IsScalar(c)) && s == EncodeAll(cs)
  }

  lemma {:induction false} Decode(s: Bytes) returns (cs: seq<nat>)
    requires ValidUtf8(s)
    ensures IsEncoding(s, cs)
    decreases |s|
  {
    hide EncodeScalar, Utf8Width;
    if s == [] {
      cs := [];
    } else {
      var w := Utf8Width(s);
      var c := FrontScalar(s);
      var rest := Decode(s[w..]);
      cs := [c] + rest;
      assert cs[1..] == rest && s == s[..w] + s[w..];
    }
  }

  lemma {:induction false} EncodedIsValid(cs: seq<nat>)
    requires forall c <- cs :: IsScalar(c)
    ensures ValidUtf8(EncodeAll(cs))
    decreases |cs|
  {
    if cs != [] {
      var front, rest := EncodeScalar(cs[0]), EncodeAll(cs[1..]);
      EncodedIsValid(cs[1..]);
      ScalarWidth(cs[0]);
      Utf8WidthConcat(front, rest);
      assert (front + rest)[|front|..] == rest;
    }
  }

  lemma Utf8WidthConcat(s: Bytes, t: Bytes)
    requires Utf8Width(s) > 0
    ensures Utf8Width(s + t) == Utf8Width(s)
  {
  }

  lemma {:induction false} Utf8Concat(s: Bytes, t: Bytes)
    requires ValidUtf8(s) && ValidUtf8(t)
    ensures ValidUtf8(s + t)
    decreases |s|
  {
    if s == [] {
      assert s + t == t;
    } else {
      var w := Utf8Width(s);
      Utf8WidthConcat(s, t);
      assert (s + t)[w..] == s[w..] + t;
      Utf8Concat(s[w..], t);
    }
  }

  // ---------- slices of concatenations ----------

  /** `x` stands in `c` at offset `i`. */
  predicate At(c: Bytes, i: nat, x: Bytes) {
    i + |x| <= |c| && c[i..i + |x|] == x
  }

  lemma AtInRange(c: Bytes, i: nat, x: Bytes)
    requires At(c, i, x)
    ensures i + |x| <= |c|
  {
  }

  lemma AtConcat(c: Bytes, i: nat, x: Bytes, y: Bytes)
    ensures At(c, i, x + y) <==> At(c, i, x) && At(c, i + |x|, y)
  {
    if At(c, i, x + y) {
      assert x == (x + y)[..|x|] == c[i..i + |x + y|][..|x|];
      assert y == (x + y)[|x|..] == c[i..i + |x + y|][|x|..];
    }
  }

  lemma Regroup(x: Bytes, y: Bytes, z: Bytes)
    ensures x + y + z == x + (y + z)
  {
  }

  /** Two splits of the same bytes after equally many bytes agree on both sides. */
  lemma SplitSame(a: Bytes, x: Bytes, b: Bytes, y: Bytes)
    requires a + x == b + y && |a| == |b|
    ensures a == b && x == y
  {
    assert a == (a + x)[..|a|] && x == (a + x)[|a|..];
    assert b == (b + y)[..|b|] && y == (b + y)[|b|..];
  }
}
