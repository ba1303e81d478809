/** The layout checks and arithmetic of a dm-verity device. */
module DmVerity {
  import opened Results
  import opened Arithmetic

  const U64_RANGE: nat := 0x1_0000_0000_0000_0000
  const U32_MAX: nat := 0xFFFF_FFFF

  type u64 = n: nat | n < U64_RANGE

  datatype DmVerityOption = DmVerityOption(
    hashtype: string,
    hash: string,
    blocknum: u64,
    blocksize: u64,
    hashsize: u64,
    offset: u64)

  datatype VerityError = InvalidHash | UnsupportedHashAlgorithm | BadBlockCount | BadBlockSize | BadOffset

  function Pow2(k: nat): nat {
    if k == 0 then 1 else 2 * Pow2(k - 1)
  }

  predicate ValidBlockSize(size: nat) {
    exists order :: 9 <= order < 20 && size == Pow2(order)
  }

  method IsValidBlockSize(blockSize: u64) returns (ok: bool)
    ensures ok == ValidBlockSize(blockSize)
  {
    for order := 9 to 20
      invariant forall k :: 9 <= k < order ==> blockSize != Pow2(k)
    {
      if blockSize == Pow2(order) {
        return true;
      }
    }
    return false;
  }

  lemma {:induction false} Pow2Split(j: nat, k: nat)
    ensures Pow2(j + k) == Pow2(j) * Pow2(k)
  {
    if j > 0 {
      Pow2Split(j - 1, k);
      Associate(2, Pow2(j - 1), Pow2(k));
    }
  }

  lemma {:induction false} Pow2Mono(j: nat, k: nat)
    requires j <= k
    ensures 1 <= Pow2(j) <= Pow2(k)
    decreases k
  {
    if j < k {
      Pow2Mono(j, k - 1);
    } else if k > 0 {
      Pow2Mono(j - 1, k - 1);
    }
  }

  lemma BlockSizeBounds(size: nat)
    requires ValidBlockSize(size)
    ensures 512 <= size <= 0x8_0000 && size % 512 == 0
  {
    var order :| 9 <= order < 20 && size == Pow2(order);
    SomeValues();
    Pow2Mono(9, order);
    Pow2Mono(order, 19);
    PowerOfSectors(order);
  }

  lemma {:induction false} PowerOfSectors(k: nat)
    requires k >= 9
    ensures Pow2(k) % 512 == 0
  {
    if k == 9 {
      SomeValues();
    } else {
      PowerOfSectors(k - 1);
    }
  }

  lemma SomeValues()
    ensures Pow2(9) == 512 && Pow2(16) == 0x1_0000 && Pow2(19) == 0x8_0000
  {
  }

  lemma SixtyFour()
    ensures Pow2(64) == U64_RANGE
  {
    SomeValues();
    Pow2Split(16, 16);
    assert Pow2(16 + 16) == 0x1_0000_0000;
    Pow2Split(32, 32);
    assert Pow2(32 + 32) == 0x1_0000_0000 * 0x1_0000_0000;
  }

  function Lower(s: string): (r: string)
    ensures |r| == |s|
  {
    seq(|s|, i requires 0 <= i < |s| => if 'A' <= s[i] <= 'Z' then s[i] + 32 as char else s[i])
  }

  predicate AllHex(s: string) {
    forall c <- s :: '0' <= c <= '9' || 'a' <= c <= 'f' || 'A' <= c <= 'F'
  }

  /** A hexadecimal digest of the algorithm's length. */
  predicate HashOk(hashtype: string, hash: string) {
    || (Lower(hashtype) == "sha256" && |hash| == 64 && AllHex(hash))
    || (Lower(hashtype) == "sha1" && |hash| == 40 && AllHex(hash))
  }

  /** The name of the algorithm may be written in capitals; that of any other algorithm is refused. */
  lemma CaseOfNameFree(hash: string)
    ensures HashOk("SHA256", hash) <==> |hash| == 64 && AllHex(hash)
    ensures HashOk("Sha1", hash) <==> |hash| == 40 && AllHex(hash)
    ensures !HashOk("sha512", hash)
  {
    assert Lower("SHA256") == "sha256" && Lower("Sha1") == "sha1" && Lower("sha512") == "sha512";
    assert "sha256" != "sha1" && "sha512"[3] != "sha256"[3];
  }

  /** What a layout has to be: sizes in range, and the hashes on a block boundary past the data. */
  predicate LayoutOk(o: DmVerityOption) {
    && 1 <= o.blocknum <= U32_MAX
    && ValidBlockSize(o.blocksize) && ValidBlockSize(o.hashsize)
    && o.hashsize > 0 && o.offset % o.hashsize == 0 && o.blocksize * o.blocknum <= o.offset
  }

  method Validate(o: DmVerityOption) returns (r: Result<(), VerityError>)
    ensures r.Success? <==> HashOk(o.hashtype, o.hash) && LayoutOk(o)
    ensures r.Failure? && !HashOk(o.hashtype, o.hash) ==>
              r.error == if Lower(o.hashtype) in {"sha256", "sha1"} then InvalidHash else UnsupportedHashAlgorithm
    ensures r.Failure? && HashOk(o.hashtype, o.hash) ==>
              r.error == if !(1 <= o.blocknum <= U32_MAX) then BadBlockCount
                         else if !(ValidBlockSize(o.blocksize) && ValidBlockSize(o.hashsize)) then BadBlockSize
                         else BadOffset
  {
    if Lower(o.hashtype) == "sha256" {
      if |o.hash| != 64 || !AllHex(o.hash) {
        return Failure(InvalidHash);
      }
    } else if Lower(o.hashtype) == "sha1" {
      if |o.hash| != 40 || !AllHex(o.hash) {
        return Failure(InvalidHash);
      }
    } else {
      return Failure(UnsupportedHashAlgorithm);
    }
    if o.blocknum == 0 || o.blocknum > U32_MAX {
      return Failure(BadBlockCount);
    }
    var dataOk := IsValidBlockSize(o.blocksize);
    var hashOk := IsValidBlockSize(o.hashsize);
    if !dataOk || !hashOk {
      return Failure(BadBlockSize);
    }
    BlockSizeBounds(o.blocksize);
    BlockSizeBounds(o.hashsize);
    DataFits(o);
    var dataSize: u64 := o.blocksize * o.blocknum;
    if o.offset % o.hashsize != 0 || o.offset < dataSize {
      return Failure(BadOffset);
    }
    return Success(());
  }

  lemma DataFits(o: DmVerityOption)
    requires o.blocknum <= U32_MAX && o.blocksize <= 0x8_0000
    ensures o.blocksize * o.blocknum < 0x8_0000_0000_0000
  {
    MulMono(o.blocksize, 0x8_0000, o.blocknum);
  }

  // ---------- the device table ----------

  function HashStartBlock(o: DmVerityOption): nat
    requires o.hashsize > 0
  {
    (o.offset + o.hashsize - 1) / o.hashsize
  }

  function Sectors(o: DmVerityOption): nat {
    o.blocknum * o.blocksize / 512
  }

  /**
   * Of an accepted layout, the data size stays below 2^51, the sectors cover it exactly, and the
   * hashes start at the given offset, at or past the end of the data.
   */
  lemma LayoutSound(o: DmVerityOption)
    requires LayoutOk(o)
    ensures o.blocksize * o.blocknum < 0x8_0000_0000_0000
    ensures Sectors(o) * 512 == o.blocksize * o.blocknum
    ensures HashStartBlock(o) * o.hashsize == o.offset
    ensures HashStartBlock(o) * o.hashsize >= o.blocksize * o.blocknum
  {
    BlockSizeBounds(o.blocksize);
    DataFits(o);
    WholeSectors(o.blocknum, o.blocksize);
    RoundUpExact(o.offset, o.hashsize);
  }

  lemma WholeSectors(n: nat, size: nat)
    requires size % 512 == 0
    ensures n * size / 512 * 512 == size * n
  {
    var q := size / 512;
    assert n * size == n * q * 512;
  }

  lemma RoundUpExact(offset: nat, size: nat)
    requires size > 0 && offset % size == 0
    ensures (offset + size - 1) / size * size == offset
  {
    DivUnique(offset + size - 1, size, offset / size, size - 1);
  }

  /** The machine word that `offset + hashsize - 1` is, computed from the left. */
  function WrappedSum(o: DmVerityOption): nat {
    ((o.offset + o.hashsize) % U64_RANGE + U64_RANGE - 1) % U64_RANGE
  }

  /**
   * The first addition of the rounding overflows for exactly one accepted offset of each block
   * size, the last block of the range. Wrapping around, the quotient is right all the same.
   */
  lemma OverflowIff(o: DmVerityOption)
    requires LayoutOk(o)
    ensures o.offset + o.hashsize >= U64_RANGE <==> o.offset == U64_RANGE - o.hashsize
    ensures WrappedSum(o) / o.hashsize == HashStartBlock(o)
  {
    LastBlockFits(o);
    WrapBack(o.offset + o.hashsize);
  }

  lemma LastBlockFits(o: DmVerityOption)
    requires LayoutOk(o)
    ensures o.offset + o.hashsize <= U64_RANGE
  {
    var order :| 9 <= order < 20 && o.hashsize == Pow2(order);
    Pow2Split(order, 64 - order);
    SixtyFour();
    MultiplesFit(o.offset, o.hashsize, Pow2(64 - order));
  }

  lemma WrapBack(x: nat)
    requires 0 < x <= U64_RANGE
    ensures (x % U64_RANGE + U64_RANGE - 1) % U64_RANGE == x - 1
  {
  }

  lemma MultiplesFit(offset: nat, size: nat, blocks: nat)
    requires size > 0 && offset % size == 0 && offset < size * blocks
    ensures offset + size <= size * blocks
  {
    var q := offset / size;
    assert offset == q * size && size * blocks == blocks * size;
    MulStep(q, blocks, size);
    MulStep(blocks, q + 1, size);
  }

  /** Such an offset is accepted. */
  lemma LastBlockAccepted(hash: string)
    requires |hash| == 64 && AllHex(hash)
    ensures var o := DmVerityOption("sha256", hash, 1, 512, 4096, U64_RANGE - 4096);
            HashOk(o.hashtype, o.hash) && LayoutOk(o) && o.offset + o.hashsize >= U64_RANGE
  {
    assert Pow2(9) == 512 && Pow2(12) == 4096;
    assert Lower("sha256") == "sha256";
  }
}
