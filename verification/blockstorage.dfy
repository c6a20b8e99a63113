/** Block addressing in wrapping 64-bit arithmetic, over an unchanging file. */
module Storage {
  import opened Bytes

  datatype Block = Null | Block(bytes: seq<byte>)

  /** `num * BLOCK_SIZE` in a uint64_t. */
  function Offset(num: uint64, blockSize: nat): uint64 {
    (num * blockSize) % MOD64
  }

  /** Both sides of the comparison wrap. */
  predicate Available(num: uint64, fileLength: uint64, blockSize: nat) {
    (num * blockSize) % MOD64 <= (fileLength - blockSize) % MOD64
  }

  /** With at least one block in the file, an available number always addresses a whole block inside
      the file, even when its offset wrapped. */
  lemma AvailableIsInside(num: uint64, fileLength: uint64, blockSize: nat)
    requires 0 < blockSize <= fileLength
    ensures Available(num, fileLength, blockSize) <==> Offset(num, blockSize) + blockSize <= fileLength
  {
  }

  lemma DivBound(a: nat, n: nat, b: nat)
    requires b > 0
    ensures n < a / b <==> n * b + b <= a
  {
    var q := a / b;
    assert a == q * b + a % b;
    if n < q {
      assert (n + 1) * b <= q * b;
    } else {
      assert q * b <= n * b;
    }
  }

  /** Without wrap-around availability is what it should be. */
  lemma AvailableIsBelowCount(num: uint64, fileLength: uint64, blockSize: nat)
    requires 0 < blockSize <= fileLength && num * blockSize < MOD64
    ensures Available(num, fileLength, blockSize) <==> num < fileLength / blockSize
  {
    AvailableIsInside(num, fileLength, blockSize);
    DivBound(fileLength, num, blockSize);
  }

  /** The exact domain in the file length: the check is right for every unwrapped number just when the
      file holds at least one block. */
  lemma AvailabilityDomain(fileLength: uint64, blockSize: nat)
    requires 0 < blockSize < MOD64
    ensures blockSize <= fileLength <==>
      forall num: uint64 :: num * blockSize < MOD64 ==>
        (Available(num, fileLength, blockSize) <==> num < fileLength / blockSize)
  {
    if blockSize <= fileLength {
      forall num: uint64 | num * blockSize < MOD64
        ensures Available(num, fileLength, blockSize) <==> num < fileLength / blockSize
      {
        AvailableIsBelowCount(num, fileLength, blockSize);
      }
    } else {
      assert Available(0, fileLength, blockSize) && fileLength / blockSize == 0;
      assert 0 * blockSize < MOD64;
    }
  }

  /** The exact domain in the number, for every block size: a number that wraps is judged rightly just
      when its wrapped offset leaves no room for a block in the file. */
  lemma AvailabilityIsRight(num: uint64, fileLength: uint64, blockSize: nat)
    requires 0 < blockSize <= fileLength
    ensures (Available(num, fileLength, blockSize) <==> num < fileLength / blockSize) <==>
            num * blockSize < MOD64 || Offset(num, blockSize) > fileLength - blockSize
  {
    if num * blockSize < MOD64 {
      AvailableIsBelowCount(num, fileLength, blockSize);
    } else {
      AvailableIsInside(num, fileLength, blockSize);
      DivBound(fileLength, num, blockSize);
    }
  }

  /** For block sizes that divide 2^64, the number whose offset num has after wrapping. */
  function Residue(num: uint64, blockSize: nat): nat
    requires 0 < blockSize && MOD64 % blockSize == 0
  {
    WholePeriod(blockSize);
    num % (MOD64 / blockSize)
  }

  /** For block sizes that divide 2^64 a number is available just when its residue is a real block; so
      the answer is wrong for every number that wraps and whose residue is one. */
  lemma AvailabilityWraps(num: uint64, fileLength: uint64, blockSize: nat)
    requires 0 < blockSize <= fileLength && MOD64 % blockSize == 0
    ensures Available(num, fileLength, blockSize) <==> Residue(num, blockSize) < fileLength / blockSize
  {
    WholePeriod(blockSize);
    AvailabilityInPeriod(num, MOD64 / blockSize, fileLength, blockSize);
  }

  lemma AvailabilityInPeriod(num: uint64, period: nat, fileLength: uint64, blockSize: nat)
    requires 0 < blockSize <= fileLength && period > 0 && period * blockSize == MOD64
    ensures Available(num, fileLength, blockSize) <==> num % period < fileLength / blockSize
    ensures Offset(num, blockSize) == (num % period) * blockSize
  {
    DivModLaw(num, period);
    AvailabilityAt(num, num / period, num % period, period, fileLength, blockSize);
    WrappedOffset(num, num / period, num % period, period, blockSize);
  }

  lemma WholePeriod(blockSize: nat)
    requires 0 < blockSize && MOD64 % blockSize == 0
    ensures (MOD64 / blockSize) * blockSize == MOD64 && MOD64 / blockSize > 0
  {
  }

  lemma DivModLaw(a: nat, b: nat)
    requires b > 0
    ensures a == (a / b) * b + a % b && 0 <= a % b < b && a / b >= 0
  {
  }

  lemma AvailabilityAt(num: uint64, q: nat, r: nat, period: nat, fileLength: uint64, blockSize: nat)
    requires 0 < blockSize <= fileLength && period * blockSize == MOD64
    requires r < period && num == q * period + r
    ensures Available(num, fileLength, blockSize) <==> r < fileLength / blockSize
  {
    WrappedOffset(num, q, r, period, blockSize);
    AvailableIsInside(num, fileLength, blockSize);
    DivBound(fileLength, r, blockSize);
  }

  lemma WrappedOffset(num: uint64, q: nat, r: nat, period: nat, blockSize: nat)
    requires period * blockSize == MOD64 && r < period && num == q * period + r
    ensures Offset(num, blockSize) == r * blockSize
  {
    Below(r, period, blockSize);
    Multiply(q, period, r, blockSize);
    ModuloPeriod(q, r * blockSize);
  }

  lemma Below(r: nat, period: nat, b: nat)
    requires r < period && b * period > 0
    ensures r * b < period * b
  {
  }

  lemma Multiply(q: nat, period: nat, r: nat, b: nat)
    ensures (q * period + r) * b == q * (period * b) + r * b
  {
  }

  lemma ModuloPeriod(q: nat, r: uint64)
    ensures (q * MOD64 + r) % MOD64 == r
  {
  }

  /** A number far past the end of a one-block file is reported available. */
  lemma WrappedNumberExample()
    ensures Available(0x10_0000_0000_0000, 4096, 4096) && !(0x10_0000_0000_0000 < 4096 / 4096)
  {
  }

  /** What `getBlock` returns. */
  function BlockAt(disk: seq<byte>, num: uint64, blockSize: nat): (b: Block)
    requires 0 < blockSize <= |disk| < MOD64
    ensures b.Block? ==> |b.bytes| == blockSize
  {
    if Available(num, |disk|, blockSize) then
      AvailableIsInside(num, |disk|, blockSize);
      Block(disk[Offset(num, blockSize)..Offset(num, blockSize) + blockSize])
    else Null
  }

  lemma ReadAt(disk: seq<byte>, num: uint64, position: nat, blockSize: nat)
    requires 0 < blockSize <= |disk| < MOD64 && Available(num, |disk|, blockSize)
    requires position == Offset(num, blockSize)
    ensures position + blockSize <= |disk|
    ensures BlockAt(disk, num, blockSize) == Block(disk[position..position + blockSize])
  {
    AvailableIsInside(num, |disk|, blockSize);
  }

  /** The bytes of block num of the file. */
  function BlockBytes(disk: seq<byte>, num: nat, blockSize: nat): (b: seq<byte>)
    requires 0 < blockSize && num < |disk| / blockSize
    ensures |b| == blockSize
  {
    DivBound(|disk|, num, blockSize);
    disk[num * blockSize..num * blockSize + blockSize]
  }

  lemma BlockInFile(disk: seq<byte>, num: nat, blockSize: nat)
    requires 0 < blockSize <= |disk| < MOD64 && num < |disk| / blockSize
    ensures num < MOD64 && BlockAt(disk, num, blockSize) == Block(BlockBytes(disk, num, blockSize))
  {
    DivBound(|disk|, num, blockSize);
    AtLeast(num, blockSize);
    AvailableIsBelowCount(num, |disk|, blockSize);
    Unwrapped(num, blockSize);
  }

  lemma AtLeast(n: nat, b: nat)
    requires b > 0
    ensures n <= n * b
  {
  }

  lemma Unwrapped(num: uint64, blockSize: nat)
    requires num * blockSize < MOD64
    ensures Offset(num, blockSize) == num * blockSize
  {
  }

  /** One block size of bytes, from byte d of block k on: the end of that block and the first bytes
      behind it. */
  function AcrossBlocks(disk: seq<byte>, k: nat, d: nat, blockSize: nat): (b: seq<byte>)
    requires d < blockSize && k * blockSize + blockSize + d <= |disk|
    ensures |b| == blockSize
  {
    DivBound(|disk|, k, blockSize);
    var next := k * blockSize + blockSize;
    BlockBytes(disk, k, blockSize)[d..] + disk[next..next + d]
  }

  /** What any number reads, for every block size: nothing, or from byte d of block k on, where k and d
      are quotient and remainder of the wrapped offset. */
  lemma BlockOfOffset(disk: seq<byte>, num: uint64, blockSize: nat, k: nat, d: nat)
    requires 0 < blockSize <= |disk| < MOD64
    requires Offset(num, blockSize) == k * blockSize + d && d < blockSize
    ensures BlockAt(disk, num, blockSize) ==
      if k * blockSize + blockSize + d <= |disk| then Block(AcrossBlocks(disk, k, d, blockSize)) else Null
  {
    AvailableIsInside(num, |disk|, blockSize);
    if k * blockSize + blockSize + d <= |disk| {
      DivBound(|disk|, k, blockSize);
      SplitRange(disk, k * blockSize, d, blockSize);
    }
  }

  lemma SplitRange(disk: seq<byte>, start: nat, d: nat, n: nat)
    requires d < n && start + n + d <= |disk|
    ensures disk[start + d..start + d + n] == disk[start..start + n][d..] + disk[start + n..start + n + d]
  {
  }

  /** For block sizes that divide 2^64 that is exactly the block of the residue, or nothing. */
  lemma BlockOfResidue(disk: seq<byte>, num: uint64, blockSize: nat)
    requires 0 < blockSize <= |disk| < MOD64 && MOD64 % blockSize == 0
    ensures
      var r := Residue(num, blockSize);
      BlockAt(disk, num, blockSize) ==
        if r < |disk| / blockSize then Block(BlockBytes(disk, r, blockSize)) else Null
  {
    WholePeriod(blockSize);
    AvailabilityInPeriod(num, MOD64 / blockSize, |disk|, blockSize);
  }

  function Blocks(disk: seq<byte>, count: nat, blockSize: nat): seq<byte>
    requires 0 < blockSize <= |disk| < MOD64 && count <= |disk| / blockSize
  {
    if count == 0 then []
    else
      BlockInFile(disk, count - 1, blockSize);
      Blocks(disk, count - 1, blockSize) + BlockAt(disk, count - 1, blockSize).bytes
  }

  lemma NextMultiple(n: nat, b: nat)
    ensures (n + 1) * b == n * b + b
  {
  }

  lemma PrefixGrows(s: seq<byte>, k: nat, n: nat)
    requires k + n <= |s|
    ensures s[..k] + s[k..k + n] == s[..k + n]
  {
  }

  lemma LastBlock(a: nat, b: nat)
    requires b > 0
    ensures a - (a / b) * b < b
  {
  }

  lemma BlocksStep(disk: seq<byte>, count: nat, blockSize: nat)
    requires 0 < blockSize <= |disk| < MOD64 && count < |disk| / blockSize
    requires count * blockSize <= |disk| && Blocks(disk, count, blockSize) == disk[..count * blockSize]
    ensures (count + 1) * blockSize <= |disk|
    ensures Blocks(disk, count + 1, blockSize) == disk[..(count + 1) * blockSize]
  {
    NextMultiple(count, blockSize);
    DivBound(|disk|, count, blockSize);
    BlocksNext(disk, count, blockSize);
    PrefixGrows(disk, count * blockSize, blockSize);
  }

  lemma BlocksNext(disk: seq<byte>, count: nat, blockSize: nat)
    requires 0 < blockSize <= |disk| < MOD64 && count < |disk| / blockSize
    ensures Blocks(disk, count + 1, blockSize) == Blocks(disk, count, blockSize) + BlockBytes(disk, count, blockSize)
  {
    BlockInFile(disk, count, blockSize);
  }

  /** The first blocks, in order, are the file from its start. */
  lemma {:induction false} BlocksAreThePrefix(disk: seq<byte>, count: nat, blockSize: nat)
    requires 0 < blockSize <= |disk| < MOD64 && count <= |disk| / blockSize
    ensures count * blockSize <= |disk|
    ensures Blocks(disk, count, blockSize) == disk[..count * blockSize]
  {
    if count > 0 {
      BlocksAreThePrefix(disk, count - 1, blockSize);
      BlocksStep(disk, count - 1, blockSize);
    }
  }

  /** All blocks together are the longest block-aligned prefix of the file. */
  lemma AllBlocksCoverTheFile(disk: seq<byte>, blockSize: nat)
    requires 0 < blockSize <= |disk| < MOD64
    ensures
      var all := Blocks(disk, |disk| / blockSize, blockSize);
      all <= disk && |all| == (|disk| / blockSize) * blockSize && |disk| - |all| < blockSize
  {
    BlocksAreThePrefix(disk, |disk| / blockSize, blockSize);
    LastBlock(|disk|, blockSize);
  }

  class Blockstorage {
    const disk: seq<byte>
    const blockSize: nat
    var fileLength: uint64

    predicate Valid()
      reads this
    {
      0 < blockSize <= |disk| && fileLength == |disk|
    }

    /** Takes the file length once. */
    constructor (disk: seq<byte>, blockSize: nat)
      requires 0 < blockSize <= |disk| < MOD64
      ensures Valid() && this.disk == disk && this.blockSize == blockSize
    {
      this.disk, this.blockSize, fileLength := disk, blockSize, |disk|;
    }

    predicate IsBlockAvailable(num: uint64)
      reads this
    {
      Available(num, fileLength, blockSize)
    }

    /** Seeks to the wrapped offset and fills a fresh buffer with one block; null when unavailable. */
    method GetBlock(num: uint64) returns (block: array?<byte>)
      requires Valid()
      ensures block == null <==> BlockAt(disk, num, blockSize) == Null
      ensures block != null ==> fresh(block) && Block(block[..]) == BlockAt(disk, num, blockSize)
    {
      if !IsBlockAvailable(num) {
        return null;
      }
      var position := Offset(num, blockSize);
      ReadAt(disk, num, position, blockSize);
      block := Fill(disk[position..position + blockSize]);
    }

    /** `read` into a fresh buffer. */
    static method Fill(bytes: seq<byte>) returns (buffer: array<byte>)
      ensures fresh(buffer) && buffer[..] == bytes
    {
      buffer := new byte[|bytes|](i requires 0 <= i < |bytes| => bytes[i]);
    }

    /** Stores nothing. */
    method StoreBlock(num: uint64, data: seq<byte>)
      ensures unchanged(this)
    {
    }
  }
}
