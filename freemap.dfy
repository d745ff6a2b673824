/**
  The allocator itself: a map object owning an array of 32-bit words, its
  fixed capacity and a free counter, with create, check, allocate and
  deallocate updating that state in place, and the bit-scan helper the
  allocator uses to find the lowest clear bit of a word.
 */
module Freemap {
  import opened Bits
  import opened FreemapDefs
  import opened Blocks

  /** What every operation returns: status flags, a block number and the map it was called on. */
  datatype Result = Result(status: bv8, block: u32, freemap: Freemap)

  /**
    The offset of the lowest clear bit of num, or the sentinel 0xFF when all
    32 bits are set. The sentinel lies outside 0..31, so it cannot be taken
    for an offset.
   */
  method FirstFree(num: u32) returns (r: u8)
    ensures r < WordBits || r == 0xFF
    ensures r < WordBits ==> !Bit(num, r) && forall j: nat :: j < r ==> Bit(num, j)
    ensures r == 0xFF <==> num == FullWord
  {
    for i := 0 to WordBits
      invariant forall j: nat :: j < i ==> Bit(num, j)
    {
      AndPow2(num, i);
      if And(num, Pow2(i)) == 0 {
        if num == FullWord {
          OnesBit(WordBits, i);
          assert Pow2(32) == FullWord + 1 by { MaskFits(0); }
        }
        return i;
      }
    }
    MaskFits(0);
    AllOnes(num, WordBits);
    return 0xFF;
  }

  /**
    Deallocating a block right after allocating it reports the block as
    having been allocated and restores both the bitmap and the counter.
   */
  lemma AllocateThenDeallocate(ws: Words, free: u32, b: nat)
    requires HasWord(ws, b) && !Allocated(ws, b)
    ensures Allocated(SetBlock(ws, b), b)
    ensures ClearBlock(SetBlock(ws, b), b) == ws
    ensures Inc32(Dec32(free)) == free
  {
    SetBlockAt(ws, b, b);
    SetThenClear(ws, b);
    IncDec(free);
  }

  /**
    The block number allocate computes, `offset * 32 + bit`, never exceeds
    the `uint32_t` range: the scanned offsets stop at total / 32, and a word
    that is not full has its lowest clear bit below 32. Computing it on
    naturals therefore agrees with the C arithmetic for every total.
   */
  lemma BlockNumberFits(total: u32, offset: nat, bit: nat)
    requires offset <= total / WordBits && bit < WordBits
    ensures offset * WordBits + bit < U32Limit
  {
  }

  /** A bitmap allocator for a fixed number of blocks. */
  class Freemap {
    /** One bit per block: bit b % 32 of word b / 32 is 1 when block b is allocated. */
    const bitmap: array<u32>
    /** Number of blocks; fixed when the map is created. */
    const total: u32
    /** Counter of free blocks, kept beside the bitmap. */
    var free: u32

    /** The bitmap covers every word the allocator scans. */
    ghost predicate Valid()
      reads this
    {
      bitmap.Length == total / WordBits + 1
    }

    /** The counter agrees with the bitmap. */
    ghost predicate Consistent()
      reads this, bitmap
      requires Valid()
    {
      free == FreeCount(bitmap[..], total)
    }

    /** A map of `blocks` blocks, all of them free. */
    constructor (blocks: u32)
      ensures Valid() && fresh(bitmap)
      ensures total == blocks && free == blocks
      ensures bitmap[..] == EmptyWords(blocks / WordBits + 1)
      ensures forall b: nat :: b < total ==> !Allocated(bitmap[..], b)
      ensures Consistent()
    {
      bitmap := new u32[blocks / WordBits + 1](_ => 0);
      total := blocks;
      free := blocks;
      new;
      assert bitmap[..] == EmptyWords(blocks / WordBits + 1);
      EmptyAllFree(blocks / WordBits + 1, blocks);
    }

    /** Whether `block` is allocated; nothing changes. */
    method Check(block: u32) returns (r: Result)
      requires Valid() && block < total
      ensures r.freemap == this && r.block == block
      ensures r.status == if Allocated(bitmap[..], block)
                          then StatusSuccess | StatusAllocated
                          else StatusSuccess | StatusDeallocated
    {
      var offset := block / WordBits;
      var bit := block % WordBits;
      var checkword := bitmap[offset];
      var status := StatusSuccess;
      AndPow2(checkword, bit);
      if And(checkword, Pow2(bit)) != 0 {
        status := status | StatusAllocated;
      } else {
        status := status | StatusDeallocated;
      }
      r := Result(status, block, this);
    }

    /**
      Allocates the lowest-numbered free block: scans the words in order,
      skips full ones, and takes the lowest clear bit of the first word that
      is not full unless that bit lies at or past the capacity.
     */
    method Allocate() returns (r: Result)
      requires Valid()
      modifies this, bitmap
      ensures Valid()
      ensures r.freemap == this
      ensures r.status == StatusSuccess | StatusAllocated || r.status == StatusFailure
      ensures r.status == StatusSuccess | StatusAllocated ==>
        && IsLowestFree(old(bitmap[..]), total, r.block)
        && bitmap[..] == SetBlock(old(bitmap[..]), r.block)
        && free == Dec32(old(free))
      ensures r.status == StatusFailure ==>
        && r.block == 0
        && NoneFree(old(bitmap[..]), total)
        && bitmap[..] == old(bitmap[..])
        && free == old(free)
      ensures old(Consistent()) ==> Consistent()
    {
      ghost var before := bitmap[..];
      for offset := 0 to total / WordBits + 1
        invariant bitmap[..] == before && free == old(free)
        invariant forall c: nat :: c < offset * WordBits ==> Allocated(before, c)
      {
        var cw := bitmap[offset];
        if cw != FullWord {
          var bit := FirstFree(cw);
          if offset * WordBits + bit >= total {
            forall c: nat | c < total
              ensures Allocated(before, c)
            {
              if c >= offset * WordBits {
                assert c / WordBits == offset && c % WordBits < bit;
              }
            }
            break;
          }
          BlockNumberFits(total, offset, bit);
          var block := offset * WordBits + bit;
          assert block / WordBits == offset && block % WordBits == bit;
          MaskFits(block);
          OrBound(cw, Pow2(bit), WordBits);
          bitmap[offset] := Or(bitmap[offset], Pow2(bit));
          assert bitmap[..] == SetBlock(before, block);
          r := Result(StatusSuccess | StatusAllocated, block, this);
          if free == FreeCount(before, total) {
            CounterAfterSet(before, total, free, block);
          }
          free := Dec32(free);
          return;
        }
        forall c: nat | c < (offset + 1) * WordBits
          ensures Allocated(before, c)
        {
          if c >= offset * WordBits {
            MaskFits(0);
            OnesBit(WordBits, c % WordBits);
          }
        }
      }
      r := Result(StatusFailure, 0, this);
    }

    /**
      Frees `block` and reports whether it was allocated. The counter is
      incremented whether or not the block was allocated.
     */
    method Deallocate(block: u32) returns (r: Result)
      requires Valid() && block < total
      modifies this, bitmap
      ensures Valid()
      ensures r.freemap == this && r.block == block
      ensures r.status == if Allocated(old(bitmap[..]), block)
                          then StatusSuccess | StatusDeallocated
                          else StatusSuccess
      ensures bitmap[..] == ClearBlock(old(bitmap[..]), block)
      ensures free == Inc32(old(free))
      ensures old(Consistent()) ==> (Consistent() <==> Allocated(old(bitmap[..]), block))
    {
      ghost var before := bitmap[..];
      var offset := block / WordBits;
      var bit := block % WordBits;
      var checkword := bitmap[offset];
      var status := StatusSuccess;
      AndPow2(checkword, bit);
      if And(checkword, Pow2(bit)) != 0 {
        status := status | StatusDeallocated;
      }
      r := Result(status, block, this);
      if free == FreeCount(before, total) {
        CounterAfterClear(before, total, free, block);
      }
      free := Inc32(free);
      MaskFits(block);
      bitmap[offset] := And(bitmap[offset], Not(Pow2(bit), WordBits));
      assert bitmap[..] == ClearBlock(before, block);
    }
  }
}
