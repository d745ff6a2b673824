/**
  The definitions of the freemap header: the word width, the full-word
  pattern, the C integer widths the records use, and the four status flags
  that every operation combines into its result.
 */
module FreemapDefs {

  /** Number of blocks tracked by one bitmap word (`FREEMAP_BITS`). */
  const WordBits: nat := 32

  /** A word whose 32 bits are all allocated (`FREEMAP_FULL`). */
  const FullWord: nat := 0xFFFF_FFFF

  /** One more than the largest `uint32_t`. */
  const U32Limit: nat := 0x1_0000_0000

  type u8 = x: int | 0 <= x < 0x100
  type u32 = x: int | 0 <= x < 0x1_0000_0000

  /** `x++` on a `uint32_t`, wrapping at 2^32. */
  function Inc32(x: u32): (r: u32)
    ensures r as int == (x as int + 1) % U32Limit
  {
    if x == FullWord then 0 else x + 1
  }

  /** `x--` on a `uint32_t`, wrapping at 0. */
  function Dec32(x: u32): (r: u32)
    ensures r as int == (x as int - 1) % U32Limit
  {
    if x == 0 then FullWord else x - 1
  }

  /** Incrementing undoes decrementing, wrap-around included. */
  lemma IncDec(x: u32)
    ensures Inc32(Dec32(x)) == x && Dec32(Inc32(x)) == x
  {
  }

  // The status flags of a result (`uint8_t status`).
  const StatusSuccess: bv8 := 0x01
  const StatusFailure: bv8 := 0x02
  const StatusAllocated: bv8 := 0x04
  const StatusDeallocated: bv8 := 0x08

  predicate SingleBit(f: bv8)
  {
    f != 0 && f & (f - 1) == 0
  }

  /** The four flags are distinct single bits, so any OR of them can be decoded. */
  lemma StatusFlagsDistinct()
    ensures SingleBit(StatusSuccess) && SingleBit(StatusFailure)
    ensures SingleBit(StatusAllocated) && SingleBit(StatusDeallocated)
    ensures StatusSuccess & StatusFailure == 0 && StatusSuccess & StatusAllocated == 0
    ensures StatusSuccess & StatusDeallocated == 0 && StatusFailure & StatusAllocated == 0
    ensures StatusFailure & StatusDeallocated == 0 && StatusAllocated & StatusDeallocated == 0
  {
  }

  /** The only statuses the operations ever produce. */
  predicate ProducedStatus(s: bv8)
  {
    || s == StatusSuccess | StatusAllocated
    || s == StatusSuccess | StatusDeallocated
    || s == StatusSuccess
    || s == StatusFailure
  }

  /** The produced statuses are pairwise different and tell success from failure. */
  lemma ProducedStatusesDistinct()
    ensures StatusSuccess | StatusAllocated != StatusSuccess | StatusDeallocated
    ensures StatusSuccess | StatusAllocated != StatusSuccess
    ensures StatusSuccess | StatusDeallocated != StatusSuccess
    ensures forall s :: ProducedStatus(s) ==> (s & StatusSuccess != 0 <==> s != StatusFailure)
  {
  }
}
