# freemap in Dafny

A model of **freemap**, a fixed-capacity bitmap block allocator. A map tracks
which of `total` blocks are in use: bit `b % 32` of word `b / 32` of its
bitmap is 1 when block `b` is allocated, and a `free` counter sits beside the
bitmap. The operations are create, check, allocate (lowest free block
first), deallocate, and the bit-scan helper that finds the lowest clear bit
of a word.

Files and modules:

- `bits.dfy`, module `Bits`: the bitwise operators the allocator applies to its
  words (`&`, `|`, `~` truncated to the word, `1 << k`), defined digit by digit
  on naturals, with per-bit lemmas proved by induction.
- `freemap_h.dfy`, module `FreemapDefs`: the header's word width (32), full-word
  pattern `0xFFFFFFFF`, the `uint8_t`/`uint32_t` ranges, `uint32_t` wrap-around
  for `++`/`--`, and the four status flags.
- `blocks.dfy`, module `Blocks`: the bitmap as a sequence of words. It holds
  the specification functions: which block is allocated, the bitmap after
  setting or clearing one block, the set and number of free blocks, and the
  lowest free block. Lemmas say what each update does to every block and to
  the free count.
- `freemap.dfy`, module `Freemap`: class `Freemap` with the fields of
  `freemap_t` (`bitmap` as an `array<u32>`, `total`, `free`). Create, check,
  allocate and deallocate update that state in place. `FirstFree` is the
  early-exit bit-scan loop. `Result` mirrors `freemap_result_t`, with its map
  pointer as a reference to the object.
- `scenarios.dfy`, module `Scenarios`: whole sessions on a fresh map (fill,
  free a sorted list of blocks, refill). It also holds the concrete values
  the repository's test file expects.

The invariant "`free` equals the number of clear bits among blocks
`[0, total)`" is the predicate `Freemap.Consistent`. Allocate preserves it.
Deallocate preserves it exactly when the block was allocated. The source
increments `free` unconditionally, so a double free leaves the counter one
above the true count. The model follows the code here, and
`Freemap.Deallocate` and `Blocks.CounterAfterClear` state this as an
if-and-only-if.

Three facts about the code shape the model:

- The bitmap has `total / 32 + 1` words, the range allocate scans
  (src/freemap.c:36). When `total` is a multiple of 32 the last word is
  entirely padding.
- Check and deallocate index word `block / 32` with no range check
  (src/freemap.c:18-20, 64-66).
- Deallocate increments `free` whether or not the bit was set
  (src/freemap.c:72).

`Freemap.Result` is `freemap_result_t` (src/freemap.h:21-25): a status byte,
a block number and the map. What each operation puts in it is stated by the
contracts of `Check`, `Allocate` and `Deallocate`.

## Model

| member | source | states |
|---|---|---|
| `Bits.And` | src/freemap.c:23 | `a & b` is no larger than either operand (its bits are stated by `Bits.BitAnd`) |
| `Bits.Or` | src/freemap.c:43 | `a OR b` is no smaller than either operand (its bits are stated by `Bits.BitOr`) |
| `Bits.Not` | src/freemap.c:73 | `~a` truncated to an n-bit word stays below 2^n (its bits are stated by `Bits.BitNot`) |
| `Bits.BitAnd` | src/freemap.c:23 | bit i of `a & b` is set iff bit i is set in both a and b |
| `Bits.BitOr` | src/freemap.c:43 | bit i of `a OR b` is set iff bit i is set in a or in b |
| `Bits.BitNot` | src/freemap.c:73 | within the word's n bits, `~a` has exactly the bits of a flipped |
| `Bits.BitPow2` | src/freemap.c:23 | `1 << k` has exactly bit k set |
| `Bits.AndPow2` | src/freemap.c:84 | `w & (1 << k)` is nonzero iff bit k of w is set |
| `Bits.AllOnes` | src/freemap.c:38 | an n-bit word with all n bits set equals 2^n - 1 (the full word when n = 32) |
| `Bits.OnesBit` | src/freemap.c:38 | every bit below n of 2^n - 1 is set, so a full word has no free block |
| `Bits.OrBound` | src/freemap.h:16 | OR of two 32-bit words fits in 32 bits |
| `FreemapDefs.Inc32` | src/freemap.c:72 | `free++` on `uint32_t` is `(free + 1) mod 2^32` |
| `FreemapDefs.Dec32` | src/freemap.c:48 | `free--` on `uint32_t` is `(free - 1) mod 2^32` |
| `FreemapDefs.IncDec` | src/freemap.h:18 | wrapping increment and decrement undo each other |
| `FreemapDefs.StatusFlagsDistinct` | src/freemap.h:9-12 | SUCCESS, FAILURE, ALLOCATED, DEALLOCATED are single bits, pairwise disjoint |
| `FreemapDefs.ProducedStatusesDistinct` | src/freemap.h:9-12 | the four produced statuses are distinct; only FAILURE lacks the SUCCESS bit |
| `Blocks.Allocated` | src/freemap.c:18-23 | block b is allocated iff `word & (1 << bit)` is nonzero for word `b / 32` and bit `b % 32` |
| `Blocks.SetBlock` | src/freemap.c:43 | OR-ing the mask into word b/32 keeps the length, leaves every other word unchanged and makes block b allocated |
| `Blocks.ClearBlock` | src/freemap.c:73 | AND-ing with the complemented mask keeps the length, leaves every other word unchanged and makes block b free |
| `Blocks.SameBlock` | src/freemap.c:18-19 | a block is determined by its word `b / 32` and bit `b % 32` |
| `Blocks.SetBlockAt` | src/freemap.c:43 | after setting bit b%32 of word b/32, block c is allocated iff c = b or it was before |
| `Blocks.ClearBlockAt` | src/freemap.c:73 | after clearing bit b%32 of word b/32, block c is allocated iff c != b and it was before |
| `Blocks.ClearBlockIdempotent` | src/freemap.c:73 | clearing a block twice equals clearing it once; afterwards it reads free |
| `Blocks.ClearFreeBlock` | src/freemap.c:73 | clearing a block that is already free leaves the bitmap unchanged |
| `Blocks.SetThenClear` | src/freemap.c:43-73 | setting a free block and then clearing it restores the bitmap |
| `Blocks.SetBlockFree` | src/freemap.c:43 | setting a free block below total removes exactly it from the free set; the free count drops by one |
| `Blocks.ClearBlockFree` | src/freemap.c:73 | clearing a block below total adds it to the free set; the count grows by one iff it was allocated |
| `Blocks.FreeCountBound` | src/freemap.h:17-18 | the free count never exceeds total |
| `Blocks.FreeCountBelow` | src/freemap.c:72 | if some block below total is allocated, fewer than total blocks are free, so deallocating it cannot wrap the counter |
| `Blocks.EmptyAllFree` | src/freemap.c:8-10 | a zeroed bitmap has every block free, padding included, and a free count equal to total |
| `Blocks.CounterAfterSet` | src/freemap.c:43-48 | if free equals the free count, decrementing it while setting a free block keeps them equal |
| `Blocks.CounterAfterClear` | src/freemap.c:69-73 | if free equals the free count, incrementing it while clearing block b keeps them equal iff b was allocated |
| `Freemap.FirstFree` | src/freemap.c:82-88 | returns the least offset below 32 whose bit is clear, all lower bits set; returns 0xFF iff the word is full |
| `Freemap.BlockNumberFits` | src/freemap.c:36-45 | for every `uint32_t` total, `offset * 32 + bit` over the scanned offsets and a bit below 32 stays below 2^32, so the natural-number block agrees with C |
| `Freemap.AllocateThenDeallocate` | src/freemap.c:43-73 | deallocating just-allocated block b reports it allocated and restores the bitmap and the counter |
| `Freemap.Freemap.constructor` | src/freemap.c:6-12 | total and free equal n, the total/32+1 words are zero, every block checks free, the counter is consistent |
| `Freemap.Freemap.Check` | src/freemap.c:14-30 | changes nothing; echoes the block and the map; SUCCESS+ALLOCATED iff bit b%32 of word b/32 is set, else SUCCESS+DEALLOCATED |
| `Freemap.Freemap.Allocate` | src/freemap.c:32-58 | on success, the lowest free block below total, only that bit set, free decremented; on failure (all blocks below total allocated, padding not counted) block 0 and nothing changed; keeps the counter consistent |
| `Freemap.Freemap.Deallocate` | src/freemap.c:60-76 | clears exactly bit b, increments free unconditionally, SUCCESS+DEALLOCATED iff b was allocated else SUCCESS; from a consistent state the result is consistent iff b was allocated |
| `Scenarios.Fill` | src/freemap_test.cc:145-154 | on a fresh map, the i-th allocation succeeds with block i and leaves total - 1 - i free; afterwards every block is allocated and free is 0 |
| `Scenarios.Release` | src/freemap_test.cc:162-179 | on a full map, each listed block deallocates with SUCCESS+DEALLOCATED and the i-th leaves free at i + 1; afterwards exactly the listed blocks are free and free is their number |
| `Scenarios.Refill` | src/freemap_test.cc:181-198 | with a sorted list of blocks free, allocation succeeds with those blocks in order, the i-th leaving free at length - 1 - i; afterwards every block is allocated and free is 0 |
| `Scenarios.FillFreeRefill` | src/freemap_test.cc:132-202 | a whole session on a fresh n-block map: the fill order and counters, the failed extra allocation (block 0, the same map, free 0), the DEALLOCATED statuses and counters of the release, the bitmap after it, and the refill order, statuses and counters |
| `Scenarios.AllocateDeallocate` | src/freemap.c:32-76 | on a map with a free block, allocating and then deallocating the block just returned reports SUCCESS+DEALLOCATED for that block and restores the bitmap and the counter |
| `Scenarios.SixteenWithFiveFree` | src/freemap_test.cc:56-57 | a one-word map with blocks 0..15 except 5 allocated holds word 0b1111111111011111 |
| `Scenarios.SixteenBlocks` | src/freemap_test.cc:19-68 | 16 blocks: fill order 0..15 with counters 15..0, the 17th allocation fails, freeing 5 leaves free 1, word 0 is 0b1111111111011111, and the next allocation returns 5 leaving free 0 |
| `Scenarios.FortyEightBlocks` | src/freemap_test.cc:132-202 | 48 blocks: the session outcome with 21, 30, 47 freed (counters 1, 2, 3) and reallocated in that order (counters 2, 1, 0) |
| `Scenarios.HundredThirteenBlocks` | src/freemap_test.cc:205-275 | 113 blocks: the session outcome with 37, 51, 111 freed (counters 1, 2, 3) and reallocated in that order (counters 2, 1, 0) |
| `Scenarios.FirstFreeExamples` | src/freemap_test.cc:294-301 | the bit scan of 0, 1, 0b1111, 0b1011, 0xFF gives 0, 1, 4, 2, 8 |

## Left out

- `freemap_destroy` and the raw `malloc`/`calloc` calls (src/freemap.c:7-8, 78-80) are memory management with no Dafny counterpart. The model does not copy two defects there. The `calloc` size is computed in bytes: 11 bytes for 113 blocks, though allocate reads 4 words. Destroy never frees the bitmap. The constructor allocates the `total / 32 + 1` words that allocate scans.
- Out-of-range blocks: `freemap_check` and `freemap_deallocate` have no range check. For `total <= block < 32 * (total / 32 + 1)` the C code reads or clears a padding bit of the last word, which nothing ever sets. Check then reports SUCCESS+DEALLOCATED, and deallocate reports SUCCESS and increments `free` with no bit changing. For larger blocks the C code reads and writes outside the bitmap. The model requires `block < total` and has no out-of-range result. The range-check expectations at src/freemap_test.cc:114-125 belong to another revision of the code.
- `freemap_store_type_t` and `FREEMAP_FULL` are used throughout src/freemap.c (lines 8, 20, 23, 37, 38, 66, 69, 73, 82) but defined in none of the source files. The header's own declarations use `uint32_t` for the bitmap words and the scan argument (src/freemap.h:16, 33). So the model takes the word type as `u32` and `FREEMAP_FULL` as `0xFFFFFFFF`.
- `freemap_sync` and `FREEMAP_HAMMING` are used by the test file but defined in none of the source files. They are not part of this model.
- src/environment.h (architecture detection) is not included by the header. The word width is fixed at 32.
- Concurrency: the map has no locking, and the model is sequential.
