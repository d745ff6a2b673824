/**
  The bitmap as a value: a sequence of 32-bit words in which bit `b % 32` of
  word `b / 32` is 1 exactly when block b is allocated. The functions here
  are the specification the allocator's in-place operations are proved
  against; the lemmas say what they do to individual blocks and to the
  number of free blocks.
 */
module Blocks {
  import opened Bits
  import opened FreemapDefs

  type Words = seq<u32>

  /** Block b has a word in ws (it may be padding past the capacity). */
  predicate HasWord(ws: Words, b: nat)
  {
    b / WordBits < |ws|
  }

  /** Every block below total has a word in ws. */
  predicate Spans(ws: Words, total: nat)
  {
    total / WordBits < |ws|
  }

  /**
    Block b is marked allocated: bit b % 32 of word b / 32 is set, which is
    what the test `word & (1 << (b % 32))` reads.
   */
  predicate Allocated(ws: Words, b: nat)
    requires HasWord(ws, b)
    ensures Allocated(ws, b) <==> And(ws[b / WordBits], Pow2(b % WordBits)) != 0
  {
    AndPow2(ws[b / WordBits], b % WordBits);
    Bit(ws[b / WordBits], b % WordBits)
  }

  /** `1 << (b % 32)` fits a word, and so does its 32-bit complement. */
  lemma MaskFits(b: nat)
    ensures Pow2(b % WordBits) < Pow2(WordBits) == U32Limit
  {
    assert Pow2(8) == 0x100;
    assert Pow2(16) == 0x1_0000;
    assert Pow2(24) == 0x100_0000;
    assert Pow2(32) == 0x1_0000_0000;
    Pow2Monotone(b % WordBits, WordBits);
  }

  /** The bitmap after `word[b / 32] |= 1 << (b % 32)`. */
  function SetBlock(ws: Words, b: nat): (r: Words)
    requires HasWord(ws, b)
    ensures |r| == |ws| && Allocated(r, b)
    ensures forall k :: 0 <= k < |ws| && k != b / WordBits ==> r[k] == ws[k]
  {
    var k, mask := b / WordBits, Pow2(b % WordBits);
    MaskFits(b);
    OrBound(ws[k], mask, WordBits);
    BitOr(ws[k], mask, b % WordBits);
    BitPow2(b % WordBits, b % WordBits);
    ws[k := Or(ws[k], mask)]
  }

  /** The bitmap after `word[b / 32] &= ~(1 << (b % 32))`. */
  function ClearBlock(ws: Words, b: nat): (r: Words)
    requires HasWord(ws, b)
    ensures |r| == |ws| && !Allocated(r, b)
    ensures forall k :: 0 <= k < |ws| && k != b / WordBits ==> r[k] == ws[k]
  {
    var k, mask := b / WordBits, Pow2(b % WordBits);
    MaskFits(b);
    BitAnd(ws[k], Not(mask, WordBits), b % WordBits);
    BitNot(mask, WordBits, b % WordBits);
    BitPow2(b % WordBits, b % WordBits);
    ws[k := And(ws[k], Not(mask, WordBits))]
  }

  /** The block numbers below n. */
  ghost function Below(n: nat): (s: set<nat>)
    ensures forall b: nat :: b in s <==> b < n
  {
    if n == 0 then {} else Below(n - 1) + {n - 1}
  }

  /** The free blocks below total. */
  ghost function FreeSet(ws: Words, total: nat): set<nat>
    requires Spans(ws, total)
  {
    set b | b in Below(total) && !Allocated(ws, b)
  }

  /** How many blocks below total are free. */
  ghost function FreeCount(ws: Words, total: nat): nat
    requires Spans(ws, total)
  {
    |FreeSet(ws, total)|
  }

  /** b is the lowest-numbered free block below total. */
  ghost predicate IsLowestFree(ws: Words, total: nat, b: nat)
    requires Spans(ws, total)
  {
    && b < total
    && !Allocated(ws, b)
    && forall c: nat :: c < b ==> Allocated(ws, c)
  }

  /** Every block below total is allocated. */
  ghost predicate NoneFree(ws: Words, total: nat)
    requires Spans(ws, total)
  {
    forall c: nat :: c < total ==> Allocated(ws, c)
  }

  /** A word with no bits set. */
  function EmptyWords(n: nat): (ws: Words)
    ensures |ws| == n
  {
    seq(n, _ => 0)
  }

  /** Two blocks in the same word at the same offset are the same block. */
  lemma SameBlock(b: nat, c: nat)
    requires b / WordBits == c / WordBits && b % WordBits == c % WordBits
    ensures b == c
  {
  }

  /** Setting block b marks b allocated and leaves every other block as it was. */
  lemma SetBlockAt(ws: Words, b: nat, c: nat)
    requires HasWord(ws, b) && HasWord(ws, c)
    ensures Allocated(SetBlock(ws, b), c) == (c == b || Allocated(ws, c))
  {
    if b / WordBits == c / WordBits {
      BitOr(ws[b / WordBits], Pow2(b % WordBits), c % WordBits);
      BitPow2(b % WordBits, c % WordBits);
      if b % WordBits == c % WordBits {
        SameBlock(b, c);
      }
    }
  }

  /** Clearing block b marks b free and leaves every other block as it was. */
  lemma ClearBlockAt(ws: Words, b: nat, c: nat)
    requires HasWord(ws, b) && HasWord(ws, c)
    ensures Allocated(ClearBlock(ws, b), c) == (c != b && Allocated(ws, c))
  {
    if b / WordBits == c / WordBits {
      var mask := Pow2(b % WordBits);
      MaskFits(b);
      BitAnd(ws[b / WordBits], Not(mask, WordBits), c % WordBits);
      BitNot(mask, WordBits, c % WordBits);
      BitPow2(b % WordBits, c % WordBits);
      if b % WordBits == c % WordBits {
        SameBlock(b, c);
      }
    }
  }

  /** Two bitmaps of the same length that agree on every block are equal. */
  lemma WordsEqual(ws: Words, vs: Words)
    requires |ws| == |vs|
    requires forall b: nat :: HasWord(ws, b) ==> Allocated(ws, b) == Allocated(vs, b)
    ensures ws == vs
  {
    forall k | 0 <= k < |ws|
      ensures ws[k] == vs[k]
    {
      forall i: nat
        ensures Bit(ws[k], i) == Bit(vs[k], i)
      {
        if i < WordBits {
          var b := k * WordBits + i;
          assert b / WordBits == k && b % WordBits == i;
          assert Allocated(ws, b) == Allocated(vs, b);
        } else {
          MaskFits(0);
          BitHigh(ws[k], WordBits, i);
          BitHigh(vs[k], WordBits, i);
        }
      }
      BitsEqual(ws[k], vs[k]);
    }
  }

  /**
    Clearing a block twice is the same as clearing it once, and after the
    first time the block reads as free.
   */
  lemma ClearBlockIdempotent(ws: Words, b: nat)
    requires HasWord(ws, b)
    ensures !Allocated(ClearBlock(ws, b), b)
    ensures ClearBlock(ClearBlock(ws, b), b) == ClearBlock(ws, b)
  {
    var once := ClearBlock(ws, b);
    ClearBlockAt(ws, b, b);
    forall c: nat | HasWord(ws, c)
      ensures Allocated(ClearBlock(once, b), c) == Allocated(once, c)
    {
      ClearBlockAt(once, b, c);
      ClearBlockAt(ws, b, c);
    }
    WordsEqual(ClearBlock(once, b), once);
  }

  /** Clearing a block that is already free changes nothing. */
  lemma ClearFreeBlock(ws: Words, b: nat)
    requires HasWord(ws, b) && !Allocated(ws, b)
    ensures ClearBlock(ws, b) == ws
  {
    forall c: nat | HasWord(ws, c)
      ensures Allocated(ClearBlock(ws, b), c) == Allocated(ws, c)
    {
      ClearBlockAt(ws, b, c);
    }
    WordsEqual(ClearBlock(ws, b), ws);
  }

  /** Setting a free block and then clearing it restores the bitmap. */
  lemma SetThenClear(ws: Words, b: nat)
    requires HasWord(ws, b) && !Allocated(ws, b)
    ensures ClearBlock(SetBlock(ws, b), b) == ws
  {
    var set1 := SetBlock(ws, b);
    forall c: nat | HasWord(ws, c)
      ensures Allocated(ClearBlock(set1, b), c) == Allocated(ws, c)
    {
      ClearBlockAt(set1, b, c);
      SetBlockAt(ws, b, c);
    }
    WordsEqual(ClearBlock(set1, b), ws);
  }

  /** Setting a free block below total removes exactly that block from the free set. */
  lemma SetBlockFree(ws: Words, total: nat, b: nat)
    requires Spans(ws, total) && b < total && !Allocated(ws, b)
    ensures FreeSet(SetBlock(ws, b), total) == FreeSet(ws, total) - {b}
    ensures FreeCount(SetBlock(ws, b), total) == FreeCount(ws, total) - 1
  {
    forall c: nat | c < total
      ensures Allocated(SetBlock(ws, b), c) == (c == b || Allocated(ws, c))
    {
      SetBlockAt(ws, b, c);
    }
    assert FreeSet(SetBlock(ws, b), total) == FreeSet(ws, total) - {b};
  }

  /**
    Clearing a block below total adds it to the free set. The free count
    grows by one only if the block was allocated.
   */
  lemma ClearBlockFree(ws: Words, total: nat, b: nat)
    requires Spans(ws, total) && b < total
    ensures FreeSet(ClearBlock(ws, b), total) == FreeSet(ws, total) + {b}
    ensures FreeCount(ClearBlock(ws, b), total)
         == FreeCount(ws, total) + (if Allocated(ws, b) then 1 else 0)
  {
    forall c: nat | c < total
      ensures Allocated(ClearBlock(ws, b), c) == (c != b && Allocated(ws, c))
    {
      ClearBlockAt(ws, b, c);
    }
    assert FreeSet(ClearBlock(ws, b), total) == FreeSet(ws, total) + {b};
    if Allocated(ws, b) {
      assert b !in FreeSet(ws, total);
    } else {
      assert b in FreeSet(ws, total);
      assert FreeSet(ws, total) + {b} == FreeSet(ws, total);
    }
  }

  /** The numbers below n are n in number. */
  lemma {:induction false} BelowSize(n: nat)
    ensures |Below(n)| == n
  {
    if n > 0 {
      BelowSize(n - 1);
    }
  }

  /** There are never more free blocks than blocks. */
  lemma FreeCountBound(ws: Words, total: nat)
    requires Spans(ws, total)
    ensures FreeCount(ws, total) <= total
  {
    BelowSize(total);
    SubsetSize(FreeSet(ws, total), Below(total));
  }

  /** If some block below total is allocated, fewer than total blocks are free. */
  lemma FreeCountBelow(ws: Words, total: nat, b: nat)
    requires Spans(ws, total) && b < total && Allocated(ws, b)
    ensures FreeCount(ws, total) < total
  {
    BelowSize(total);
    SubsetSize(FreeSet(ws, total), Below(total) - {b});
  }

  lemma {:induction false} SubsetSize(a: set<nat>, b: set<nat>)
    requires a <= b
    ensures |a| <= |b|
    decreases |b|
  {
    if a != {} {
      var x :| x in a;
      SubsetSize(a - {x}, b - {x});
    }
  }

  /** A bitmap of zero words has every block free, padding included. */
  lemma EmptyAllFree(n: nat, total: nat)
    requires total / WordBits < n
    ensures forall b: nat :: b < n * WordBits ==> HasWord(EmptyWords(n), b) && !Allocated(EmptyWords(n), b)
    ensures FreeCount(EmptyWords(n), total) == total
  {
    forall b: nat | b < n * WordBits
      ensures HasWord(EmptyWords(n), b) && !Allocated(EmptyWords(n), b)
    {
      BitZero(b % WordBits);
    }
    BelowSize(total);
    assert FreeSet(EmptyWords(n), total) == Below(total);
  }

  /**
    The allocation invariant: free is the number of free blocks. Setting a
    free block while decrementing free keeps it; clearing an allocated block
    while incrementing free keeps it; clearing a block that is already free
    while incrementing free (double free) breaks it, leaving free one above
    the true count.
   */
  lemma CounterAfterSet(ws: Words, total: nat, free: u32, b: nat)
    requires Spans(ws, total) && b < total && !Allocated(ws, b)
    requires free == FreeCount(ws, total)
    ensures Dec32(free) == FreeCount(SetBlock(ws, b), total)
  {
    SetBlockFree(ws, total, b);
    assert b in FreeSet(ws, total);
  }

  lemma CounterAfterClear(ws: Words, total: nat, free: u32, b: nat)
    requires Spans(ws, total) && b < total && total < U32Limit
    requires free == FreeCount(ws, total)
    ensures Inc32(free) == FreeCount(ClearBlock(ws, b), total) <==> Allocated(ws, b)
  {
    ClearBlockFree(ws, total, b);
    FreeCountBound(ClearBlock(ws, b), total);
  }
}
