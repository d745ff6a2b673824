/**
  Whole sessions on a map. On a fresh map, allocation hands out blocks
  0, 1, 2, ... until the map is full, and blocks freed afterwards come back
  from allocation in ascending order. The concrete sessions and bit-scan
  values at the end are the ones the repository's test file expects.
 */
module Scenarios {
  import opened Bits
  import opened FreemapDefs
  import opened Blocks
  import opened Freemap

  /** The allocated blocks of ws, padding included, are exactly `live`. */
  ghost predicate AllocatedExactly(ws: Words, live: set<nat>)
  {
    forall c: nat :: HasWord(ws, c) ==> (Allocated(ws, c) <==> c in live)
  }

  /** The block numbers listed in s. */
  ghost function Elems(s: seq<u32>): set<nat>
  {
    set i | 0 <= i < |s| :: s[i] as nat
  }

  lemma ElemsSnoc(s: seq<u32>, k: nat)
    requires k < |s|
    ensures Elems(s[..k + 1]) == Elems(s[..k]) + {s[k] as nat}
  {
    assert s[..k + 1] == s[..k] + [s[k]];
  }

  lemma ElemsCons(s: seq<u32>, k: nat)
    requires k < |s|
    ensures Elems(s[k..]) == {s[k] as nat} + Elems(s[k + 1..])
  {
    assert s[k..] == [s[k]] + s[k + 1..];
  }

  lemma DistinctUnlisted(s: seq<u32>, k: nat)
    requires k < |s| && forall i, j :: 0 <= i < j < |s| ==> s[i] != s[j]
    ensures s[k] as nat !in Elems(s[..k])
  {
  }

  lemma IncreasingHead(s: seq<u32>, k: nat)
    requires k < |s| && forall i, j :: 0 <= i < j < |s| ==> s[i] < s[j]
    ensures s[k] as nat !in Elems(s[k + 1..])
    ensures forall x :: x in Elems(s[k..]) ==> s[k] as nat <= x
  {
  }

  lemma SetBlockExactly(ws: Words, live: set<nat>, b: nat)
    requires HasWord(ws, b) && AllocatedExactly(ws, live)
    ensures AllocatedExactly(SetBlock(ws, b), live + {b})
  {
    forall c: nat | HasWord(ws, c)
      ensures Allocated(SetBlock(ws, b), c) <==> c in live + {b}
    {
      SetBlockAt(ws, b, c);
    }
  }

  /**
    When the allocated blocks are exactly `live`, b is not among them and
    every block below b is, b is the one block allocate can return, and
    setting it makes `live + {b}` the allocated set.
   */
  lemma AllocateStep(ws: Words, total: nat, live: set<nat>, b: nat)
    requires Spans(ws, total) && b < total && AllocatedExactly(ws, live)
    requires b !in live && forall c: nat :: c < b ==> c in live
    ensures !NoneFree(ws, total)
    ensures forall c: nat :: IsLowestFree(ws, total, c) ==> c == b
    ensures AllocatedExactly(SetBlock(ws, b), live + {b})
  {
    assert HasWord(ws, b);
    forall c: nat | IsLowestFree(ws, total, c)
      ensures c == b
    {
      assert HasWord(ws, c);
    }
    SetBlockExactly(ws, live, b);
  }

  /** One step of filling: blocks below k allocated, k comes next. */
  lemma FillStep(ws: Words, total: nat, k: nat)
    requires Spans(ws, total) && k < total && AllocatedExactly(ws, Below(k))
    ensures !NoneFree(ws, total)
    ensures forall c: nat :: IsLowestFree(ws, total, c) ==> c == k
    ensures AllocatedExactly(SetBlock(ws, k), Below(k + 1))
  {
    AllocateStep(ws, total, Below(k), k);
    assert Below(k) + {k} == Below(k + 1);
  }

  /** One step of refilling: the k-th listed block comes next. */
  lemma RefillStep(ws: Words, total: nat, freed: seq<u32>, k: nat)
    requires forall i, j :: 0 <= i < j < |freed| ==> freed[i] < freed[j]
    requires forall i :: 0 <= i < |freed| ==> freed[i] < total
    requires Spans(ws, total) && k < |freed|
    requires AllocatedExactly(ws, Below(total) - Elems(freed[k..]))
    ensures !NoneFree(ws, total)
    ensures forall c: nat :: IsLowestFree(ws, total, c) ==> c == freed[k]
    ensures AllocatedExactly(SetBlock(ws, freed[k]), Below(total) - Elems(freed[k + 1..]))
  {
    var live := Below(total) - Elems(freed[k..]);
    ElemsCons(freed, k);
    IncreasingHead(freed, k);
    AllocateStep(ws, total, live, freed[k]);
    assert live + {freed[k] as nat} == Below(total) - Elems(freed[k + 1..]);
  }

  /** One step of releasing: the k-th listed block is still allocated. */
  lemma ReleaseStep(ws: Words, total: nat, freed: seq<u32>, k: nat)
    requires forall i, j :: 0 <= i < j < |freed| ==> freed[i] != freed[j]
    requires forall i :: 0 <= i < |freed| ==> freed[i] < total
    requires Spans(ws, total) && k < |freed|
    requires AllocatedExactly(ws, Below(total) - Elems(freed[..k]))
    ensures Allocated(ws, freed[k]) && FreeCount(ws, total) < total
    ensures AllocatedExactly(ClearBlock(ws, freed[k]), Below(total) - Elems(freed[..k + 1]))
  {
    var live := Below(total) - Elems(freed[..k]);
    DistinctUnlisted(freed, k);
    assert freed[k] as nat in live;
    FreeCountBelow(ws, total, freed[k]);
    ClearBlockExactly(ws, live, freed[k]);
    ElemsSnoc(freed, k);
  }

  lemma ClearBlockExactly(ws: Words, live: set<nat>, b: nat)
    requires HasWord(ws, b) && AllocatedExactly(ws, live)
    ensures AllocatedExactly(ClearBlock(ws, b), live - {b})
  {
    forall c: nat | HasWord(ws, c)
      ensures Allocated(ClearBlock(ws, b), c) <==> c in live - {b}
    {
      ClearBlockAt(ws, b, c);
    }
  }

  /**
    Allocates every block of a fresh map. The blocks come out as 0, 1, 2, ...
    and after the i-th allocation the counter reads total - 1 - i.
   */
  method Fill(m: Freemap) returns (first: seq<nat>, statuses: seq<bv8>, counts: seq<u32>)
    requires m.Valid() && m.Consistent() && AllocatedExactly(m.bitmap[..], {})
    requires m.free == m.total
    modifies m, m.bitmap
    ensures m.Valid() && m.Consistent() && AllocatedExactly(m.bitmap[..], Below(m.total))
    ensures m.free == 0
    ensures |first| == m.total && forall i :: 0 <= i < |first| ==> first[i] == i
    ensures |statuses| == m.total && forall i :: 0 <= i < |statuses| ==> statuses[i] == StatusSuccess | StatusAllocated
    ensures |counts| == m.total && forall i :: 0 <= i < |counts| ==> counts[i] == m.total - 1 - i
  {
    first, statuses, counts := [], [], [];
    while |first| < m.total
      invariant m.Valid() && m.Consistent()
      invariant |first| <= m.total && forall i :: 0 <= i < |first| ==> first[i] == i
      invariant |statuses| == |first| && forall i :: 0 <= i < |statuses| ==> statuses[i] == StatusSuccess | StatusAllocated
      invariant |counts| == |first| && forall i :: 0 <= i < |counts| ==> counts[i] == m.total - 1 - i
      invariant m.free == m.total - |first|
      invariant AllocatedExactly(m.bitmap[..], Below(|first|))
    {
      ghost var ws := m.bitmap[..];
      FillStep(ws, m.total, |first|);
      var r := m.Allocate();
      first := first + [r.block];
      statuses := statuses + [r.status];
      counts := counts + [m.free];
    }
  }

  /**
    Deallocates the listed blocks of a full map. Each reports it was
    allocated, and after the i-th the counter reads i + 1.
   */
  method Release(m: Freemap, freed: seq<u32>) returns (released: seq<bv8>, counts: seq<u32>)
    requires forall i, j :: 0 <= i < j < |freed| ==> freed[i] != freed[j]
    requires forall i :: 0 <= i < |freed| ==> freed[i] < m.total
    requires m.Valid() && m.Consistent() && AllocatedExactly(m.bitmap[..], Below(m.total))
    requires m.free == 0
    modifies m, m.bitmap
    ensures m.Valid() && m.Consistent() && AllocatedExactly(m.bitmap[..], Below(m.total) - Elems(freed))
    ensures m.free == |freed|
    ensures |released| == |freed|
    ensures forall i :: 0 <= i < |freed| ==> released[i] == StatusSuccess | StatusDeallocated
    ensures |counts| == |freed| && forall i :: 0 <= i < |counts| ==> counts[i] == i + 1
  {
    released, counts := [], [];
    while |released| < |freed|
      invariant m.Valid() && m.Consistent()
      invariant |released| <= |freed|
      invariant forall i :: 0 <= i < |released| ==> released[i] == StatusSuccess | StatusDeallocated
      invariant |counts| == |released| && forall i :: 0 <= i < |counts| ==> counts[i] == i + 1
      invariant m.free == |released|
      invariant AllocatedExactly(m.bitmap[..], Below(m.total) - Elems(freed[..|released|]))
    {
      ghost var ws := m.bitmap[..];
      var k := |released|;
      ReleaseStep(ws, m.total, freed, k);
      var r := m.Deallocate(freed[k]);
      released := released + [r.status];
      counts := counts + [m.free];
    }
    assert freed[..|freed|] == freed;
  }

  /**
    Allocates once per listed free block. The blocks come back in increasing
    order, and after the i-th allocation the counter reads |freed| - 1 - i.
   */
  method Refill(m: Freemap, freed: seq<u32>) returns (again: seq<nat>, statuses: seq<bv8>, counts: seq<u32>)
    requires forall i, j :: 0 <= i < j < |freed| ==> freed[i] < freed[j]
    requires forall i :: 0 <= i < |freed| ==> freed[i] < m.total
    requires m.Valid() && m.Consistent() && AllocatedExactly(m.bitmap[..], Below(m.total) - Elems(freed))
    requires m.free == |freed|
    modifies m, m.bitmap
    ensures m.Valid() && m.Consistent() && AllocatedExactly(m.bitmap[..], Below(m.total))
    ensures m.free == 0
    ensures again == freed
    ensures |statuses| == |freed| && forall i :: 0 <= i < |statuses| ==> statuses[i] == StatusSuccess | StatusAllocated
    ensures |counts| == |freed| && forall i :: 0 <= i < |counts| ==> counts[i] == |freed| - 1 - i
  {
    again, statuses, counts := [], [], [];
    assert freed[0..] == freed;
    while |again| < |freed|
      invariant m.Valid() && m.Consistent()
      invariant |again| <= |freed| && again == freed[..|again|]
      invariant |statuses| == |again| && forall i :: 0 <= i < |statuses| ==> statuses[i] == StatusSuccess | StatusAllocated
      invariant |counts| == |again| && forall i :: 0 <= i < |counts| ==> counts[i] == |freed| - 1 - i
      invariant m.free == |freed| - |again|
      invariant AllocatedExactly(m.bitmap[..], Below(m.total) - Elems(freed[|again|..]))
    {
      ghost var ws := m.bitmap[..];
      var k := |again|;
      RefillStep(ws, m.total, freed, k);
      var r := m.Allocate();
      again := again + [r.block];
      assert again == freed[..k + 1];
      statuses := statuses + [r.status];
      counts := counts + [m.free];
    }
    assert freed[|freed|..] == [];
    assert Below(m.total) - Elems([]) == Below(m.total);
  }

  /** What a session on a fresh map returns, step by step. */
  datatype Session = Session(
    freemap: Freemap,
    first: seq<nat>, filled: seq<bv8>, fillCounts: seq<u32>,
    overflow: Result, overflowCount: u32,
    released: seq<bv8>, releaseCounts: seq<u32>, afterFree: Words,
    again: seq<nat>, refilled: seq<bv8>, refillCounts: seq<u32>)

  /**
    The outcome of a session on a fresh map of n blocks that frees `freed`:
    the i-th of the n allocations succeeds with block i and leaves n - 1 - i
    free; one more allocation fails with block 0, carries the map and leaves
    0 free; the i-th
    deallocation reports the block was allocated and leaves i + 1 free; the
    freed blocks are allocated again in that order, the i-th leaving
    |freed| - 1 - i free.
   */
  ghost predicate SessionOutcome(s: Session, n: nat, freed: seq<u32>)
  {
    && |s.first| == n && (forall i :: 0 <= i < n ==> s.first[i] == i)
    && |s.filled| == n && (forall i :: 0 <= i < n ==> s.filled[i] == StatusSuccess | StatusAllocated)
    && |s.fillCounts| == n && (forall i :: 0 <= i < n ==> s.fillCounts[i] == n - 1 - i)
    && s.overflow.status == StatusFailure && s.overflow.block == 0
    && s.overflow.freemap == s.freemap && s.overflowCount == 0
    && |s.released| == |freed|
    && (forall i :: 0 <= i < |freed| ==> s.released[i] == StatusSuccess | StatusDeallocated)
    && |s.releaseCounts| == |freed| && (forall i :: 0 <= i < |freed| ==> s.releaseCounts[i] == i + 1)
    && |s.afterFree| == n / WordBits + 1
    && AllocatedExactly(s.afterFree, Below(n) - Elems(freed))
    && s.again == freed
    && |s.refilled| == |freed| && (forall i :: 0 <= i < |freed| ==> s.refilled[i] == StatusSuccess | StatusAllocated)
    && |s.refillCounts| == |freed| && (forall i :: 0 <= i < |freed| ==> s.refillCounts[i] == |freed| - 1 - i)
  }

  /**
    A session on a fresh map of n blocks: n allocations, one more, the
    deallocation of the blocks of `freed` (in increasing order) and |freed|
    further allocations, recording every result and counter value.
   */
  method FillFreeRefill(n: u32, freed: seq<u32>) returns (s: Session)
    requires forall i, j :: 0 <= i < j < |freed| ==> freed[i] < freed[j]
    requires forall i :: 0 <= i < |freed| ==> freed[i] < n
    ensures SessionOutcome(s, n, freed)
  {
    var m := new Freemap(n);
    EmptyAllFree(n / WordBits + 1, n);
    var first, filled, fillCounts := Fill(m);
    var overflow := m.Allocate();
    var overflowCount := m.free;
    var released, releaseCounts := Release(m, freed);
    var afterFree := m.bitmap[..];
    var again, refilled, refillCounts := Refill(m, freed);
    s := Session(m, first, filled, fillCounts, overflow, overflowCount,
                 released, releaseCounts, afterFree, again, refilled, refillCounts);
  }

  /**
    Allocating and then deallocating the block just allocated reports that
    block as allocated and restores the bitmap and the counter.
   */
  method AllocateDeallocate(m: Freemap) returns (a: Result, d: Result)
    requires m.Valid() && !NoneFree(m.bitmap[..], m.total)
    modifies m, m.bitmap
    ensures a.status == StatusSuccess | StatusAllocated
    ensures d.status == StatusSuccess | StatusDeallocated && d.block == a.block
    ensures m.bitmap[..] == old(m.bitmap[..]) && m.free == old(m.free)
  {
    a := m.Allocate();
    AllocateThenDeallocate(old(m.bitmap[..]), old(m.free), a.block);
    d := m.Deallocate(a.block);
  }

  /**
    A one-word map of 16 blocks with every block except block 5 allocated
    holds the word with bits 0-15 set except bit 5.
   */
  lemma SixteenWithFiveFree(ws: Words)
    requires |ws| == 1
    requires AllocatedExactly(ws, Below(16) - {5})
    ensures ws[0] == 0xFFDF  // 0b1111_1111_1101_1111
  {
    assert Pow2(5) == 32;
    assert Pow2(16) == 0x1_0000;
    Pow2Monotone(5, 16);
    var pattern := Not(Pow2(5), 16);
    forall i: nat
      ensures Bit(ws[0], i) == Bit(pattern, i)
    {
      if i < WordBits {
        assert i / WordBits == 0 && i % WordBits == i;
        assert Allocated(ws, i) == (i < 16 && i != 5);
        if i < 16 {
          BitNot(Pow2(5), 16, i);
          BitPow2(5, i);
        } else {
          BitHigh(pattern, 16, i);
        }
      } else {
        MaskFits(0);
        BitHigh(ws[0], WordBits, i);
        BitHigh(pattern, 16, i);
      }
    }
    BitsEqual(ws[0], pattern);
  }

  /** The bit-scan helper on 0, 1, 0b1111, 0b1011 and 0xFF. */
  method FirstFreeExamples() returns (results: seq<u8>)
    ensures results == [0, 1, 4, 2, 8]
  {
    var a := FirstFree(0);
    var b := FirstFree(1);
    assert Pow2(4) == 16 && Pow2(8) == 256;
    forall j: nat | j < 4
      ensures Bit(15, j)
    {
      OnesBit(4, j);
    }
    BitHigh(15, 4, 4);
    var c := FirstFree(15);
    assert Bit(11, 0) && Bit(11, 1) && !Bit(11, 2);
    var d := FirstFree(11);
    forall j: nat | j < 8
      ensures Bit(255, j)
    {
      OnesBit(8, j);
    }
    BitHigh(255, 8, 8);
    var e := FirstFree(255);
    results := [a, b, c, d, e];
  }

  /**
    16 blocks: filling gives 0..15 with the counter running 15 down to 0,
    the 17th allocation fails, freeing block 5 reports it allocated and
    leaves 1 free, word 0 is then 0b1111111111011111, and the next
    allocation returns block 5 and leaves 0 free.
   */
  method SixteenBlocks() returns (s: Session, word0: u32)
    ensures SessionOutcome(s, 16, [5])
    ensures s.releaseCounts == [1] && s.again == [5] && s.refillCounts == [0]
    ensures word0 == 0xFFDF
  {
    var freed: seq<u32> := [5];
    s := FillFreeRefill(16, freed);
    assert Elems(freed) == {5} by {
      assert freed[0] as nat in Elems(freed);
    }
    SixteenWithFiveFree(s.afterFree);
    word0 := s.afterFree[0];
  }

  /**
    48 blocks: blocks 21, 30 and 47, near and at the end of the second word,
    are reported allocated as the counter climbs 1, 2, 3, and allocation
    returns them in that order as the counter falls 2, 1, 0.
   */
  method FortyEightBlocks() returns (s: Session)
    ensures SessionOutcome(s, 48, [21, 30, 47])
    ensures s.releaseCounts == [1, 2, 3] && s.again == [21, 30, 47] && s.refillCounts == [2, 1, 0]
  {
    s := FillFreeRefill(48, [21, 30, 47]);
  }

  /**
    113 blocks, four words: blocks 37, 51 and 111 are reported allocated as
    the counter climbs 1, 2, 3, and allocation returns them in that order as
    the counter falls 2, 1, 0.
   */
  method HundredThirteenBlocks() returns (s: Session)
    ensures SessionOutcome(s, 113, [37, 51, 111])
    ensures s.releaseCounts == [1, 2, 3] && s.again == [37, 51, 111] && s.refillCounts == [2, 1, 0]
  {
    s := FillFreeRefill(113, [37, 51, 111]);
  }
}
