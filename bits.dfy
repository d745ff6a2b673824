/**
  Bit-level primitives on unsigned integers. Words are natural numbers; the
  bitwise operators the allocator uses on its 32-bit words (`&`, `|`, `~`
  and `1 << k`) are defined one binary digit at a time and their effect on
  each bit is proved by induction.
 */
module Bits {

  /** 2 to the power n, the value of `1 << n`. */
  function Pow2(n: nat): (r: nat)
    ensures r >= 1
  {
    if n == 0 then 1 else 2 * Pow2(n - 1)
  }

  /** Bit i of w is 1. */
  predicate Bit(w: nat, i: nat)
  {
    if i == 0 then w % 2 == 1 else Bit(w / 2, i - 1)
  }

  /** Bitwise AND, `a & b`; it is never larger than either operand. */
  function And(a: nat, b: nat): (r: nat)
    ensures r <= a && r <= b
  {
    if a == 0 || b == 0 then 0
    else 2 * And(a / 2, b / 2) + (if a % 2 == 1 && b % 2 == 1 then 1 else 0)
  }

  /** Bitwise OR, `a | b`; it is never smaller than either operand. */
  function Or(a: nat, b: nat): (r: nat)
    ensures a <= r && b <= r
  {
    if a == 0 then b
    else if b == 0 then a
    else 2 * Or(a / 2, b / 2) + (if a % 2 == 1 || b % 2 == 1 then 1 else 0)
  }

  /** Bitwise complement truncated to n bits, `~a` stored in an n-bit word. */
  function Not(a: nat, n: nat): (r: nat)
    requires a < Pow2(n)
    ensures r < Pow2(n)
  {
    Pow2(n) - 1 - a
  }

  lemma {:induction false} Pow2Monotone(k: nat, n: nat)
    requires k < n
    ensures Pow2(k) < Pow2(n)
  {
    if k < n - 1 {
      Pow2Monotone(k, n - 1);
    }
  }

  lemma {:induction false} BitZero(i: nat)
    ensures !Bit(0, i)
  {
    if i > 0 {
      BitZero(i - 1);
    }
  }

  /** A number below 2^n has no bit at position n or above. */
  lemma {:induction false} BitHigh(w: nat, n: nat, i: nat)
    requires w < Pow2(n) && n <= i
    ensures !Bit(w, i)
  {
    if n == 0 {
      BitZero(i);
    } else {
      BitHigh(w / 2, n - 1, i - 1);
    }
  }

  /** Two numbers with the same bits are equal. */
  lemma {:induction false} BitsEqual(a: nat, b: nat)
    requires forall i: nat :: Bit(a, i) == Bit(b, i)
    ensures a == b
    decreases a + b
  {
    if a != 0 || b != 0 {
      assert Bit(a, 0) == Bit(b, 0);
      forall i: nat
        ensures Bit(a / 2, i) == Bit(b / 2, i)
      {
        assert Bit(a, i + 1) == Bit(b, i + 1);
      }
      BitsEqual(a / 2, b / 2);
    }
  }

  lemma {:induction false} BitAnd(a: nat, b: nat, i: nat)
    ensures Bit(And(a, b), i) == (Bit(a, i) && Bit(b, i))
  {
    if a == 0 || b == 0 {
      BitZero(i);
    } else if i > 0 {
      BitAnd(a / 2, b / 2, i - 1);
    }
  }

  lemma {:induction false} BitOr(a: nat, b: nat, i: nat)
    ensures Bit(Or(a, b), i) == (Bit(a, i) || Bit(b, i))
  {
    if a == 0 || b == 0 {
      BitZero(i);
    } else if i > 0 {
      BitOr(a / 2, b / 2, i - 1);
    }
  }

  /** `1 << k` has exactly bit k set. */
  lemma {:induction false} BitPow2(k: nat, i: nat)
    ensures Bit(Pow2(k), i) == (i == k)
  {
    if k == 0 {
      if i > 0 {
        BitZero(i - 1);
      }
    } else if i > 0 {
      BitPow2(k - 1, i - 1);
    }
  }

  /** Within the word's n bits, the complement flips every bit. */
  lemma {:induction false} BitNot(a: nat, n: nat, i: nat)
    requires a < Pow2(n) && i < n
    ensures Bit(Not(a, n), i) == !Bit(a, i)
  {
    if i > 0 {
      assert Not(a, n) / 2 == Not(a / 2, n - 1);
      BitNot(a / 2, n - 1, i - 1);
    }
  }

  lemma {:induction false} OrBound(a: nat, b: nat, n: nat)
    requires a < Pow2(n) && b < Pow2(n)
    ensures Or(a, b) < Pow2(n)
  {
    if n > 0 && a != 0 && b != 0 {
      OrBound(a / 2, b / 2, n - 1);
    }
  }

  /** Masking with `1 << k` is nonzero exactly when bit k is set. */
  lemma AndPow2(w: nat, k: nat)
    ensures (And(w, Pow2(k)) != 0) == Bit(w, k)
  {
    BitAnd(w, Pow2(k), k);
    BitPow2(k, k);
    if !Bit(w, k) {
      forall i: nat
        ensures Bit(And(w, Pow2(k)), i) == Bit(0, i)
      {
        BitAnd(w, Pow2(k), i);
        BitPow2(k, i);
        BitZero(i);
      }
      BitsEqual(And(w, Pow2(k)), 0);
    } else {
      BitZero(k);
    }
  }

  /** Every one of the n low bits of 2^n - 1 is set. */
  lemma OnesBit(n: nat, i: nat)
    requires i < n
    ensures Bit(Pow2(n) - 1, i)
  {
    BitNot(0, n, i);
    BitZero(i);
  }

  /** An n-bit word whose n bits are all set is 2^n - 1. */
  lemma AllOnes(w: nat, n: nat)
    requires w < Pow2(n)
    requires forall i: nat :: i < n ==> Bit(w, i)
    ensures w == Pow2(n) - 1
  {
    var full := Pow2(n) - 1;
    forall i: nat
      ensures Bit(w, i) == Bit(full, i)
    {
      if n <= i {
        BitHigh(w, n, i);
        BitHigh(full, n, i);
      } else {
        OnesBit(n, i);
      }
    }
    BitsEqual(w, full);
  }
}
