/** Dyadic intervals: blocks of 2^i frames that start at a multiple of 2^i.
    Alignment is defined by halving, so that every fact about it follows by
    induction with linear arithmetic only. */
module Dyadic {

  function Pow2(i: nat): (r: nat)
    ensures r > 0
  {
    if i == 0 then 1 else 2 * Pow2(i - 1)
  }

  /** `p` is a multiple of `Pow2(i)`. */
  predicate Aligned(p: nat, i: nat) {
    i == 0 || (p % 2 == 0 && Aligned(p / 2, i - 1))
  }

  /** Where the other half of the enclosing block of order `i + 1` starts. */
  function Buddy(p: nat, i: nat): (b: nat)
    requires Aligned(p, i)
  {
    if Aligned(p, i + 1) then p + Pow2(i) else BuddyBelow(p, i); p - Pow2(i)
  }

  /** Start of the enclosing block of order `i + 1`. */
  function Parent(p: nat, i: nat): (q: nat)
    requires Aligned(p, i)
  {
    if Aligned(p, i + 1) then p else BuddyBelow(p, i); p - Pow2(i)
  }

  lemma {:induction false} BuddyBelow(p: nat, i: nat)
    requires Aligned(p, i) && !Aligned(p, i + 1)
    ensures p >= Pow2(i) && Aligned(p - Pow2(i), i + 1)
  {
    if i > 0 {
      BuddyBelow(p / 2, i - 1);
      assert (p - Pow2(i)) / 2 == p / 2 - Pow2(i - 1);
    }
  }

  lemma {:induction false} AlignedWeaken(p: nat, i: nat)
    requires Aligned(p, i + 1)
    ensures Aligned(p, i)
  {
    if i > 0 { AlignedWeaken(p / 2, i - 1); }
  }

  lemma {:induction false} AlignedDown(p: nat, j: nat, i: nat)
    requires j <= i && Aligned(p, i)
    ensures Aligned(p, j)
    decreases i
  {
    if j < i {
      AlignedWeaken(p, i - 1);
      AlignedDown(p, j, i - 1);
    }
  }

  lemma {:induction false} UpperHalfAligned(p: nat, i: nat)
    requires Aligned(p, i + 1)
    ensures Aligned(p + Pow2(i), i) && !Aligned(p + Pow2(i), i + 1)
  {
    if i > 0 {
      UpperHalfAligned(p / 2, i - 1);
      assert (p + Pow2(i)) / 2 == p / 2 + Pow2(i - 1);
    }
  }

  /** The buddy relation: an involution whose two halves make up the parent. */
  lemma BuddyFacts(p: nat, i: nat)
    requires Aligned(p, i)
    ensures Aligned(Buddy(p, i), i)
    ensures Buddy(Buddy(p, i), i) == p
    ensures Parent(Buddy(p, i), i) == Parent(p, i)
    ensures Aligned(Parent(p, i), i + 1)
    ensures || (Parent(p, i) == p && Buddy(p, i) == p + Pow2(i))
            || (Parent(p, i) == Buddy(p, i) && p == Buddy(p, i) + Pow2(i))
    ensures p != Buddy(p, i)
  {
    if Aligned(p, i + 1) {
      UpperHalfAligned(p, i);
    } else {
      BuddyBelow(p, i);
      AlignedWeaken(p - Pow2(i), i);
    }
  }

  lemma {:induction false} ZeroAligned(i: nat)
    ensures Aligned(0, i)
  {
    if i > 0 { ZeroAligned(i - 1); }
  }

  lemma {:induction false} Pow2Monotone(i: nat, j: nat)
    requires i <= j
    ensures Pow2(i) <= Pow2(j)
    ensures i < j ==> 2 * Pow2(i) <= Pow2(j)
    decreases j
  {
    if i < j { Pow2Monotone(i, j - 1); }
  }

  lemma Pow2Injective(i: nat, j: nat)
    requires Pow2(i) == Pow2(j)
    ensures i == j
  {
    if i < j { Pow2Monotone(i, j); }
    if j < i { Pow2Monotone(j, i); }
  }

  /** A dyadic block that starts inside a block of at least its order lies inside it. */
  lemma {:induction false} Nested(a: nat, i: nat, p: nat, j: nat)
    requires j <= i && Aligned(a, i) && Aligned(p, j)
    requires a <= p < a + Pow2(i)
    ensures p + Pow2(j) <= a + Pow2(i)
    decreases j
  {
    if j > 0 { Nested(a / 2, i - 1, p / 2, j - 1); }
  }

  /** Two blocks of one order that overlap are the same block. */
  lemma {:induction false} SameOrderSameStart(a: nat, b: nat, i: nat)
    requires Aligned(a, i) && Aligned(b, i)
    requires a < b + Pow2(i) && b < a + Pow2(i)
    ensures a == b
  {
    if i > 0 { SameOrderSameStart(a / 2, b / 2, i - 1); }
  }

  /** Halving-based alignment is divisibility, the test that `pm_find_buddy` makes. */
  lemma {:induction false} AlignedIsMod(p: nat, i: nat)
    ensures Aligned(p, i) <==> p % Pow2(i) == 0
  {
    if i > 0 {
      AlignedIsMod(p / 2, i - 1);
      HalfMod(p, Pow2(i - 1));
    }
  }

  lemma HalfMod(p: nat, m: nat)
    requires m > 0
    ensures p % (2 * m) == 0 <==> p % 2 == 0 && (p / 2) % m == 0
  {
    var q, r := p / (2 * m), p % (2 * m);
    assert p == 2 * (m * q) + r by { assert 2 * m * q == 2 * (m * q); }
    assert p / 2 == m * q + r / 2;
    ModUnique(p / 2, m, q, r / 2);
  }

  lemma ModUnique(x: nat, m: nat, q: int, r: nat)
    requires m > 0 && x == m * q + r && r < m
    ensures x % m == r && x / m == q
  {
    var d := x / m - q;
    assert x == m * (x / m) + x % m;
    assert m * d == r - x % m by { assert m * (x / m) - m * q == m * d; }
  }

  /** `log2` of align.h: the index of the lowest set bit. */
  function Log2(n: nat): (i: nat)
    requires n > 0
  {
    if n % 2 == 1 then 0 else 1 + Log2(n / 2)
  }

  lemma {:induction false} Log2OfPow2(i: nat)
    ensures Log2(Pow2(i)) == i
  {
    if i > 0 { Log2OfPow2(i - 1); }
  }

  /** `Log2` is the greatest order to which a number is aligned. */
  lemma {:induction false} Log2IsAlignment(n: nat, i: nat)
    requires n > 0
    ensures Aligned(n, i) <==> i <= Log2(n)
    decreases n
  {
    if i > 0 && n % 2 == 0 { Log2IsAlignment(n / 2, i - 1); }
  }
}
