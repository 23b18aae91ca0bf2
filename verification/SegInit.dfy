/** pm_seg_init for any number of pages: the sizes it writes, the queues it fills,
    and for which segments the two agree. */
module SegInit {
  import opened Dyadic
  import opened BuddyBlocks

  function Min(a: nat, b: nat): nat { if a < b then a else b }

  /** Logarithm of the size written to page `p`; `ctz(0)` is taken as no limit. */
  function InitOrder(n: nat, p: nat): nat
    requires n > 0
  {
    var max := Min(QUEUES, Log2(n) + 1) - 1;
    if p == 0 then max else Min(max, Log2(p))
  }

  /** The second half of pm_seg_init: from queue `i` down, `left` pages from page `curr` on. */
  function Fill(q: seq<seq<nat>>, i: nat, curr: nat, left: nat): (r: seq<seq<nat>>)
    requires i < |q| == QUEUES
    ensures |r| == QUEUES
    decreases i, left
  {
    if left >= Pow2(i) then Fill(q[i := [curr] + q[i]], i, curr + Pow2(i), left - Pow2(i))
    else if i == 0 then q
    else Fill(q, i - 1, curr, left)
  }

  const EmptyQueues: seq<seq<nat>> := [[], [], [], [], [], [], [], [], [], [], [], [], [], [], [], []]

  function Queues(n: nat): (r: seq<seq<nat>>)
    ensures |r| == QUEUES
  {
    Fill(EmptyQueues, QUEUES - 1, 0, n)
  }

  /** Every queued page has the size of its queue, and no two queued blocks are buddies. */
  ghost predicate Sound(n: nat)
    requires n > 0
  {
    && (forall i, p :: 0 <= i < QUEUES && p in Queues(n)[i] ==> InitOrder(n, p) == i)
    && (forall i, p :: 0 <= i < QUEUES && p in Queues(n)[i] && Aligned(p, i) ==> Buddy(p, i) !in Queues(n)[i])
  }

  lemma {:induction false} FillKeeps(q: seq<seq<nat>>, i: nat, curr: nat, left: nat, j: nat, p: nat)
    requires i < |q| == QUEUES && j < QUEUES && p in q[j]
    ensures p in Fill(q, i, curr, left)[j]
    decreases i, left
  {
    if left >= Pow2(i) {
      FillKeeps(q[i := [curr] + q[i]], i, curr + Pow2(i), left - Pow2(i), j, p);
    } else if i > 0 {
      FillKeeps(q, i - 1, curr, left, j, p);
    }
  }

  /** The first page goes to the queue of the greatest power of two that fits. */
  lemma {:induction false} FirstBlock(q: seq<seq<nat>>, i: nat, n: nat) returns (top: nat)
    requires i < |q| == QUEUES && n > 0 && (i == QUEUES - 1 || n < Pow2(i + 1))
    ensures top < QUEUES && 0 in Fill(q, i, 0, n)[top]
    ensures Pow2(top) <= n && (top == QUEUES - 1 || n < Pow2(top + 1))
    ensures n >= 2 * Pow2(top) ==> Pow2(top) in Fill(q, i, 0, n)[top]
    decreases i
  {
    if n >= Pow2(i) {
      var q1 := q[i := [0] + q[i]];
      FillKeeps(q1, i, Pow2(i), n - Pow2(i), i, 0);
      if n >= 2 * Pow2(i) {
        FillKeeps(q1[i := [Pow2(i)] + q1[i]], i, 2 * Pow2(i), n - 2 * Pow2(i), i, Pow2(i));
      }
      return i;
    }
    top := FirstBlock(q, i - 1, n);
  }

  lemma Pow2Aligned(i: nat)
    ensures Aligned(Pow2(i), i)
  {
    ZeroAligned(i + 1);
    UpperHalfAligned(0, i);
  }

  /** With nothing left to place, the queues stay as they are. */
  lemma {:induction false} FillNone(q: seq<seq<nat>>, i: nat, curr: nat)
    requires i < |q| == QUEUES
    ensures Fill(q, i, curr, 0) == q
    decreases i
  {
    if i > 0 { FillNone(q, i - 1, curr); }
  }

  lemma {:induction false} FillPower(i: nat, k: nat)
    requires k <= i < QUEUES
    ensures Fill(EmptyQueues, i, 0, Pow2(k)) == EmptyQueues[k := [0]]
    decreases i
  {
    if k < i {
      Pow2Monotone(k, i);
      FillPower(i - 1, k);
    } else {
      assert [0] + EmptyQueues[k] == [0];
      FillNone(EmptyQueues[k := [0]], k, Pow2(k));
    }
  }

  lemma PowerIsSound(k: nat)
    requires k < QUEUES
    ensures Sound(Pow2(k))
  {
    FillPower(QUEUES - 1, k);
    Log2OfPow2(k);
    BuddyOfZero(k);
    var n, q := Pow2(k), EmptyQueues[k := [0]];
    assert Queues(n) == q && InitOrder(n, 0) == k;
    forall i, p | 0 <= i < QUEUES && p in q[i] ensures i == k && p == 0 {}
  }

  lemma BuddyOfZero(i: nat)
    ensures Aligned(0, i) && Buddy(0, i) == Pow2(i)
  {
    ZeroAligned(i);
    ZeroAligned(i + 1);
  }

  lemma SoundIsPower(n: nat) returns (top: nat)
    requires n > 0 && Sound(n)
    ensures top < QUEUES && n == Pow2(top)
  {
    top := FirstBlock(EmptyQueues, QUEUES - 1, n);
    BuddyOfZero(top);
    assert InitOrder(n, 0) == top;
    Log2IsAlignment(n, top);
    Pow2Aligned(top);
    SameOrderSameStart(n, Pow2(top), top);
  }

  /** pm_seg_init yields a sound segment exactly for a power of two of at most 2^15 pages. */
  lemma SoundIffPowerOfTwo(n: nat)
    requires n > 0
    ensures Sound(n) <==> exists k: nat :: k < QUEUES && n == Pow2(k)
  {
    if Sound(n) {
      var top := SoundIsPower(n);
    } else {
      forall k: nat | k < QUEUES ensures n != Pow2(k) { PowerIsSound(k); }
    }
  }

  function Fresh(n: nat, k: nat): (o: seq<Owner>)
    ensures |o| == n && forall f :: 0 <= f < n ==> o[f] == Block(0, k, true)
  {
    if n == 0 then [] else Fresh(n - 1, k) + [Block(0, k, true)]
  }

  /** The segment right after pm_seg_init: one free block. */
  function Initial(k: nat): Seg
    requires k < QUEUES
  {
    Seg(k, EmptyQueues[k := [0]], Fresh(Pow2(k), k))
  }

  lemma InitialInv(k: nat)
    requires k < QUEUES
    ensures Inv(Initial(k))
  {
    ZeroAligned(k);
    var s := Initial(k);
    forall f | 0 <= f < |s.owner| ensures FrameOk(s, f) {}
    forall p: nat, i: nat | IsBlock(s, p, i, true) ensures i == k { assert s.owner[p] == Block(0, k, true); }
  }
}
