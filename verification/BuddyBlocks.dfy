/** The buddy allocator of one physical segment, as a value: which frame belongs
    to which block, and the 16 free queues in order. Frames are numbered from the
    start of the segment. */
module BuddyBlocks {
  import opened Basics
  import opened Dyadic

  const QUEUES: nat := 16

  /** What a frame belongs to: a block (free or handed out) or the reserved set. */
  datatype Owner = Reserved | Block(start: nat, order: nat, free: bool)

  datatype Seg = Seg(k: nat, freeq: seq<seq<nat>>, owner: seq<Owner>)

  /** TAILQ_REMOVE */
  function Remove(q: seq<nat>, p: nat): (r: seq<nat>)
    ensures NoDup(q) ==> NoDup(r) && forall x :: x in r <==> x in q && x != p
  {
    if q == [] then []
    else if q[0] == p then
      assert NoDup(q) ==> forall x :: x in q[1..] <==> x in q && x != p;
      q[1..]
    else
      var r := Remove(q[1..], p);
      assert NoDup(q) ==> NoDup(q[1..]) && q[0] !in r;
      assert forall x :: x in q <==> x == q[0] || x in q[1..];
      [q[0]] + r
  }

  function Paint(o: seq<Owner>, p: nat, n: nat, v: Owner): (r: seq<Owner>)
    ensures |r| == |o|
    ensures forall f :: 0 <= f < |o| ==> r[f] == if p <= f < p + n then v else o[f]
  {
    seq(|o|, f requires 0 <= f < |o| => if p <= f < p + n then v else o[f])
  }

  ghost predicate IsBlock(s: Seg, p: nat, i: nat, free: bool) {
    p < |s.owner| && s.owner[p] == Block(p, i, free)
  }

  predicate FreeFrame(s: Seg, f: nat) {
    f < |s.owner| && s.owner[f].Block? && s.owner[f].free
  }

  predicate AllocatedFrame(s: Seg, f: nat) {
    f < |s.owner| && s.owner[f].Block? && !s.owner[f].free
  }

  ghost predicate FrameOk(s: Seg, f: nat)
    requires f < |s.owner| && |s.freeq| == QUEUES
  {
    var o := s.owner[f];
    o.Block? ==>
      && o.order <= s.k && o.order < QUEUES && Aligned(o.start, o.order)
      && o.start <= f < o.start + Pow2(o.order) <= |s.owner|
      && (o.free ==> o.start in s.freeq[o.order])
      && forall g :: o.start <= g < o.start + Pow2(o.order) ==> s.owner[g] == o
  }

  ghost predicate Shape(s: Seg) {
    s.k < QUEUES && |s.freeq| == QUEUES && |s.owner| == Pow2(s.k)
  }

  ghost predicate QueuesOk(s: Seg)
    requires Shape(s)
  {
    && (forall i :: 0 <= i < QUEUES ==> NoDup(s.freeq[i]))
    && (forall i, p :: 0 <= i < QUEUES && p in s.freeq[i] ==> IsBlock(s, p, i, true))
  }

  /** Safety: every frame is reserved or in exactly one aligned block, and the
      queues hold exactly the free blocks, each on the queue of its order. */
  ghost predicate Tiled(s: Seg) {
    && Shape(s) && QueuesOk(s)
    && forall f :: 0 <= f < |s.owner| ==> FrameOk(s, f)
  }

  /** No two buddies are both free. */
  ghost predicate Coalesced(s: Seg) {
    forall p: nat, i: nat {:trigger IsBlock(s, Buddy(p, i), i, true)} ::
      IsBlock(s, p, i, true) && i < s.k && Aligned(p, i)
      ==> !IsBlock(s, Buddy(p, i), i, true)
  }

  ghost predicate Inv(s: Seg) {
    Tiled(s) && Coalesced(s)
  }

  // ---------------------------------------------------------------- steps

  /** A free block leaves its queue and is handed out. */
  function Take(s: Seg, p: nat, i: nat): Seg
    requires i < |s.freeq|
  {
    Seg(s.k, s.freeq[i := Remove(s.freeq[i], p)], Paint(s.owner, p, Pow2(i), Block(p, i, false)))
  }

  /** A handed-out block goes to the head of its queue. */
  function Release(s: Seg, p: nat, i: nat): Seg
    requires i < |s.freeq|
  {
    Seg(s.k, s.freeq[i := [p] + s.freeq[i]], Paint(s.owner, p, Pow2(i), Block(p, i, true)))
  }

  /** Halve a handed-out block: the lower half goes to its queue, the upper stays out. */
  function SplitHand(s: Seg, p: nat, i: nat): Seg
    requires 0 < i <= |s.freeq|
  {
    Release(s, p, i - 1).(owner :=
      Paint(Paint(s.owner, p, Pow2(i - 1), Block(p, i - 1, true)),
            p + Pow2(i - 1), Pow2(i - 1), Block(p + Pow2(i - 1), i - 1, false)))
  }

  /** Join a handed-out block with its free buddy. */
  function MergeHand(s: Seg, p: nat, i: nat): Seg
    requires i < |s.freeq| && Aligned(p, i)
  {
    Seg(s.k, s.freeq[i := Remove(s.freeq[i], Buddy(p, i))],
        Paint(s.owner, Parent(p, i), Pow2(i + 1), Block(Parent(p, i), i + 1, false)))
  }

  /** pm_split_page: a free block becomes two free blocks, upper half first in the queue. */
  function SplitFree(s: Seg, p: nat, i: nat): Seg
    requires 0 < i < |s.freeq|
  {
    var q := s.freeq[i := Remove(s.freeq[i], p)];
    Seg(s.k, q[i - 1 := [p + Pow2(i - 1)] + ([p] + q[i - 1])],
        Paint(Paint(s.owner, p, Pow2(i - 1), Block(p, i - 1, true)),
              p + Pow2(i - 1), Pow2(i - 1), Block(p + Pow2(i - 1), i - 1, true)))
  }

  /** pm_split_alloc_page: a handed-out block becomes two handed-out blocks. */
  function SplitAlloc(s: Seg, p: nat, i: nat): Seg
    requires 0 < i
  {
    s.(owner := Paint(Paint(s.owner, p, Pow2(i - 1), Block(p, i - 1, false)),
                      p + Pow2(i - 1), Pow2(i - 1), Block(p + Pow2(i - 1), i - 1, false)))
  }

  /** A free block leaves its queue for good. */
  function Seize(s: Seg, p: nat, i: nat): Seg
    requires i < |s.freeq|
  {
    Seg(s.k, s.freeq[i := Remove(s.freeq[i], p)], Paint(s.owner, p, Pow2(i), Reserved))
  }

  // Each step keeps the tiling; those outside the reservation loop also keep the
  // coalesced form. A step repaints one region made of whole blocks.

  ghost predicate OwnedFrom(s: Seg, lo: nat, n: nat) {
    forall f :: lo <= f < lo + n && f < |s.owner| && s.owner[f].Block?
      ==> lo <= s.owner[f].start && s.owner[f].start + Pow2(s.owner[f].order) <= lo + n
  }

  ghost predicate SameOutside(s: Seg, t: Seg, lo: nat, n: nat)
    requires Shape(s)
  {
    && Shape(t) && t.k == s.k
    && (forall f :: 0 <= f < |s.owner| && !(lo <= f < lo + n) ==> t.owner[f] == s.owner[f])
    && (forall i, p :: 0 <= i < QUEUES && !(lo <= p < lo + n) ==> (p in t.freeq[i] <==> p in s.freeq[i]))
  }

  lemma OutsideOk(s: Seg, t: Seg, lo: nat, n: nat)
    requires Tiled(s) && OwnedFrom(s, lo, n) && SameOutside(s, t, lo, n)
    ensures forall f :: 0 <= f < |t.owner| && !(lo <= f < lo + n) ==> FrameOk(t, f)
  {
    forall f | 0 <= f < |t.owner| && !(lo <= f < lo + n) ensures FrameOk(t, f) {
      assert FrameOk(s, f);
      var o := s.owner[f];
      if o.Block? {
        forall g | o.start <= g < o.start + Pow2(o.order) ensures t.owner[g] == o {
          assert s.owner[g] == o;
        }
      }
    }
  }

  lemma InsideOk(t: Seg, p: nat, i: nat, free: bool)
    requires Shape(t) && i <= t.k && Aligned(p, i) && p + Pow2(i) <= |t.owner|
    requires forall f :: p <= f < p + Pow2(i) ==> t.owner[f] == Block(p, i, free)
    requires free ==> p in t.freeq[i]
    ensures forall f :: p <= f < p + Pow2(i) ==> FrameOk(t, f)
  {
  }

  lemma StillCoalesced(s: Seg, t: Seg, p: nat, i: nat)
    requires Coalesced(s) && t.k == s.k && Aligned(p, i)
    requires forall q: nat, j: nat :: IsBlock(t, q, j, true) ==> IsBlock(s, q, j, true) || (q == p && j == i)
    requires !IsBlock(t, Buddy(p, i), i, true)
    ensures Coalesced(t)
  {
    forall q: nat, j: nat | IsBlock(t, q, j, true) && j < t.k && Aligned(q, j)
      ensures !IsBlock(t, Buddy(q, j), j, true)
    {
      BuddyFacts(q, j);
    }
  }

  /** No new free block: the coalesced form stays. */
  lemma FewerFree(s: Seg, t: Seg)
    requires Coalesced(s) && t.k == s.k
    requires forall q: nat, j: nat :: IsBlock(t, q, j, true) ==> IsBlock(s, q, j, true)
    ensures Coalesced(t)
  {
    forall q: nat, j: nat | IsBlock(t, q, j, true) && j < t.k && Aligned(q, j)
      ensures !IsBlock(t, Buddy(q, j), j, true)
    {
      assert !IsBlock(s, Buddy(q, j), j, true);
    }
  }

  lemma PushNoDup(q: seq<nat>, p: nat)
    requires NoDup(q) && p !in q
    ensures NoDup([p] + q)
  {
  }

  lemma TakeKeeps(s: Seg, p: nat, i: nat)
    requires Tiled(s) && IsBlock(s, p, i, true)
    ensures i < |s.freeq| && Tiled(Take(s, p, i)) && IsBlock(Take(s, p, i), p, i, false)
    ensures Coalesced(s) ==> Coalesced(Take(s, p, i))
  {
    assert FrameOk(s, p);
    var t := Take(s, p, i);
    OutsideOk(s, t, p, Pow2(i));
    InsideOk(t, p, i, false);
    if Coalesced(s) {
      forall q: nat, j: nat | IsBlock(t, q, j, true) ensures IsBlock(s, q, j, true) {}
    }
  }

  lemma ReleaseKeeps(s: Seg, p: nat, i: nat)
    requires Tiled(s) && IsBlock(s, p, i, false)
    ensures Aligned(p, i) && i < |s.freeq| && Tiled(Release(s, p, i)) && IsBlock(Release(s, p, i), p, i, true)
    ensures Coalesced(s) && !IsBlock(s, Buddy(p, i), i, true) ==> Coalesced(Release(s, p, i))
  {
    assert FrameOk(s, p);
    var t := Release(s, p, i);
    PushNoDup(s.freeq[i], p);
    OutsideOk(s, t, p, Pow2(i));
    InsideOk(t, p, i, true);
    BuddyFacts(p, i);
    if Coalesced(s) && !IsBlock(s, Buddy(p, i), i, true) {
      StillCoalesced(s, t, p, i);
    }
  }

  /** The two halves of a block of order `i`. */
  lemma Halves(s: Seg, p: nat, i: nat, free: bool)
    requires Tiled(s) && IsBlock(s, p, i, free) && i > 0
    ensures Aligned(p, i - 1) && Aligned(p + Pow2(i - 1), i - 1)
    ensures Buddy(p, i - 1) == p + Pow2(i - 1) && Buddy(p + Pow2(i - 1), i - 1) == p
    ensures Parent(p, i - 1) == Parent(p + Pow2(i - 1), i - 1) == p
    ensures i <= s.k && p + 2 * Pow2(i - 1) <= |s.owner|
    ensures OwnedFrom(s, p, 2 * Pow2(i - 1))
    ensures forall f :: p <= f < p + 2 * Pow2(i - 1) ==> s.owner[f] == Block(p, i, free)
  {
    assert FrameOk(s, p);
    AlignedWeaken(p, i - 1);
    BuddyFacts(p, i - 1);
  }

  lemma SplitHandKeeps(s: Seg, p: nat, i: nat)
    requires Inv(s) && IsBlock(s, p, i, false) && i > 0
    ensures i < |s.freeq| && Inv(SplitHand(s, p, i))
    ensures IsBlock(SplitHand(s, p, i), p, i - 1, true)
    ensures IsBlock(SplitHand(s, p, i), p + Pow2(i - 1), i - 1, false)
  {
    Halves(s, p, i, false);
    var t := SplitHand(s, p, i);
    PushNoDup(s.freeq[i - 1], p);
    OutsideOk(s, t, p, 2 * Pow2(i - 1));
    InsideOk(t, p, i - 1, true);
    InsideOk(t, p + Pow2(i - 1), i - 1, false);
    StillCoalesced(s, t, p, i - 1);
  }

  lemma SplitAllocKeeps(s: Seg, p: nat, i: nat)
    requires Inv(s) && IsBlock(s, p, i, false) && i > 0
    ensures Inv(SplitAlloc(s, p, i))
    ensures IsBlock(SplitAlloc(s, p, i), p, i - 1, false)
    ensures IsBlock(SplitAlloc(s, p, i), p + Pow2(i - 1), i - 1, false)
  {
    Halves(s, p, i, false);
    var t := SplitAlloc(s, p, i);
    OutsideOk(s, t, p, 2 * Pow2(i - 1));
    InsideOk(t, p, i - 1, false);
    InsideOk(t, p + Pow2(i - 1), i - 1, false);
    FewerFree(s, t);
  }

  /** The queues after pm_split_page. */
  lemma SplitQueues(s: Seg, p: nat, i: nat)
    requires Tiled(s) && IsBlock(s, p, i, true) && i > 0
    ensures i < |s.freeq| && |SplitFree(s, p, i).freeq| == QUEUES
    ensures forall x :: 0 <= x < QUEUES ==> NoDup(SplitFree(s, p, i).freeq[x])
    ensures forall x, y :: 0 <= x < QUEUES ==>
              (y in SplitFree(s, p, i).freeq[x] <==>
                 (y in s.freeq[x] && !(x == i && y == p)) || (x == i - 1 && (y == p || y == p + Pow2(i - 1))))
  {
    Halves(s, p, i, true);
    PushNoDup(s.freeq[i - 1], p);
    PushNoDup([p] + s.freeq[i - 1], p + Pow2(i - 1));
  }

  lemma SplitFreeKeeps(s: Seg, p: nat, i: nat)
    requires Tiled(s) && IsBlock(s, p, i, true) && i > 0
    ensures i < |s.freeq| && Tiled(SplitFree(s, p, i))
    ensures IsBlock(SplitFree(s, p, i), p, i - 1, true)
    ensures IsBlock(SplitFree(s, p, i), p + Pow2(i - 1), i - 1, true)
  {
    Halves(s, p, i, true);
    var t := SplitFree(s, p, i);
    SplitQueues(s, p, i);
    OutsideOk(s, t, p, 2 * Pow2(i - 1));
    InsideOk(t, p, i - 1, true);
    InsideOk(t, p + Pow2(i - 1), i - 1, true);
  }

  lemma SeizeKeeps(s: Seg, p: nat, i: nat)
    requires Tiled(s) && IsBlock(s, p, i, true)
    ensures i < |s.freeq| && Tiled(Seize(s, p, i))
  {
    assert FrameOk(s, p);
    OutsideOk(s, Seize(s, p, i), p, Pow2(i));
  }

  /** The buddy of a block lies in the segment exactly when the block is not the whole segment. */
  lemma BelowTop(s: Seg, p: nat, i: nat)
    requires Shape(s) && p < |s.owner| && Aligned(p, i) && i <= s.k
    ensures Buddy(p, i) < |s.owner| <==> i < s.k
    ensures i < s.k ==> Parent(p, i) + Pow2(i + 1) <= |s.owner|
  {
    ZeroAligned(s.k);
    BuddyFacts(p, i);
    if i < s.k {
      Nested(0, s.k, Parent(p, i), i + 1);
    } else {
      SameOrderSameStart(0, p, i);
      ZeroAligned(i + 1);
    }
  }

  lemma MergeHandKeeps(s: Seg, p: nat, i: nat)
    requires Inv(s) && IsBlock(s, p, i, false) && Aligned(p, i) && IsBlock(s, Buddy(p, i), i, true)
    ensures i < s.k && Inv(MergeHand(s, p, i))
    ensures IsBlock(MergeHand(s, p, i), Parent(p, i), i + 1, false)
  {
    MergeHandTiled(s, p, i);
    FewerFree(s, MergeHand(s, p, i));
  }

  lemma MergeHandTiled(s: Seg, p: nat, i: nat)
    requires Tiled(s) && IsBlock(s, p, i, false) && Aligned(p, i) && IsBlock(s, Buddy(p, i), i, true)
    ensures i < s.k && Tiled(MergeHand(s, p, i))
    ensures IsBlock(MergeHand(s, p, i), Parent(p, i), i + 1, false)
  {
    MergeHandOutside(s, p, i);
    var q, t := Parent(p, i), MergeHand(s, p, i);
    OutsideOk(s, t, q, Pow2(i + 1));
    InsideOk(t, q, i + 1, false);
  }

  /** Joining two buddies touches no frame and no queue entry outside their parent. */
  lemma MergeHandOutside(s: Seg, p: nat, i: nat)
    requires Tiled(s) && IsBlock(s, p, i, false) && Aligned(p, i) && IsBlock(s, Buddy(p, i), i, true)
    ensures i < s.k && Aligned(Parent(p, i), i + 1) && Parent(p, i) + Pow2(i + 1) <= |s.owner|
    ensures OwnedFrom(s, Parent(p, i), Pow2(i + 1)) && SameOutside(s, MergeHand(s, p, i), Parent(p, i), Pow2(i + 1))
    ensures forall f :: Parent(p, i) <= f < Parent(p, i) + Pow2(i + 1)
              ==> s.owner[f] == Block(p, i, false) || s.owner[f] == Block(Buddy(p, i), i, true)
  {
    var b, q := Buddy(p, i), Parent(p, i);
    assert FrameOk(s, p) && FrameOk(s, b);
    BuddyFacts(p, i);
    BelowTop(s, p, i);
    forall f | q <= f < q + Pow2(i + 1)
      ensures s.owner[f] == Block(p, i, false) || s.owner[f] == Block(b, i, true)
    {
      assert q == p || q == b;
      assert f < q + Pow2(i) || f >= q + Pow2(i);
    }
  }

  // ----------------------------------------------------------- operations

  /** Lowest non-empty queue from `i` up, or `QUEUES`. */
  function FirstQueue(freeq: seq<seq<nat>>, i: nat): (r: nat)
    requires i <= |freeq| == QUEUES
    ensures i <= r <= QUEUES
    ensures r < QUEUES ==> freeq[r] != []
    ensures forall x :: i <= x < r ==> freeq[x] == []
    decreases QUEUES - i
  {
    if i == QUEUES || freeq[i] != [] then i else FirstQueue(freeq, i + 1)
  }

  /** Halve the block in hand until it has order `j`. */
  function Carve(s: Seg, p: nat, i: nat, j: nat): (r: (Seg, nat))
    requires j <= i < |s.freeq|
    ensures |r.0.freeq| == |s.freeq| && |r.0.owner| == |s.owner|
    decreases i
  {
    if i == j then (s, p) else Carve(SplitHand(s, p, i), p + Pow2(i - 1), i - 1, j)
  }

  lemma CarveStep(s: Seg, p: nat, i: nat, j: nat)
    requires j < i < |s.freeq|
    ensures Carve(s, p, i, j) == Carve(SplitHand(s, p, i), p + Pow2(i - 1), i - 1, j)
  {
  }

  /** pm_alloc_from_seg for 2^j frames. */
  function Alloc(s: Seg, j: nat): Option<(Seg, nat)>
    requires j < |s.freeq| == QUEUES
  {
    var i := FirstQueue(s.freeq, j);
    if i == QUEUES then None
    else
      var p := s.freeq[i][0];
      Some(Carve(Take(s, p, i), p, i, j))
  }

  /** Join the block in hand with free buddies as long as there are any, then release it. */
  ghost function MergeUp(s: Seg, p: nat, i: nat): Seg
    requires Inv(s) && IsBlock(s, p, i, false)
    decreases s.k - i
  {
    assert FrameOk(s, p);
    if IsBlock(s, Buddy(p, i), i, true) then
      MergeHandKeeps(s, p, i);
      MergeUp(MergeHand(s, p, i), Parent(p, i), i + 1)
    else Release(s, p, i)
  }

  lemma MergeUpStep(s: Seg, p: nat, i: nat)
    requires Inv(s) && IsBlock(s, p, i, false) && Aligned(p, i) && IsBlock(s, Buddy(p, i), i, true)
    ensures i < s.k && Inv(MergeHand(s, p, i)) && IsBlock(MergeHand(s, p, i), Parent(p, i), i + 1, false)
    ensures MergeHand(s, p, i).k == s.k && Aligned(Parent(p, i), i + 1)
    ensures MergeUp(s, p, i) == MergeUp(MergeHand(s, p, i), Parent(p, i), i + 1)
  {
    MergeHandKeeps(s, p, i);
    assert FrameOk(MergeHand(s, p, i), Parent(p, i));
  }

  /** pm_free_from_seg for the block that starts at `p`. */
  ghost function Free(s: Seg, p: nat): Seg
    requires Inv(s) && p < |s.owner| && s.owner[p].Block? && IsBlock(s, p, s.owner[p].order, false)
  {
    MergeUp(s, p, s.owner[p].order)
  }

  /** The frames `[p, p + n)` are all free. */
  predicate FreeRun(s: Seg, p: nat, n: nat) {
    forall f :: p <= f < p + n ==> FreeFrame(s, f)
  }

  /** An aligned run of 2^j free frames starts at `p`. */
  predicate AlignedRun(s: Seg, p: nat, j: nat) { Aligned(p, j) && FreeRun(s, p, Pow2(j)) }

  // -------------------------------------------------------------- theorems

  /** In coalesced form an aligned run of free frames lies in one free block. */
  lemma {:induction false} RunInOneBlock(s: Seg, p: nat, j: nat)
    requires Inv(s) && Aligned(p, j) && FreeRun(s, p, Pow2(j))
    ensures FreeFrame(s, p) && s.owner[p].order >= j
    decreases j
  {
    assert FreeFrame(s, p);
    if j > 0 {
      var m := p + Pow2(j - 1);
      AlignedWeaken(p, j - 1);
      BuddyFacts(p, j - 1);
      RunInOneBlock(s, p, j - 1);
      RunInOneBlock(s, m, j - 1);
      var a, c := s.owner[p], s.owner[m];
      assert FrameOk(s, p) && FrameOk(s, m);
      BelowTop(s, p, j - 1);
      if a.order == j - 1 { SameOrderSameStart(a.start, p, j - 1); }
      if c.order == j - 1 {
        SameOrderSameStart(c.start, m, j - 1);
        assert IsBlock(s, Buddy(p, j - 1), j - 1, true);  // so p does not head a free buddy
      } else {
        NestedAround(c.start, c.order, p, j, m);  // the block at m holds p
      }
    }
  }

  /** A block of order at least `j` that meets an aligned run of order `j` holds the run. */
  lemma NestedAround(a: nat, i: nat, p: nat, j: nat, f: nat)
    requires j <= i && Aligned(a, i) && Aligned(p, j)
    requires a <= f < a + Pow2(i) && p <= f < p + Pow2(j)
    ensures a <= p && p + Pow2(j) <= a + Pow2(i)
  {
    AlignedDown(a, j, i);
    if p < a {
      Nested(p, j, a, j);
    }
    Nested(a, i, p, j);
  }

  /** Completeness: an allocation fails exactly when no aligned run is free. */
  lemma AllocComplete(s: Seg, j: nat)
    requires Inv(s) && j < QUEUES
    ensures Alloc(s, j).None? <==> forall p: nat :: p < |s.owner| ==> !AlignedRun(s, p, j)
  {
    var i := FirstQueue(s.freeq, j);
    if i < QUEUES {
      var p := s.freeq[i][0];
      assert IsBlock(s, p, i, true) && FrameOk(s, p);
      AlignedDown(p, j, i);
      Pow2Monotone(j, i);
      assert AlignedRun(s, p, j);
    } else {
      forall p: nat | p < |s.owner| ensures !AlignedRun(s, p, j) {
        if AlignedRun(s, p, j) { NotAllEmpty(s, p, j); }
      }
    }
  }

  lemma NotAllEmpty(s: Seg, p: nat, j: nat)
    requires Inv(s) && p < |s.owner| && AlignedRun(s, p, j)
    ensures exists i :: j <= i < QUEUES && s.freeq[i] != []
  {
    RunInOneBlock(s, p, j);
    assert FrameOk(s, p) && s.freeq[s.owner[p].order] != [];
  }

  /** `t` differs from `s` in that exactly the frames `[p, p + n)` changed from free to not free. */
  ghost predicate OnlyTaken(s: Seg, t: Seg, p: nat, n: nat) {
    && t.k == s.k && |t.owner| == |s.owner| && p + n <= |s.owner|
    && (forall f :: p <= f < p + n ==> FreeFrame(s, f) && !FreeFrame(t, f))
    && (forall f: nat :: !(p <= f < p + n) ==> (FreeFrame(t, f) <==> FreeFrame(s, f)))
    && (forall f :: 0 <= f < |s.owner| && !FreeFrame(s, f) ==> t.owner[f] == s.owner[f])
  }

  lemma {:induction false} CarveKeeps(s: Seg, p: nat, i: nat, j: nat)
    requires Inv(s) && IsBlock(s, p, i, false) && j <= i
    ensures i < |s.freeq|
    ensures Inv(Carve(s, p, i, j).0) && IsBlock(Carve(s, p, i, j).0, Carve(s, p, i, j).1, j, false)
    decreases i
  {
    assert FrameOk(s, p);
    if j < i {
      SplitHandKeeps(s, p, i);
      CarveKeeps(SplitHand(s, p, i), p + Pow2(i - 1), i - 1, j);
    }
  }

  /** `Carve` cuts `[q, q + 2^j)` out of `[p, p + 2^i)`, frees the rest and touches nothing else. */
  ghost predicate CutOut(s: Seg, t: Seg, p: nat, i: nat, q: nat, j: nat) {
    && t.k == s.k && |t.owner| == |s.owner|
    && p <= q && q + Pow2(j) <= p + Pow2(i) <= |s.owner|
    && (forall f :: 0 <= f < |s.owner| && !(p <= f < p + Pow2(i)) ==> t.owner[f] == s.owner[f])
    && (forall f :: p <= f < p + Pow2(i) ==> (FreeFrame(t, f) <==> !(q <= f < q + Pow2(j))))
  }

  lemma {:induction false} CarveCuts(s: Seg, p: nat, i: nat, j: nat)
    requires j <= i < |s.freeq| && p + Pow2(i) <= |s.owner|
    requires forall f :: p <= f < p + Pow2(i) ==> s.owner[f] == Block(p, i, false)
    ensures CutOut(s, Carve(s, p, i, j).0, p, i, Carve(s, p, i, j).1, j)
    decreases i
  {
    if j < i {
      CarveCuts(SplitHand(s, p, i), p + Pow2(i - 1), i - 1, j);
    }
  }

  /** Allocation hands out one aligned block of free frames and changes nothing else. */
  lemma AllocKeeps(s: Seg, j: nat)
    requires Inv(s) && j < QUEUES && Alloc(s, j).Some?
    ensures Inv(Alloc(s, j).value.0)
    ensures IsBlock(Alloc(s, j).value.0, Alloc(s, j).value.1, j, false)
    ensures OnlyTaken(s, Alloc(s, j).value.0, Alloc(s, j).value.1, Pow2(j))
  {
    var i := FirstQueue(s.freeq, j);
    var p := s.freeq[i][0];
    assert IsBlock(s, p, i, true) && FrameOk(s, p);
    TakeKeeps(s, p, i);
    var h := Take(s, p, i);
    CarveKeeps(h, p, i, j);
    CarveCuts(h, p, i, j);
    TakenThenCut(s, Alloc(s, j).value.0, p, i, Alloc(s, j).value.1, j);
  }

  lemma TakenThenCut(s: Seg, t: Seg, p: nat, i: nat, q: nat, j: nat)
    requires i < |s.freeq| && p + Pow2(i) <= |s.owner| && CutOut(Take(s, p, i), t, p, i, q, j)
    requires forall f :: p <= f < p + Pow2(i) ==> FreeFrame(s, f)
    ensures OnlyTaken(s, t, q, Pow2(j))
  {
  }

  /** `Carve` hands out the upper end of the block. */
  lemma {:induction false} CarveEnd(s: Seg, p: nat, i: nat, j: nat)
    requires j <= i < |s.freeq|
    ensures Carve(s, p, i, j).1 + Pow2(j) == p + Pow2(i)
    decreases i
  {
    if j < i { CarveEnd(SplitHand(s, p, i), p + Pow2(i - 1), i - 1, j); }
  }

  /** The 2^j frames from `q` on are the upper end of a free block of the least order, among those large
      enough, that is free at all, and of that order the first in its queue. */
  ghost predicate BestFit(s: Seg, j: nat, q: nat) {
    && FreeFrame(s, q) && j <= s.owner[q].order < |s.freeq|
    && (forall f: nat :: FreeFrame(s, f) && s.owner[f].order >= j ==> s.owner[q].order <= s.owner[f].order)
    && s.freeq[s.owner[q].order] != [] && s.owner[q].start == s.freeq[s.owner[q].order][0]
    && q + Pow2(j) == s.owner[q].start + Pow2(s.owner[q].order)
  }

  lemma AllocBestFit(s: Seg, j: nat)
    requires Inv(s) && j < QUEUES && Alloc(s, j).Some?
    ensures BestFit(s, j, Alloc(s, j).value.1)
  {
    var i := FirstQueue(s.freeq, j);
    var p, q := s.freeq[i][0], Alloc(s, j).value.1;
    assert IsBlock(s, p, i, true) && FrameOk(s, p);
    CarveEnd(Take(s, p, i), p, i, j);
    Pow2Monotone(j, i);
    assert s.owner[q] == s.owner[p];
    forall f: nat | FreeFrame(s, f) && s.owner[f].order >= j ensures i <= s.owner[f].order {
      assert FrameOk(s, f) && s.freeq[s.owner[f].order] != [];
    }
  }

  /** Freeing a block makes exactly its frames free, whatever was merged. */
  lemma {:induction false} MergeUpInv(s: Seg, p: nat, i: nat)
    requires Inv(s) && IsBlock(s, p, i, false)
    ensures Inv(MergeUp(s, p, i))
    decreases s.k - i
  {
    assert FrameOk(s, p);
    if IsBlock(s, Buddy(p, i), i, true) {
      MergeHandKeeps(s, p, i);
      MergeUpInv(MergeHand(s, p, i), Parent(p, i), i + 1);
    } else {
      ReleaseKeeps(s, p, i);
    }
  }

  lemma {:induction false} MergeUpKeeps(s: Seg, p: nat, i: nat)
    requires Inv(s) && IsBlock(s, p, i, false)
    ensures OnlyTaken(MergeUp(s, p, i), s, p, Pow2(i))
    decreases s.k - i
  {
    assert FrameOk(s, p);
    if IsBlock(s, Buddy(p, i), i, true) {
      var t := MergeHand(s, p, i);
      MergeHandKeeps(s, p, i);
      MergeUpKeeps(t, Parent(p, i), i + 1);
      MergeFrames(s, p, i);
      MergedTaken(MergeUp(s, p, i), t, s, Parent(p, i), Pow2(i + 1), p, Pow2(i));
    }
  }

  /** From `u` to `t` the frames of a parent were taken; giving all but those of one child back
      leaves that child taken. */
  lemma MergedTaken(u: Seg, t: Seg, s: Seg, q: nat, m: nat, p: nat, n: nat)
    requires OnlyTaken(u, t, q, m) && q <= p && p + n <= q + m && |s.owner| == |t.owner| && s.k == t.k
    requires forall f :: 0 <= f < |s.owner| && !(q <= f < q + m) ==> t.owner[f] == s.owner[f]
    requires forall f :: q <= f < q + m && f < |s.owner| ==> (FreeFrame(s, f) <==> !(p <= f < p + n))
    ensures OnlyTaken(u, s, p, n)
  {
  }

  lemma MergeFrames(s: Seg, p: nat, i: nat)
    requires Inv(s) && IsBlock(s, p, i, false) && Aligned(p, i) && IsBlock(s, Buddy(p, i), i, true)
    ensures i < |s.freeq| && Parent(p, i) <= p && p + Pow2(i) <= Parent(p, i) + Pow2(i + 1) <= |s.owner|
    ensures forall f :: Parent(p, i) <= f < Parent(p, i) + Pow2(i + 1) && !(p <= f < p + Pow2(i))
              ==> s.owner[f] == Block(Buddy(p, i), i, true)
    ensures forall f :: 0 <= f < |s.owner| && !(Parent(p, i) <= f < Parent(p, i) + Pow2(i + 1))
              ==> MergeHand(s, p, i).owner[f] == s.owner[f]
    ensures forall f :: Parent(p, i) <= f < Parent(p, i) + Pow2(i + 1) && f < |s.owner|
              ==> (FreeFrame(s, f) <==> !(p <= f < p + Pow2(i)))
  {
    assert FrameOk(s, p) && FrameOk(s, Buddy(p, i));
    BuddyFacts(p, i);
    assert Pow2(i + 1) == 2 * Pow2(i);
  }

  lemma FreeKeeps(s: Seg, p: nat)
    requires Inv(s) && p < |s.owner| && s.owner[p].Block? && IsBlock(s, p, s.owner[p].order, false)
    ensures Inv(Free(s, p))
    ensures OnlyTaken(Free(s, p), s, p, Pow2(s.owner[p].order))
  {
    MergeUpInv(s, p, s.owner[p].order);
    MergeUpKeeps(s, p, s.owner[p].order);
  }

  /** Splitting the block in hand and merging it again is no change at all. */
  lemma MergeUndoesSplit(s: Seg, p: nat, i: nat)
    requires Inv(s) && IsBlock(s, p, i, false) && i > 0
    ensures i < |s.freeq| && Aligned(p + Pow2(i - 1), i - 1)
    ensures MergeHand(SplitHand(s, p, i), p + Pow2(i - 1), i - 1) == s
  {
    SplitHandKeeps(s, p, i);
    Halves(s, p, i, false);
    var t := SplitHand(s, p, i);
    assert Remove(t.freeq[i - 1], p) == s.freeq[i - 1];
    assert t.freeq[i - 1 := s.freeq[i - 1]] == s.freeq;
    assert MergeHand(t, p + Pow2(i - 1), i - 1).owner == s.owner;
  }

  ghost predicate MergesTo(s: Seg, p: nat, i: nat, goal: Seg) {
    Inv(s) && IsBlock(s, p, i, false) && MergeUp(s, p, i) == goal
  }

  lemma SplitMergesTo(s: Seg, p: nat, i: nat, goal: Seg)
    requires MergesTo(s, p, i, goal) && i > 0
    ensures i < |s.freeq| && MergesTo(SplitHand(s, p, i), p + Pow2(i - 1), i - 1, goal)
  {
    SplitHandKeeps(s, p, i);
    Halves(s, p, i, false);
    MergeUndoesSplit(s, p, i);
    MergeUpStep(SplitHand(s, p, i), p + Pow2(i - 1), i - 1);
  }

  /** Wherever merging a block leads, merging the piece carved from it leads too. */
  lemma {:induction false} MergeUndoesCarve(s: Seg, p: nat, i: nat, j: nat, goal: Seg)
    requires MergesTo(s, p, i, goal) && j <= i < |s.freeq|
    ensures MergesTo(Carve(s, p, i, j).0, Carve(s, p, i, j).1, j, goal)
    decreases i
  {
    if j < i {
      SplitMergesTo(s, p, i, goal);
      CarveStep(s, p, i, j);
      MergeUndoesCarve(SplitHand(s, p, i), p + Pow2(i - 1), i - 1, j, goal);
    }
  }

  /** Taking out the first block of a queue and releasing it is no change at all. */
  lemma ReleaseUndoesTake(s: Seg, i: nat)
    requires Inv(s) && i < QUEUES && s.freeq[i] != []
    ensures var p := s.freeq[i][0]; var h := Take(s, p, i);
            Inv(h) && IsBlock(h, p, i, false) && Release(h, p, i) == s
  {
    var p := s.freeq[i][0];
    assert IsBlock(s, p, i, true) && FrameOk(s, p);
    TakeKeeps(s, p, i);
    var h := Take(s, p, i);
    assert [p] + Remove(s.freeq[i], p) == s.freeq[i];
    assert Release(h, p, i).freeq == s.freeq;
    assert Release(h, p, i).owner == s.owner;
  }

  lemma TakeUndoesRelease(s: Seg, p: nat, i: nat)
    requires Tiled(s) && IsBlock(s, p, i, false)
    ensures i < QUEUES && Take(Release(s, p, i), p, i) == s
  {
    assert FrameOk(s, p);
    var t := Take(Release(s, p, i), p, i);
    assert Remove([p] + s.freeq[i], p) == s.freeq[i];
    assert t.freeq == s.freeq;
    assert t.owner == s.owner;
  }

  /** Exact undo: freeing what was just allocated restores every queue, order included. */
  lemma FreeUndoesAlloc(s: Seg, j: nat)
    requires Inv(s) && j < QUEUES && Alloc(s, j).Some?
    ensures var (t, q) := Alloc(s, j).value;
            Inv(t) && IsBlock(t, q, j, false) && Free(t, q) == s
  {
    var i := FirstQueue(s.freeq, j);
    var p := s.freeq[i][0];
    assert IsBlock(s, p, i, true) && FrameOk(s, p);
    var h := Take(s, p, i);
    ReleaseUndoesTake(s, i);
    BuddyFacts(p, i);
    BelowTop(s, p, i);
    assert !IsBlock(h, Buddy(p, i), i, true);
    MergeUndoesCarve(h, p, i, j, s);
  }

  /** Canonical form: the free blocks are determined by the set of free frames. */
  lemma FreeBlocksDetermined(s: Seg, t: Seg)
    requires Inv(s) && Inv(t) && s.k == t.k
    requires forall f: nat :: FreeFrame(s, f) <==> FreeFrame(t, f)
    ensures forall f: nat :: FreeFrame(s, f) ==> s.owner[f] == t.owner[f]
    ensures forall i, p :: 0 <= i < QUEUES ==> (p in s.freeq[i] <==> p in t.freeq[i])
  {
    forall f: nat | FreeFrame(s, f) ensures s.owner[f] == t.owner[f] {
      FreeBlockAt(s, t, f);
    }
    forall i, p | 0 <= i < QUEUES ensures p in s.freeq[i] <==> p in t.freeq[i] {
      if p in s.freeq[i] { assert IsBlock(s, p, i, true) && FrameOk(t, p); }
      if p in t.freeq[i] { assert IsBlock(t, p, i, true) && FrameOk(s, p); }
    }
  }

  lemma FreeBlockAt(s: Seg, t: Seg, f: nat)
    requires Inv(s) && Inv(t) && s.k == t.k && FreeFrame(s, f)
    requires forall f: nat :: FreeFrame(s, f) <==> FreeFrame(t, f)
    ensures s.owner[f] == t.owner[f]
  {
    var a, b := s.owner[f], t.owner[f];
    assert FrameOk(s, f) && FrameOk(t, f);
    LargerAround(s, t, f);
    LargerAround(t, s, f);
    SameOrderSameStart(a.start, b.start, a.order);
  }

  lemma LargerAround(s: Seg, t: Seg, f: nat)
    requires Inv(s) && Inv(t) && s.k == t.k && FreeFrame(s, f)
    requires forall f: nat :: FreeFrame(s, f) <==> FreeFrame(t, f)
    ensures FreeFrame(t, f) && t.owner[f].order >= s.owner[f].order
  {
    var a := s.owner[f];
    assert FrameOk(s, f);
    assert FreeRun(t, a.start, Pow2(a.order));
    RunInOneBlock(t, a.start, a.order);
    var c := t.owner[a.start];
    assert FrameOk(t, a.start);
    NestedAround(c.start, c.order, a.start, a.order, a.start);
    assert t.owner[f] == c;
  }

  // ---------------------------------------------------------- reservation

  predicate Overlaps(p: nat, n: nat, a: nat, b: nat) {
    p < b && a < p + n
  }

  /** Every free frame of `[a, b)` became reserved and nothing else changed hands. */
  ghost predicate Withdrawn(s: Seg, t: Seg, a: nat, b: nat) {
    && t.k == s.k && |t.owner| == |s.owner|
    && (forall f: nat :: FreeFrame(t, f) <==> FreeFrame(s, f) && !(a <= f < b))
    && (forall f :: a <= f < b && FreeFrame(s, f) ==> t.owner[f] == Reserved)
    && (forall f :: 0 <= f < |s.owner| && !FreeFrame(s, f) ==> t.owner[f] == s.owner[f])
  }

  /** The reservation loop halfway: frames of `[a, b)` may still be free, and two free
      buddies are allowed as long as their parent reaches into `[a, b)`. */
  ghost predicate Reserving(s: Seg, t: Seg, a: nat, b: nat) {
    && Tiled(t) && t.k == s.k && |t.owner| == |s.owner|
    && (forall f: nat :: FreeFrame(s, f) && !(a <= f < b) ==> FreeFrame(t, f))
    && (forall f :: 0 <= f < |s.owner| && FreeFrame(s, f) && !FreeFrame(t, f) ==> t.owner[f] == Reserved && a <= f < b)
    && (forall f :: 0 <= f < |s.owner| && !FreeFrame(s, f) ==> t.owner[f] == s.owner[f])
    && CoalescedOutside(t, a, b)
  }

  ghost predicate CoalescedOutside(t: Seg, a: nat, b: nat) {
    forall p: nat, i: nat :: IsBlock(t, p, i, true) && i < t.k && Aligned(p, i) && IsBlock(t, Buddy(p, i), i, true)
      ==> Overlaps(Parent(p, i), Pow2(i + 1), a, b)
  }

  /** No block left on queue `i` reaches into `[a, b)`. */
  ghost predicate Swept(q: seq<nat>, i: nat, a: nat, b: nat) {
    forall p :: p in q ==> !Overlaps(p, Pow2(i), a, b)
  }

  lemma SeizeStep(s: Seg, t: Seg, p: nat, i: nat, a: nat, b: nat)
    requires Reserving(s, t, a, b) && IsBlock(t, p, i, true) && a <= p && p + Pow2(i) <= b
    ensures i < |t.freeq| && Reserving(s, Seize(t, p, i), a, b)
  {
    SeizeKeeps(t, p, i);
    assert FrameOk(t, p);
    var u := Seize(t, p, i);
    forall q: nat, j: nat | IsBlock(u, q, j, true) ensures IsBlock(t, q, j, true) {}
  }

  lemma SplitStep(s: Seg, t: Seg, p: nat, i: nat, a: nat, b: nat)
    requires Reserving(s, t, a, b) && IsBlock(t, p, i, true) && i > 0 && Overlaps(p, Pow2(i), a, b)
    ensures i < |t.freeq| && Reserving(s, SplitFree(t, p, i), a, b)
  {
    SplitFreeKeeps(t, p, i);
    SplitFrames(t, p, i, a, b);
  }

  lemma SplitFrames(t: Seg, p: nat, i: nat, a: nat, b: nat)
    requires Tiled(t) && IsBlock(t, p, i, true) && i > 0
    ensures i < |t.freeq|
    ensures forall f: nat :: FreeFrame(SplitFree(t, p, i), f) <==> FreeFrame(t, f)
    ensures forall f :: 0 <= f < |t.owner| && !FreeFrame(t, f) ==> SplitFree(t, p, i).owner[f] == t.owner[f]
    ensures CoalescedOutside(t, a, b) && Overlaps(p, Pow2(i), a, b) ==> CoalescedOutside(SplitFree(t, p, i), a, b)
  {
    Halves(t, p, i, true);
    if CoalescedOutside(t, a, b) && Overlaps(p, Pow2(i), a, b) { SplitCoalesced(t, p, i, a, b); }
  }

  lemma SplitCoalesced(t: Seg, p: nat, i: nat, a: nat, b: nat)
    requires Tiled(t) && IsBlock(t, p, i, true) && i > 0
    requires CoalescedOutside(t, a, b) && Overlaps(p, Pow2(i), a, b)
    ensures i < |t.freeq| && CoalescedOutside(SplitFree(t, p, i), a, b)
  {
    Halves(t, p, i, true);
    SplitBlocks(t, p, i);
    SplitPairs(t, SplitFree(t, p, i), p, p + Pow2(i - 1), i - 1, a, b);
  }

  lemma SplitBlocks(t: Seg, p: nat, i: nat)
    requires Tiled(t) && IsBlock(t, p, i, true) && i > 0
    ensures i < |t.freeq| && !IsBlock(t, p + Pow2(i - 1), i - 1, true)
    ensures forall q: nat, j: nat :: IsBlock(SplitFree(t, p, i), q, j, true)
              ==> (j == i - 1 && (q == p || q == p + Pow2(i - 1))) || IsBlock(t, q, j, true)
  {
    Halves(t, p, i, true);
    assert FrameOk(t, p);
  }

  lemma SplitPairs(t: Seg, u: Seg, p: nat, m: nat, i: nat, a: nat, b: nat)
    requires CoalescedOutside(t, a, b) && u.k == t.k && Aligned(p, i) && Buddy(p, i) == m && Parent(p, i) == p
    requires Overlaps(p, Pow2(i + 1), a, b)
    requires forall q: nat, j: nat ::
               IsBlock(u, q, j, true) ==> (j == i && (q == p || q == m)) || IsBlock(t, q, j, true)
    requires !IsBlock(t, m, i, true) && !IsBlock(t, p, i, true)
    ensures CoalescedOutside(u, a, b)
  {
    forall q: nat, j: nat | IsBlock(u, q, j, true) && j < u.k && Aligned(q, j) && IsBlock(u, Buddy(q, j), j, true)
      ensures Overlaps(Parent(q, j), Pow2(j + 1), a, b)
    {
      BuddyFacts(q, j);
      BuddyFacts(p, i);
    }
  }

  lemma SweptAll(s: Seg, t: Seg, a: nat, b: nat)
    requires a < b && Reserving(s, t, a, b) && forall i :: 0 <= i < QUEUES ==> Swept(t.freeq[i], i, a, b)
    ensures Inv(t) && Withdrawn(s, t, a, b)
  {
    forall f: nat | FreeFrame(t, f) ensures !(a <= f < b) {
      assert FrameOk(t, f);
      assert Swept(t.freeq[t.owner[f].order], t.owner[f].order, a, b);
    }
    forall p: nat, i: nat | IsBlock(t, p, i, true) ensures !Overlaps(p, Pow2(i), a, b) {
      assert FrameOk(t, p) && Swept(t.freeq[i], i, a, b);
    }
    forall p: nat, i: nat | IsBlock(t, p, i, true) && i < t.k && Aligned(p, i)
      ensures !IsBlock(t, Buddy(p, i), i, true)
    {
      ParentOverlap(p, i, a, b);
    }
  }

  lemma ParentOverlap(p: nat, i: nat, a: nat, b: nat)
    requires Aligned(p, i) && a < b
    ensures Overlaps(Parent(p, i), Pow2(i + 1), a, b)
       <==> Overlaps(p, Pow2(i), a, b) || Overlaps(Buddy(p, i), Pow2(i), a, b)
  {
    BuddyFacts(p, i);
  }

  // ------------------------------------------------------------------ runs

  datatype Op = DoAlloc(j: nat) | DoFree(p: nat) | DoSplit(p: nat) | DoReserve(a: nat, b: nat)

  ghost predicate Heads(s: Seg, p: nat) {
    p < |s.owner| && s.owner[p].Block? && IsBlock(s, p, s.owner[p].order, false)
  }

  /** One call. A freed page must head a block that is out; the free and reserve
      steps are fixed for the states in which they are defined, which `RunKeeps`
      shows to be all states of a run. */
  ghost predicate Step(s: Seg, op: Op, t: Seg) {
    match op
    case DoAlloc(j) => |s.freeq| == QUEUES && j < QUEUES && t == (if Alloc(s, j).None? then s else Alloc(s, j).value.0)
    case DoFree(p) => Heads(s, p) && (Inv(s) ==> t == Free(s, p))
    case DoSplit(p) => Heads(s, p) && s.owner[p].order > 0 && t == SplitAlloc(s, p, s.owner[p].order)
    case DoReserve(a, b) => a < b <= |s.owner| && (Inv(s) ==> Inv(t) && Withdrawn(s, t, a, b))
  }

  /** `ops` leads through `states`. */
  ghost predicate Run(states: seq<Seg>, ops: seq<Op>) {
    |states| == |ops| + 1 && forall n :: 0 <= n < |ops| ==> Step(states[n], ops[n], states[n + 1])
  }

  /** Operation `op` in state `s` hands out a block that holds frame `f`. */
  ghost predicate HandsOut(s: Seg, op: Op, f: nat) {
    && |s.freeq| == QUEUES && op.DoAlloc? && op.j < QUEUES && Alloc(s, op.j).Some?
    && Alloc(s, op.j).value.1 <= f < Alloc(s, op.j).value.1 + Pow2(op.j)
  }

  lemma StepKeeps(s: Seg, op: Op, t: Seg)
    requires Inv(s) && Step(s, op, t)
    ensures Inv(t) && t.k == s.k && |t.owner| == |s.owner|
    ensures forall f :: 0 <= f < |s.owner| && s.owner[f] == Reserved ==> t.owner[f] == Reserved
  {
    match op
    case DoAlloc(j) => if Alloc(s, j).Some? { AllocKeeps(s, j); }
    case DoFree(p) => FreeKeeps(s, p); assert FrameOk(s, p);
    case DoSplit(p) => SplitAllocKeeps(s, p, s.owner[p].order); Halves(s, p, s.owner[p].order, false);
    case DoReserve(a, b) =>
  }

  /** Over every run: the tiling and the coalesced form hold in every state, a
      reserved frame stays reserved, and no call ever hands it out. */
  lemma {:induction false} RunKeeps(states: seq<Seg>, ops: seq<Op>, n: nat)
    requires Run(states, ops) && Inv(states[0]) && n <= |ops|
    ensures Inv(states[n]) && states[n].k == states[0].k && |states[n].owner| == |states[0].owner|
    ensures forall f :: 0 <= f < |states[0].owner| && states[0].owner[f] == Reserved
              ==> states[n].owner[f] == Reserved && (n < |ops| ==> !HandsOut(states[n], ops[n], f))
  {
    if n > 0 {
      RunKeeps(states, ops, n - 1);
      StepKeeps(states[n - 1], ops[n - 1], states[n]);
    }
    if n < |ops| {
      forall f | 0 <= f < |states[0].owner| && states[0].owner[f] == Reserved ensures !HandsOut(states[n], ops[n], f) {
        NotHandedOut(states[n], ops[n], f);
      }
    }
  }

  lemma NotHandedOut(s: Seg, op: Op, f: nat)
    requires Inv(s) && f < |s.owner| && s.owner[f] == Reserved
    ensures !HandsOut(s, op, f)
  {
    if op.DoAlloc? && op.j < QUEUES && Alloc(s, op.j).Some? {
      AllocKeeps(s, op.j);
      assert HandsOut(s, op, f) ==> FreeFrame(s, f);
    }
  }

  ghost function FreeFrames(s: Seg): set<nat> {
    set f: nat | f < |s.owner| && FreeFrame(s, f)
  }

  /** Any free frame is handed out by some run of single-frame allocations. */
  lemma {:induction false} FreeFrameIsReachable(s: Seg, f: nat) returns (states: seq<Seg>, ops: seq<Op>)
    requires Inv(s) && FreeFrame(s, f)
    ensures Run(states, ops) && states[0] == s && |ops| > 0
    ensures HandsOut(states[|ops| - 1], ops[|ops| - 1], f)
    decreases FreeFrames(s)
  {
    assert AlignedRun(s, f, 0);
    AllocComplete(s, 0);
    AllocKeeps(s, 0);
    var (t, q) := Alloc(s, 0).value;
    if q == f {
      return [s, t], [DoAlloc(0)];
    }
    assert q in FreeFrames(s) && q !in FreeFrames(t);
    var rest, ops' := FreeFrameIsReachable(t, f);
    states, ops := [s] + rest, [DoAlloc(0)] + ops';
  }

  /** The promise of physmem.h, "pages in range are never going to be allocated",
      holds exactly when no frame of the range was handed out at the time. */
  lemma ReservePromise(s: Seg, t: Seg, a: nat, b: nat)
    requires Inv(s) && Inv(t) && a < b <= |s.owner| && Withdrawn(s, t, a, b)
    ensures (forall states, ops, n, f :: Run(states, ops) && states[0] == t && 0 <= n < |ops| && a <= f < b
               ==> !HandsOut(states[n], ops[n], f))
       <==> (forall f: nat :: a <= f < b ==> !AllocatedFrame(s, f))
  {
    if g: nat :| a <= g < b && AllocatedFrame(s, g) {
      var p := t.owner[g].start;
      assert FrameOk(t, g);
      FreeKeeps(t, p);
      assert FrameOk(t, p);
      var u := Free(t, p);
      var rest, ops' := FreeFrameIsReachable(u, g);
      var states, ops := [t] + rest, [DoFree(p)] + ops';
      assert Run(states, ops);
      assert HandsOut(states[|ops| - 1], ops[|ops| - 1], g);
    } else {
      forall states, ops, n, f | Run(states, ops) && states[0] == t && 0 <= n < |ops| && a <= f < b
        ensures !HandsOut(states[n], ops[n], f)
      {
        RunKeeps(states, ops, n);
        assert !AllocatedFrame(s, f);
      }
    }
  }
}
