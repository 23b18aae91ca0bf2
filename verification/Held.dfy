/** Single frames taken from a segment by pm_alloc(1) and given back by pm_free, against the
    state the segment had before any of them was taken. */
module Held {
  import opened Basics
  import opened Dyadic
  import opened BuddyBlocks

  ghost predicate FrameHeld(s0: Seg, s: Seg, held: set<nat>, f: nat)
    requires f < |s0.owner| == |s.owner|
  {
    if f in held then FreeFrame(s0, f) && s.owner[f] == Block(f, 0, false)
    else if FreeFrame(s0, f) then FreeFrame(s, f)
    else s.owner[f] == s0.owner[f]
  }

  /** From `s0` to `s` exactly the frames in `held` were taken, each as a block of its own. */
  ghost predicate Holding(s0: Seg, s: Seg, held: set<nat>) {
    && Inv(s0) && Inv(s) && s.k == s0.k && |s.owner| == |s0.owner|
    && (forall f :: f in held ==> f < |s0.owner|)
    && forall f: nat :: f < |s0.owner| ==> FrameHeld(s0, s, held, f)
  }

  lemma TakeOne(s0: Seg, s: Seg, held: set<nat>)
    requires Holding(s0, s, held) && Alloc(s, 0).Some?
    ensures Alloc(s, 0).value.1 !in held && Holding(s0, Alloc(s, 0).value.0, held + {Alloc(s, 0).value.1})
  {
    AllocKeeps(s, 0);
    var (t, q) := Alloc(s, 0).value;
    assert FreeFrame(s, q) && FrameHeld(s0, s, held, q);
    forall f: nat | f < |s0.owner| ensures FrameHeld(s0, t, held + {q}, f) {
      assert FrameHeld(s0, s, held, f);
      assert f != q ==> (FreeFrame(t, f) <==> FreeFrame(s, f));
    }
  }

  lemma GiveOne(s0: Seg, s: Seg, held: set<nat>, q: nat)
    requires Holding(s0, s, held) && q in held
    ensures IsBlock(s, q, 0, false) && Holding(s0, Free(s, q), held - {q})
  {
    assert FrameHeld(s0, s, held, q);
    FreeKeeps(s, q);
    var t := Free(s, q);
    forall f: nat | f < |s0.owner| ensures FrameHeld(s0, t, held - {q}, f) {
      assert FrameHeld(s0, s, held, f);
      assert f != q ==> (FreeFrame(t, f) <==> FreeFrame(s, f));
    }
  }

  /** The queues hold the same free blocks. */
  ghost predicate SameFreeBlocks(s: Seg, t: Seg) {
    |s.freeq| == |t.freeq| && forall i, p :: 0 <= i < |s.freeq| ==> (p in s.freeq[i] <==> p in t.freeq[i])
  }

  /** Once nothing is held, the free blocks are those there were at first. */
  lemma AllGivenBack(s0: Seg, s: Seg)
    requires Holding(s0, s, {})
    ensures SameFreeBlocks(s0, s) && s.owner == s0.owner
  {
    forall f: nat ensures FreeFrame(s0, f) <==> FreeFrame(s, f) {
      if f < |s0.owner| { assert FrameHeld(s0, s, {}, f); }
    }
    FreeBlocksDetermined(s0, s);
    forall f: nat | f < |s0.owner| ensures s.owner[f] == s0.owner[f] { assert FrameHeld(s0, s, {}, f); }
  }

  /** pm_alloc(1) fails exactly when no frame is free. */
  lemma NoneLeft(s: Seg)
    requires Inv(s)
    ensures Alloc(s, 0).None? <==> forall f: nat :: !FreeFrame(s, f)
  {
    AllocComplete(s, 0);
    forall f: nat ensures FreeFrame(s, f) <==> f < |s.owner| && AlignedRun(s, f, 0) { assert Pow2(0) == 1; }
  }

  lemma FramesFit(s: Seg)
    requires Inv(s)
    ensures |s.owner| <= 0x8000
  {
    Pow2Monotone(s.k, 15);
    assert Pow2(15) == 0x8000 by { assert Pow2(7) == 128; assert Pow2(11) == 2048; }
  }
}
