/** kmalloc's arenas: block headers in memory and a sorted free list, edited in place. */
module Heap {
  import opened Basics
  import opened HeapBlocks

  /** The mb_size word at address `a`; memory never written reads as zero. */
  function At(m: map<nat, int>, a: nat): int { if a in m then m[a] else 0 }

  /** mb_size: positive when free, negative when in use. */
  function Signed(n: nat, free: bool): int { if free then n else 0 - n }

  /** The headers found by walking from `base` describe `cs`. */
  ghost predicate Headers(m: map<nat, int>, base: nat, cs: Cells)
    decreases cs
  {
    cs.Cell? ==> At(m, base) == Signed(cs.size, cs.free) && Headers(m, base + cs.size + HDR, cs.rest)
  }

  lemma {:induction false} HeadersFrame(m: map<nat, int>, m': map<nat, int>, base: nat, cs: Cells)
    requires Headers(m, base, cs)
    requires forall a: nat :: base <= a < base + Span(cs) ==> At(m', a) == At(m, a)
    ensures Headers(m', base, cs)
    decreases cs
  {
    if cs.Cell? { HeadersFrame(m, m', base + cs.size + HDR, cs.rest); }
  }

  /** The free list and the headers describe the tiling `cs`. */
  ghost predicate Listed(fb: seq<nat>, m: map<nat, int>, base: nat, cs: Cells) {
    Headers(m, base, cs) && fb == FreeAddrs(base, cs)
  }

  // ------------------------------------------- the list operations, on values

  /** merge_right for position `x` of the free list `fb`, with the headers `m`. */
  function MergedAt(fb: seq<nat>, m: map<nat, int>, x: nat): (r: (seq<nat>, map<nat, int>))
    requires x < |fb|
    ensures |r.0| > x
  {
    if x + 1 < |fb| && fb[x] + At(m, fb[x]) + HDR == fb[x + 1]
    then (fb[..x + 1] + fb[x + 2..], m[fb[x] := At(m, fb[x]) + At(m, fb[x + 1]) + HDR])
    else (fb, m)
  }

  /** One more than the position of the last element below `mb`. */
  function Slot(fb: seq<nat>, mb: nat): (x: nat)
    ensures x <= |fb|
  {
    if fb == [] then 0
    else
      var t := Slot(fb[1..], mb);
      if t > 0 then t + 1 else if fb[0] < mb then 1 else 0
  }

  function Inserted(fb: seq<nat>, x: nat, mb: nat): (r: seq<nat>)
    requires x <= |fb|
    ensures |r| == |fb| + 1
  {
    fb[..x] + [mb] + fb[x..]
  }

  /** add_free_memory_block */
  function Added(fb: seq<nat>, m: map<nat, int>, mb: nat, total: nat): (seq<nat>, map<nat, int>) {
    var x := Slot(fb, mb);
    var r := MergedAt(Inserted(fb, x, mb), m[mb := total - HDR], x);
    if x > 0 then MergedAt(r.0, r.1, x - 1) else r
  }

  /** TAILQ_REMOVE of the element at position `x` */
  function Dropped(fb: seq<nat>, x: nat): (r: seq<nat>)
    requires x < |fb|
    ensures forall a :: a in r ==> a in fb
  {
    fb[..x] + fb[x + 1..]
  }

  /** try_allocating_in_area once the block `mb` is off the free list */
  function Used(fb: seq<nat>, m: map<nat, int>, mb: nat, req: nat): (seq<nat>, map<nat, int>)
    requires At(m, mb) >= req
  {
    var left := At(m, mb) - req;
    if left > HDR then Added(fb, m[mb := 0 - req], mb + req + HDR, left) else (fb, m[mb := 0 - At(m, mb)])
  }

  /** try_allocating_in_area once find_entry has found position `x` */
  function Taken(fb: seq<nat>, m: map<nat, int>, x: nat, req: nat): (seq<nat>, map<nat, int>)
    requires x < |fb| && At(m, fb[x]) >= req
  {
    Used(Dropped(fb, x), m, fb[x], req)
  }

  // ------------------------------------------------ one element more in front

  lemma MergedCons(b: nat, fb: seq<nat>, m: map<nat, int>, x: nat)
    requires x < |fb|
    ensures MergedAt([b] + fb, m, x + 1) == ([b] + MergedAt(fb, m, x).0, MergedAt(fb, m, x).1)
  {
    var c := [b] + fb;
    if x + 1 < |fb| {
      assert c[..x + 2] + c[x + 3..] == [b] + (fb[..x + 1] + fb[x + 2..]);
    }
  }

  lemma SlotCons(b: nat, fb: seq<nat>, mb: nat)
    requires b < mb
    ensures Slot([b] + fb, mb) == Slot(fb, mb) + 1
    ensures Inserted([b] + fb, Slot(fb, mb) + 1, mb) == [b] + Inserted(fb, Slot(fb, mb), mb)
  {
    assert ([b] + fb)[1..] == fb;
  }

  /** A smaller element in front stays in front, and is joined only with the new block. */
  lemma AddedCons(b: nat, fb: seq<nat>, m: map<nat, int>, mb: nat, total: nat)
    requires b < mb
    ensures var r := Added(fb, m, mb, total);
            && |r.0| > 0 && (Slot(fb, mb) == 0 ==> r.0[0] == mb)
            && Added([b] + fb, m, mb, total)
               == if Slot(fb, mb) > 0 then ([b] + r.0, r.1) else MergedAt([b] + r.0, r.1, 0)
  {
    var x := Slot(fb, mb);
    var m1 := m[mb := total - HDR];
    SlotCons(b, fb, mb);
    MergedCons(b, Inserted(fb, x, mb), m1, x);
    var r := MergedAt(Inserted(fb, x, mb), m1, x);
    if x > 0 { MergedCons(b, r.0, r.1, x - 1); }
  }

  lemma {:induction false} SlotZero(fb: seq<nat>, mb: nat)
    requires forall a :: a in fb ==> a >= mb
    ensures Slot(fb, mb) == 0
  {
    if fb != [] {
      assert fb[0] in fb && forall a :: a in fb[1..] ==> a in fb;
      SlotZero(fb[1..], mb);
    }
  }

  lemma {:induction false} SlotSome(fb: seq<nat>, mb: nat)
    requires Slot(fb, mb) > 0
    ensures exists a :: a in fb && a < mb
  {
    if Slot(fb[1..], mb) > 0 {
      SlotSome(fb[1..], mb);
      var a :| a in fb[1..] && a < mb;
      assert a in fb;
    } else {
      assert fb[0] in fb;
    }
  }

  /** Only the new header and headers of listed blocks are written. */
  lemma AddedFrame(fb: seq<nat>, m: map<nat, int>, mb: nat, total: nat, a: nat)
    requires a != mb && a !in fb
    ensures At(Added(fb, m, mb, total).1, a) == At(m, a)
  {
    var x := Slot(fb, mb);
    var c := Inserted(fb, x, mb);
    assert forall y :: 0 <= y < |c| ==> c[y] == mb || c[y] in fb;
    var r := MergedAt(c, m[mb := total - HDR], x);
    assert x > 0 ==> r.0[x - 1] == c[x - 1];
  }

  // ------------------------------------------------------- freeing and taking

  lemma AddedZero(fb: seq<nat>, m: map<nat, int>, mb: nat, s: nat)
    requires forall a :: a in fb ==> a >= mb
    ensures Slot(fb, mb) == 0 && Added(fb, m, mb, s + HDR) == MergedAt([mb] + fb, m[mb := s], 0)
  {
    SlotZero(fb, mb);
    assert Inserted(fb, 0, mb) == [mb] + fb;
  }

  lemma MergedTwo(mb: nat, next: nat, fs: seq<nat>, m: map<nat, int>)
    requires mb + At(m, mb) + HDR == next
    ensures MergedAt([mb] + ([next] + fs), m, 0) == ([mb] + fs, m[mb := At(m, mb) + At(m, next) + HDR])
  {
    var c := [mb] + ([next] + fs);
    assert c[1] == next && c[..1] + c[2..] == [mb] + fs;
  }

  /** merge_right of a first block with a free one behind it, */
  lemma MergedFree(m: map<nat, int>, mb: nat, s: nat, rest: Cells)
    requires Headers(m, mb + s + HDR, rest) && HeadFree(rest) && At(m, mb) == s
    ensures var r := MergedAt([mb] + FreeAddrs(mb + s + HDR, rest), m, 0); Listed(r.0, r.1, mb, JoinRight(s, rest))
  {
    MergedList(m, mb, s, rest);
    MergedHeaders(m, mb, s, rest.size, rest.rest);
  }

  lemma MergedList(m: map<nat, int>, mb: nat, s: nat, rest: Cells)
    requires Headers(m, mb + s + HDR, rest) && HeadFree(rest) && At(m, mb) == s
    ensures MergedAt([mb] + FreeAddrs(mb + s + HDR, rest), m, 0)
         == ([mb] + FreeAddrs(mb + s + HDR + rest.size + HDR, rest.rest), m[mb := s + rest.size + HDR])
  {
    var next := mb + s + HDR;
    MergedTwo(mb, next, FreeAddrs(next + rest.size + HDR, rest.rest), m);
  }

  lemma MergedHeaders(m: map<nat, int>, mb: nat, s: nat, n: nat, tail: Cells)
    requires Headers(m, mb + s + HDR + n + HDR, tail)
    ensures Listed([mb] + FreeAddrs(mb + s + HDR + n + HDR, tail), m[mb := s + n + HDR], mb,
                   Cell(s + n + HDR, true, tail))
  {
    var after := mb + s + HDR + n + HDR;
    HeadersBehind(m, mb, s + n + HDR, after, tail);
    assert mb + (s + n + HDR) + HDR == after;
  }

  /** A header in front of the blocks from `after` on does not touch theirs. */
  lemma HeadersBehind(m: map<nat, int>, mb: nat, v: int, after: nat, cs: Cells)
    requires Headers(m, after, cs) && mb < after
    ensures Headers(m[mb := v], after, cs)
  {
    HeadersFrame(m, m[mb := v], after, cs);
  }

  /** and without one. */
  lemma MergedApart(m: map<nat, int>, mb: nat, s: nat, rest: Cells)
    requires Headers(m, mb + s + HDR, rest) && !HeadFree(rest) && At(m, mb) == s
    ensures var r := MergedAt([mb] + FreeAddrs(mb + s + HDR, rest), m, 0); Listed(r.0, r.1, mb, JoinRight(s, rest))
  {
    var next := mb + s + HDR;
    var fb := FreeAddrs(next, rest);
    if rest.Cell? {
      FreeWithin(next + rest.size + HDR, rest.rest);
      assert fb == FreeAddrs(next + rest.size + HDR, rest.rest);
      assert fb != [] ==> fb[0] in fb;
    }
  }

  /** add_free_memory_block at the front of `rest` */
  lemma AddedFront(m: map<nat, int>, mb: nat, s: nat, rest: Cells)
    requires Headers(m, mb + s + HDR, rest)
    ensures var r := Added(FreeAddrs(mb + s + HDR, rest), m, mb, s + HDR);
            Listed(r.0, r.1, mb, JoinRight(s, rest)) && Slot(FreeAddrs(mb + s + HDR, rest), mb) == 0
  {
    var next, m1 := mb + s + HDR, m[mb := s];
    FreeWithin(next, rest);
    AddedZero(FreeAddrs(next, rest), m, mb, s);
    HeadersFrame(m, m1, next, rest);
    if HeadFree(rest) { MergedFree(m1, mb, s, rest); } else { MergedApart(m1, mb, s, rest); }
  }

  /** add_free_memory_block of the block at `mb` leaves the free list and the headers of `Release`. */
  ghost predicate AddedOk(m: map<nat, int>, base: nat, cs: Cells, mb: nat)
    requires InUse(base, cs, mb)
  {
    var r := Added(FreeAddrs(base, cs), m, mb, SizeAt(base, cs, mb) + HDR);
    Listed(r.0, r.1, base, Release(base, cs, mb))
  }

  /** kfree: add_free_memory_block of a block in use releases it. */
  lemma {:induction false} AddedReleases(m: map<nat, int>, base: nat, cs: Cells, mb: nat)
    requires Headers(m, base, cs) && InUse(base, cs, mb)
    ensures AddedOk(m, base, cs, mb)
    decreases cs
  {
    if base == mb {
      AddedFront(m, mb, cs.size, cs.rest);
    } else {
      AddedReleases(m, base + cs.size + HDR, cs.rest, mb);
      AddedBehind(m, base, cs, mb);
    }
  }

  /** One block in front more, on the list side, */
  lemma AddedBehind(m: map<nat, int>, base: nat, cs: Cells, mb: nat)
    requires cs.Cell? && base != mb && InUse(base + cs.size + HDR, cs.rest, mb)
    requires At(m, base) == Signed(cs.size, cs.free)
    requires AddedOk(m, base + cs.size + HDR, cs.rest, mb)
    ensures AddedOk(m, base, cs, mb)
  {
    var next := base + cs.size + HDR;
    var g, total := FreeAddrs(next, cs.rest), SizeAt(next, cs.rest, mb) + HDR;
    InUseWithin(next, cs.rest, mb);
    FreeWithin(next, cs.rest);
    var r, listed := Added(g, m, mb, total), Slot(g, mb) > 0;
    AddedFrame(g, m, mb, total, base);
    AddedCons(base, g, m, mb, total);
    if listed { SlotSome(g, mb); }
    ReleaseBehind(base, cs, mb, r, listed);
    assert FreeAddrs(base, cs) == if cs.free then [base] + g else g;
  }

  /** and on the side of the tiling. */
  lemma ReleaseBehind(base: nat, cs: Cells, mb: nat, r: (seq<nat>, map<nat, int>), listed: bool)
    requires cs.Cell? && base != mb && InUse(base + cs.size + HDR, cs.rest, mb) && |r.0| > 0
    requires Listed(r.0, r.1, base + cs.size + HDR, Release(base + cs.size + HDR, cs.rest, mb))
    requires At(r.1, base) == Signed(cs.size, cs.free)
    requires if listed then base + cs.size + HDR != mb else r.0[0] == mb
    ensures var r' := if !cs.free then r else if listed then ([base] + r.0, r.1) else MergedAt([base] + r.0, r.1, 0);
            Listed(r'.0, r'.1, base, Release(base, cs, mb))
  {
    var next := base + cs.size + HDR;
    var t := Release(next, cs.rest, mb);
    if cs.free && next == mb {
      assert t.Cell? && t.free by { ReleaseLive(next, cs.rest, mb); }
      var after := mb + t.size + HDR;
      assert r.0 == [mb] + FreeAddrs(after, t.rest);
      assert ([base] + r.0)[..1] + ([base] + r.0)[2..] == [base] + FreeAddrs(after, t.rest);
      HeadersFrame(r.1, r.1[base := cs.size + t.size + HDR], after, t.rest);
    }
  }

  /** Position in the free list of the block that serves a request. */
  function FitIndex(cs: Cells, want: nat): nat
    requires Fits(cs, want)
  {
    if cs.free && cs.size >= want then 0 else (if cs.free then 1 else 0) + FitIndex(cs.rest, want)
  }

  /** find_entry finds the block that `FirstFit` names, or the end of the list. */
  lemma {:induction false} FindAgrees(m: map<nat, int>, base: nat, cs: Cells, want: nat, x: nat)
    requires Headers(m, base, cs) && x <= |FreeAddrs(base, cs)|
    requires x < |FreeAddrs(base, cs)| ==> At(m, FreeAddrs(base, cs)[x]) >= want
    requires forall y :: 0 <= y < x ==> At(m, FreeAddrs(base, cs)[y]) < want
    ensures x < |FreeAddrs(base, cs)| <==> Fits(cs, want)
    ensures Fits(cs, want) ==>
              && x == FitIndex(cs, want)
              && (FreeAddrs(base, cs)[x], At(m, FreeAddrs(base, cs)[x])) == FirstFit(base, cs, want)
    decreases cs
  {
    if cs.Cell? {
      var f, g := FreeAddrs(base, cs), FreeAddrs(base + cs.size + HDR, cs.rest);
      if cs.free {
        assert f[0] == base && forall y :: 0 <= y < |g| ==> g[y] == f[y + 1];
        if cs.size < want { FindAgrees(m, base + cs.size + HDR, cs.rest, want, x - 1); }
      } else {
        FindAgrees(m, base + cs.size + HDR, cs.rest, want, x);
      }
    }
  }

  /** try_allocating_in_area when the first block serves the request */
  lemma UsedFront(m: map<nat, int>, base: nat, n: nat, rest: Cells, req: nat)
    requires req + HDR <= n && !HeadFree(rest) && At(m, base) == n && Headers(m, base + n + HDR, rest)
    ensures var r := Used(FreeAddrs(base + n + HDR, rest), m, base, req); Listed(r.0, r.1, base, Cut(n, req, rest))
  {
    var next := base + n + HDR;
    if n - req > HDR {
      var m1, mb := m[base := 0 - req], base + req + HDR;
      HeadersFrame(m, m1, next, rest);
      AddedFront(m1, mb, n - req - HDR, rest);
      FreeWithin(next, rest);
      AddedFrame(FreeAddrs(next, rest), m1, mb, n - req, base);
    } else {
      HeadersFrame(m, m[base := 0 - n], next, rest);
    }
  }

  lemma DropCons(b: nat, fb: seq<nat>, x: nat)
    requires x < |fb|
    ensures ([b] + fb)[x + 1] == fb[x]
    ensures Dropped([b] + fb, x + 1) == [b] + Dropped(fb, x)
  {
  }

  /** A block in front that does not touch the new block stays as it is. */
  lemma AddedConsApart(b: nat, fb: seq<nat>, m: map<nat, int>, mb: nat, total: nat)
    requires b < mb && b !in fb && b + At(m, b) + HDR != mb
    ensures Added([b] + fb, m, mb, total) == ([b] + Added(fb, m, mb, total).0, Added(fb, m, mb, total).1)
  {
    AddedCons(b, fb, m, mb, total);
    AddedFrame(fb, m, mb, total, b);
  }

  lemma UsedCons(b: nat, fb: seq<nat>, m: map<nat, int>, mb: nat, req: nat)
    requires At(m, mb) >= req && b + At(m, b) + HDR <= mb && b !in fb && b < mb
    ensures Used([b] + fb, m, mb, req) == ([b] + Used(fb, m, mb, req).0, Used(fb, m, mb, req).1)
  {
    var left, m1 := At(m, mb) - req, m[mb := 0 - req];
    if left > HDR {
      assert At(m1, b) == At(m, b) && Used(fb, m, mb, req) == Added(fb, m1, mb + req + HDR, left);
      AddedConsApart(b, fb, m1, mb + req + HDR, left);
    } else {
      assert Used(fb, m, mb, req) == (fb, m[mb := 0 - At(m, mb)]);
    }
  }

  /** try_allocating_in_area allocates. */
  lemma {:induction false} TakenAllocates(m: map<nat, int>, base: nat, cs: Cells, req: nat)
    requires Headers(m, base, cs) && Good(cs) && Fits(cs, req + HDR)
    ensures FoundAt(m, base, cs, req) && TakenOk(m, base, cs, req)
    decreases cs
  {
    if cs.free && cs.size >= req + HDR {
      TakenHead(m, base, cs, req);
    } else {
      TakenAllocates(m, base + cs.size + HDR, cs.rest, req);
      TakenBehind(m, base, cs, req);
    }
  }

  /** The position `FitIndex` of the list holds the block that `FirstFit` names. */
  ghost predicate FoundAt(m: map<nat, int>, base: nat, cs: Cells, req: nat)
    requires Fits(cs, req + HDR)
  {
    var f, x := FreeAddrs(base, cs), FitIndex(cs, req + HDR);
    x < |f| && (f[x], At(m, f[x])) == FirstFit(base, cs, req + HDR) && At(m, f[x]) >= req + HDR
  }

  /** Taking that block leaves the free list and the headers of `Allocate`. */
  ghost predicate TakenOk(m: map<nat, int>, base: nat, cs: Cells, req: nat)
    requires Fits(cs, req + HDR) && FoundAt(m, base, cs, req)
  {
    var r := Taken(FreeAddrs(base, cs), m, FitIndex(cs, req + HDR), req);
    Listed(r.0, r.1, base, Allocate(cs, req))
  }

  lemma TakenHead(m: map<nat, int>, base: nat, cs: Cells, req: nat)
    requires Headers(m, base, cs) && Good(cs) && HeadFree(cs) && cs.size >= req + HDR
    ensures FoundAt(m, base, cs, req) && TakenOk(m, base, cs, req)
  {
    assert Dropped(FreeAddrs(base, cs), 0) == FreeAddrs(base + cs.size + HDR, cs.rest);
    UsedFront(m, base, cs.size, cs.rest, req);
  }

  lemma TakenBehind(m: map<nat, int>, base: nat, cs: Cells, req: nat)
    requires cs.Cell? && !(cs.free && cs.size >= req + HDR) && Fits(cs.rest, req + HDR)
    requires At(m, base) == Signed(cs.size, cs.free) && FoundAt(m, base + cs.size + HDR, cs.rest, req)
    requires TakenOk(m, base + cs.size + HDR, cs.rest, req)
    ensures FoundAt(m, base, cs, req) && TakenOk(m, base, cs, req)
  {
    var next := base + cs.size + HDR;
    var g, x := FreeAddrs(next, cs.rest), FitIndex(cs.rest, req + HDR);
    FreeWithin(next, cs.rest);
    assert g[x] in g;
    TakenPast(base, g, m, x, req);
    if cs.free {
      DropCons(base, g, x);
      UsedCons(base, Dropped(g, x), m, g[x], req);
    }
  }

  lemma TakenPast(b: nat, fb: seq<nat>, m: map<nat, int>, x: nat, req: nat)
    requires x < |fb| && At(m, fb[x]) >= req && b !in fb && b < fb[x]
    ensures At(Taken(fb, m, x, req).1, b) == At(m, b)
  {
    if At(m, fb[x]) - req > HDR {
      AddedFrame(Dropped(fb, x), m[fb[x] := 0 - req], fb[x] + req + HDR, At(m, fb[x]) - req, b);
    }
  }

  // ------------------------------------------------------------------ arena

  function Addrs(base: nat, cs: Cells): seq<nat>
    decreases cs
  {
    if cs.End? then [] else [base] + Addrs(base + cs.size + HDR, cs.rest)
  }

  /** sizeof(mem_arena_t) */
  const ARENA_HDR: nat := 32

  class Arena {
    const start: nat
    const size: nat
    var mbSize: map<nat, int>
    var freeblks: seq<nat>
    ghost var cells: Cells

    ghost predicate Valid()
      reads this
    {
      start % 8 == 0 && Good(cells) && Span(cells) == size && Listed(freeblks, mbSize, start, cells)
    }

    /** kmalloc_add_arena for memory at `base`; too small an area is not taken by the caller. */
    constructor (base: nat, arenaSize: nat)
      requires base % 8 == 0 && arenaSize % 8 == 0 && arenaSize >= ARENA_HDR + HDR + 8
      ensures Valid() && start == base + ARENA_HDR && size == arenaSize - ARENA_HDR
      ensures cells == Cell(arenaSize - ARENA_HDR - HDR, true, End)
    {
      start := base + ARENA_HDR;
      size := arenaSize - ARENA_HDR;
      mbSize := map[];
      freeblks := [];
      cells := Cell(arenaSize - ARENA_HDR - HDR, true, End);
      new;
      AddFree(start, size);
    }

    /** merge_right for the element at position `x` of the free list */
    method MergeRight(x: nat)
      requires x < |freeblks|
      modifies this`freeblks, this`mbSize
      ensures (freeblks, mbSize) == MergedAt(old(freeblks), old(mbSize), x)
    {
      if x + 1 == |freeblks| {
        return;
      }
      var mb: nat, next: nat := freeblks[x], freeblks[x + 1];
      if mb + At(mbSize, mb) + HDR == next {
        freeblks := freeblks[..x + 1] + freeblks[x + 2..];
        mbSize := mbSize[mb := At(mbSize, mb) + At(mbSize, next) + HDR];
      }
    }

    /** add_free_memory_block */
    method AddFree(mb: nat, total: nat)
      modifies this`freeblks, this`mbSize
      ensures (freeblks, mbSize) == Added(old(freeblks), old(mbSize), mb, total)
    {
      mbSize := mbSize[mb := total - HDR];
      if freeblks == [] {
        freeblks := [mb];
        assert Inserted([], 0, mb) == [mb];
        return;
      }
      var best, x := -1, 0;
      while x < |freeblks|
        invariant 0 <= x <= |freeblks| && -1 <= best < x
        invariant Slot(freeblks, mb) == if Slot(freeblks[x..], mb) > 0 then x + Slot(freeblks[x..], mb) else best + 1
      {
        assert freeblks[x..][1..] == freeblks[x + 1..];
        if freeblks[x] < mb { best := x; }
        x := x + 1;
      }
      freeblks := freeblks[..best + 1] + [mb] + freeblks[best + 1..];
      MergeRight(best + 1);
      if best >= 0 {
        MergeRight(best);
      }
    }

    /** find_entry: position of the first free block with at least `total` bytes */
    method FindEntry(total: nat) returns (x: nat)
      ensures x <= |freeblks| && (x < |freeblks| ==> At(mbSize, freeblks[x]) >= total)
      ensures forall y :: 0 <= y < x ==> At(mbSize, freeblks[y]) < total
    {
      x := 0;
      while x < |freeblks|
        invariant x <= |freeblks| && forall y :: 0 <= y < x ==> At(mbSize, freeblks[y]) < total
      {
        if At(mbSize, freeblks[x]) >= total {
          return;
        }
        x := x + 1;
      }
    }

    /** The part of try_allocating_in_area after find_entry; `made` is the header written
        by add_free_memory_block, if any. */
    method Take(x: nat, req: nat) returns (mb: nat, made: Option<nat>)
      requires x < |freeblks| && At(mbSize, freeblks[x]) >= req
      modifies this`freeblks, this`mbSize
      ensures mb == old(freeblks[x]) && (freeblks, mbSize) == Taken(old(freeblks), old(mbSize), x, req)
      ensures made == if At(old(mbSize), mb) - req > HDR then Some(mb + req + HDR) else None
    {
      mb, made := freeblks[x], None;
      freeblks := freeblks[..x] + freeblks[x + 1..];
      var left := At(mbSize, mb) - req;
      if left > HDR {
        mbSize := mbSize[mb := 0 - req];
        made := Some(mb + req + HDR);
        AddFree(mb + req + HDR, left);
      } else {
        mbSize := mbSize[mb := 0 - At(mbSize, mb)];
      }
    }

    /** try_allocating_in_area */
    method TryAlloc(req: nat) returns (r: Option<nat>, made: Option<nat>)
      requires Valid() && req > 0 && req % 8 == 0
      modifies this`freeblks, this`mbSize, this`cells
      ensures Valid()
      ensures !Fits(old(cells), req + HDR) ==> r == None && cells == old(cells)
      ensures Fits(old(cells), req + HDR) ==>
                && cells == Allocate(old(cells), req)
                && var (mb, n) := FirstFit(start, old(cells), req + HDR);
                   r == Some(mb) && made == if n - req > HDR then Some(mb + req + HDR) else None
    {
      var x := FindEntry(req + HDR);
      FindAgrees(mbSize, start, cells, req + HDR, x);
      if x == |freeblks| {
        return None, None;
      }
      AllocateGood(cells, req);
      TakenAllocates(mbSize, start, cells, req);
      var mb;
      mb, made := Take(x, req);
      cells := Allocate(cells, req);
      r := Some(mb);
    }

    /** kfree once the block and its arena are found */
    method FreeBlock(mb: nat)
      requires Valid() && InUse(start, cells, mb)
      modifies this`freeblks, this`mbSize, this`cells
      ensures Valid() && cells == Release(start, old(cells), mb)
    {
      AddedReleases(mbSize, start, cells, mb);
      ReleaseGood(start, cells, mb);
      HeaderAt(mbSize, start, cells, mb);
      ghost var r := Added(freeblks, mbSize, mb, SizeAt(start, cells, mb) + HDR);
      AddFree(mb, HDR - At(mbSize, mb));
      assert freeblks == r.0 && mbSize == r.1;
      cells := Release(start, cells, mb);
    }

    /** The walk of kmalloc_dump: by mb_next from the first block to the end of the arena */
    method Walk() returns (blocks: seq<nat>, end: nat)
      requires Valid()
      ensures blocks == Addrs(start, cells) && end == start + size
    {
      blocks, end := [], start;
      ghost var rest := cells;
      while end < start + size
        invariant end + Span(rest) == start + size && Headers(mbSize, end, rest)
        invariant Addrs(start, cells) == blocks + Addrs(end, rest)
        decreases rest
      {
        WalkStep(mbSize, end, rest, blocks);
        blocks := blocks + [end];
        var n := At(mbSize, end);
        end := end + (if n < 0 then -n else n) + HDR;
        rest := rest.rest;
      }
    }
  }

  /** One step of the walk. */
  lemma WalkStep(m: map<nat, int>, at: nat, rest: Cells, blocks: seq<nat>)
    requires Headers(m, at, rest) && rest.Cell?
    ensures At(m, at) == Signed(rest.size, rest.free) && Headers(m, at + rest.size + HDR, rest.rest)
    ensures blocks + Addrs(at, rest) == (blocks + [at]) + Addrs(at + rest.size + HDR, rest.rest)
  {
  }

  lemma {:induction false} HeaderAt(m: map<nat, int>, base: nat, cs: Cells, mb: nat)
    requires Headers(m, base, cs) && InUse(base, cs, mb)
    ensures At(m, mb) == 0 - SizeAt(base, cs, mb)
    decreases cs
  {
    if base != mb { HeaderAt(m, base + cs.size + HDR, cs.rest, mb); }
  }
}
