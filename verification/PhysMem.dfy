/** The segment of physmem.c: page descriptors and free queues updated in place.
    Each method is proved against the corresponding step of `BuddyBlocks`. */
module PhysMem {
  import opened Basics
  import opened Dyadic
  import opened BuddyBlocks
  import opened SegInit

  datatype Page = Page(size: nat, reserved: bool, handedOut: bool, managed: bool)

  datatype Status = Done | Panic

  /** A page descriptor agrees with what its frame belongs to. PM_MANAGED marks
      exactly the heads of queued blocks; a block's size is stored at its head, the
      size in other descriptors is stale. */
  ghost predicate PageOk(o: Owner, f: nat, pg: Page) {
    && pg.reserved == o.Reserved?
    && pg.handedOut == (o.Block? && !o.free)
    && pg.managed == (o.Block? && o.free && o.start == f)
    && (o.Block? && o.start == f ==> pg.size == Pow2(o.order))
  }

  ghost predicate Coupled(s: Seg, pg: seq<Page>) {
    && |pg| == |s.owner|
    && forall f {:trigger PageOk(s.owner[f], f, pg[f])} :: 0 <= f < |pg| ==> PageOk(s.owner[f], f, pg[f])
  }

  /** While a block is being freed its own descriptors are in flux. */
  ghost predicate CoupledAround(s: Seg, pg: seq<Page>, p: nat, i: nat) {
    && |pg| == |s.owner| && p < |pg| && pg[p].size == Pow2(i)
    && (forall f :: 0 <= f < |pg| && !(p <= f < p + Pow2(i)) ==> PageOk(s.owner[f], f, pg[f]))
    && (forall f :: p <= f < p + Pow2(i) && f < |pg| ==> !pg[f].managed && !pg[f].reserved)
  }

  lemma CoupledIsAround(s: Seg, pg: seq<Page>, p: nat, i: nat)
    requires Tiled(s) && Coupled(s, pg) && IsBlock(s, p, i, false)
    ensures CoupledAround(s, pg, p, i)
  {
    assert FrameOk(s, p);
    forall f | 0 <= f < |pg| ensures PageOk(s.owner[f], f, pg[f]) {}
  }

  ghost predicate Queued(q: seq<seq<nat>>, f: nat) {
    exists i :: 0 <= i < |q| && f in q[i]
  }

  lemma QueuedPush(q: seq<seq<nat>>, i: nat, p: nat)
    requires i < |q|
    ensures forall f: nat :: Queued(q[i := [p] + q[i]], f) <==> f == p || Queued(q, f)
  {
    var r := q[i := [p] + q[i]];
    forall f: nat ensures Queued(r, f) <==> f == p || Queued(q, f) {
      if x :| 0 <= x < |q| && f in q[x] { assert f in r[x]; }
      assert p in r[i];
    }
  }

  class Segment {
    const k: nat
    const base: nat
    const pages: array<Page>
    var freeq: seq<seq<nat>>
    ghost var owner: seq<Owner>

    ghost function View(): Seg
      reads this
    {
      Seg(k, freeq, owner)
    }

    ghost predicate Valid()
      reads this, pages
    {
      Inv(View()) && Coupled(View(), pages[..])
    }

    /** pm_seg_init for a segment whose tables it makes sound. */
    constructor (npages: nat, start: nat, ghost order: nat)
      requires order < QUEUES && npages == Pow2(order)
      ensures Valid() && fresh(pages) && View() == Initial(order) && pages.Length == npages && base == start
    {
      var pg, q := InitTables(npages);
      k := Log2(npages);
      base := start;
      pages := pg;
      freeq := q;
      owner := Fresh(npages, order);
      new;
      Log2OfPow2(order);
      FillPower(QUEUES - 1, order);
      InitialInv(order);
      assert forall f: nat :: Queued(freeq, f) <==> f == 0 by { assert 0 in freeq[order]; }
    }

    /** The two loops of pm_seg_init, for any number of pages. */
    static method InitTables(npages: nat) returns (pg: array<Page>, q: seq<seq<nat>>)
      requires npages > 0
      ensures fresh(pg) && pg.Length == npages && q == Queues(npages)
      ensures forall f :: 0 <= f < npages ==>
                pg[f] == Page(Pow2(InitOrder(npages, f)), false, false, Queued(q, f))
    {
      pg := SizedPages(npages);
      q := QueuePages(pg, npages);
    }

    /** The first loop */
    static method SizedPages(npages: nat) returns (pg: array<Page>)
      requires npages > 0
      ensures fresh(pg) && pg.Length == npages
      ensures forall g :: 0 <= g < npages ==> pg[g] == Page(Pow2(InitOrder(npages, g)), false, false, false)
    {
      pg := new Page[npages](_ => Page(0, false, false, false));
      var max := Min(QUEUES, Log2(npages) + 1) - 1;
      var f := 0;
      while f < npages
        invariant 0 <= f <= npages
        invariant forall g :: 0 <= g < f ==> pg[g] == Page(Pow2(InitOrder(npages, g)), false, false, false)
      {
        pg[f] := Page(Pow2(if f == 0 then max else Min(max, Log2(f))), false, false, false);
        f := f + 1;
      }
    }

    /** The second loop */
    static method QueuePages(pg: array<Page>, npages: nat) returns (q: seq<seq<nat>>)
      requires npages > 0 && pg.Length == npages
      requires forall g :: 0 <= g < npages ==> pg[g] == Page(Pow2(InitOrder(npages, g)), false, false, false)
      modifies pg
      ensures q == Queues(npages)
      ensures forall g :: 0 <= g < npages ==>
                pg[g] == Page(Pow2(InitOrder(npages, g)), false, false, Queued(q, g))
    {
      q := EmptyQueues;
      var curr: nat, toAdd: nat := 0, npages;
      var i := QUEUES;
      while i > 0
        invariant 0 <= i <= QUEUES && |q| == QUEUES && curr + toAdd == npages
        invariant i > 0 ==> Fill(q, i - 1, curr, toAdd) == Queues(npages)
        invariant i == 0 ==> q == Queues(npages)
        invariant forall g :: 0 <= g < npages ==>
                    pg[g] == Page(Pow2(InitOrder(npages, g)), false, false, Queued(q, g))
      {
        i := i - 1;
        var size := Pow2(i);
        while toAdd >= size
          invariant |q| == QUEUES && curr + toAdd == npages
          invariant Fill(q, i, curr, toAdd) == Queues(npages)
          invariant forall g :: 0 <= g < npages ==>
                      pg[g] == Page(Pow2(InitOrder(npages, g)), false, false, Queued(q, g))
        {
          ghost var q0 := q;
          q := q[i := [curr] + q[i]];
          QueuedPush(q0, i, curr);
          pg[curr] := pg[curr].(managed := true);
          toAdd := toAdd - size;
          curr := curr + size;
        }
      }
    }

    /** pm_hash of a one-segment system */
    method Hash() returns (h: nat)
      ensures h == HashQueues(5381, freeq, base)
    {
      h := 5381;
      var i := 0;
      while i < |freeq|
        invariant 0 <= i <= |freeq|
        invariant HashQueues(h, freeq[i..], base) == HashQueues(5381, freeq, base)
      {
        var q, x := freeq[i], 0;
        ghost var h0 := h;
        while x < |q|
          invariant 0 <= x <= |q|
          invariant HashQueue(h, q[x..], base) == HashQueue(h0, q, base)
        {
          h := (h * 33 + base + PAGESIZE * q[x]) % WORD;
          x := x + 1;
        }
        i := i + 1;
      }
    }

    /** An allocation undone at once leaves the allocator as it was, hash included. */
    method AllocThenFree(npages: nat, ghost j: nat) returns (before: nat, after: nat)
      requires Valid() && j < QUEUES && npages == Pow2(j)
      modifies this`freeq, this`owner, pages
      ensures Valid() && View() == old(View()) && before == after
    {
      ghost var s := View();
      before := Hash();
      var r := AllocFromSeg(npages, j);
      if r.Some? {
        FreeUndoesAlloc(s, j);
        var status := FreeFromSeg(r.value);
      }
      after := Hash();
    }

    /** pm_split_page */
    method SplitPage(p: nat, ghost i: nat)
      requires Tiled(View()) && Coupled(View(), pages[..])
      requires IsBlock(View(), p, i, true) && i > 0
      modifies this`freeq, this`owner, pages
      ensures i < QUEUES
      ensures View() == SplitFree(old(View()), p, i)
      ensures Tiled(View()) && Coupled(View(), pages[..])
    {
      ghost var s := View();
      assert FrameOk(s, p);
      Halves(s, p, i, true);
      Log2OfPow2(i);
      Log2OfPow2(i - 1);
      SplitFreeKeeps(s, p, i);
      assert PageOk(s.owner[p], p, pages[..][p]);
      assert PageOk(s.owner[p + Pow2(i - 1)], p + Pow2(i - 1), pages[..][p + Pow2(i - 1)]);
      var size := pages[p].size / 2;
      var buddy := p + size;
      assert !pages[buddy].handedOut;
      var q := Log2(pages[p].size);
      freeq := freeq[q := Remove(freeq[q], p)];
      pages[p] := pages[p].(size := size);
      pages[buddy] := pages[buddy].(size := size);
      q := Log2(size);
      freeq := freeq[q := [p] + freeq[q]];
      freeq := freeq[q := [buddy] + freeq[q]];
      pages[buddy] := pages[buddy].(managed := true);
      owner := SplitFree(s, p, i).owner;
      assert freeq == SplitFree(s, p, i).freeq;
      forall f | 0 <= f < pages.Length
        ensures PageOk(owner[f], f, pages[..][f])
      {
        assert PageOk(s.owner[f], f, old(pages[..])[f]);
      }
    }

    /** pm_alloc_from_seg */
    method AllocFromSeg(npages: nat, ghost j: nat) returns (r: Option<nat>)
      requires Valid() && j < QUEUES && npages == Pow2(j)
      modifies this`freeq, this`owner, pages
      ensures Valid()
      ensures Alloc(old(View()), j).None? ==> r == None && View() == old(View())
      ensures Alloc(old(View()), j).Some? ==>
                r == Some(Alloc(old(View()), j).value.1) && View() == Alloc(old(View()), j).value.0
      ensures r == None <==> forall p: nat :: p < |old(owner)| ==> !AlignedRun(old(View()), p, j)
      ensures r.Some? ==> BestFit(old(View()), j, r.value)
    {
      ghost var s := View();
      AllocComplete(s, j);
      if Alloc(s, j).Some? { AllocBestFit(s, j); }
      Log2OfPow2(j);
      var want := Log2(npages);
      var i := want;
      while i < QUEUES && freeq[i] == []
        invariant j <= i <= QUEUES
        invariant FirstQueue(freeq, j) == FirstQueue(freeq, i)
      {
        i := i + 1;
      }
      if i == QUEUES {
        return None;
      }
      ghost var hand := Take(s, freeq[i][0], i);
      ReleaseUndoesTake(s, i);
      CarveKeeps(hand, freeq[i][0], i, want);
      SplitDown(i, want, hand);
      var page := freeq[want][0];
      ReleaseKeeps(Alloc(s, j).value.0, page, want);
      TakeUndoesRelease(Alloc(s, j).value.0, page, want);
      TakeFirst(page, want);
      return Some(page);
    }

    /** The loop of pm_alloc_from_seg that halves the first block of queue `top` down to
        queue `want`; `hand` is the state with that block taken out. */
    method SplitDown(top: nat, want: nat, ghost hand: Seg)
      requires want <= top < QUEUES && |freeq| == QUEUES && freeq[top] != []
      requires Inv(hand) && IsBlock(hand, freeq[top][0], top, false)
      requires View() == Release(hand, freeq[top][0], top) && Coupled(View(), pages[..])
      modifies this`freeq, this`owner, pages
      ensures |freeq| == QUEUES && freeq[want] != []
      ensures Coupled(View(), pages[..])
      ensures var (t, q) := Carve(hand, old(freeq[top][0]), top, want);
              freeq[want][0] == q && View() == Release(t, q, want)
    {
      var i := top;
      ghost var h, p := hand, freeq[top][0];
      ghost var goal := Carve(h, p, i, want);
      while i != want
        invariant want <= i < QUEUES && |freeq| == QUEUES && freeq[i] != [] && freeq[i][0] == p
        invariant Inv(h) && IsBlock(h, p, i, false) && View() == Release(h, p, i) && Coupled(View(), pages[..])
        invariant Carve(h, p, i, want) == goal
      {
        h, p := SplitHead(i, want, h, p);
        i := i - 1;
      }
    }

    /** One turn of that loop. */
    method SplitHead(i: nat, ghost want: nat, ghost h: Seg, ghost p: nat) returns (ghost h': Seg, ghost p': nat)
      requires want < i < QUEUES && |freeq| == QUEUES && freeq[i] != [] && freeq[i][0] == p
      requires Inv(h) && IsBlock(h, p, i, false) && View() == Release(h, p, i) && Coupled(View(), pages[..])
      modifies this`freeq, this`owner, pages
      ensures i < |h.freeq| == |h'.freeq| && Carve(h, p, i, want) == Carve(h', p', i - 1, want)
      ensures |freeq| == QUEUES && freeq[i - 1] != [] && freeq[i - 1][0] == p'
      ensures View() == Release(h', p', i - 1) && Inv(h') && IsBlock(h', p', i - 1, false)
      ensures Coupled(View(), pages[..])
    {
      h', p' := HandAfterSplit(h, p, i, want);
      ReleaseKeeps(h, p, i);
      SplitPage(freeq[i][0], i);
    }

    /** Unlink the first block of a queue and flag its frames. */
    method TakeFirst(page: nat, i: nat)
      requires Tiled(View()) && Coupled(View(), pages[..])
      requires i < QUEUES && freeq[i] != [] && freeq[i][0] == page
      modifies this`freeq, this`owner, pages
      ensures View() == Take(old(View()), page, i)
      ensures Coupled(View(), pages[..])
    {
      ghost var s := View();
      assert IsBlock(s, page, i, true) && FrameOk(s, page);
      forall f | page <= f < page + Pow2(i)
        ensures PageOk(Block(page, i, true), f, pages[f])
      {
        assert PageOk(s.owner[f], f, pages[..][f]);
      }
      freeq := freeq[i := Remove(freeq[i], page)];
      pages[page] := pages[page].(managed := false);
      var n, pg := pages[page].size, page;
      while n > 0
        modifies pages
        invariant page <= pg && 0 <= n && pg + n == page + Pow2(i) <= pages.Length
        invariant forall f :: 0 <= f < pages.Length && !(page <= f < page + Pow2(i)) ==> pages[f] == old(pages[f])
        invariant forall f :: page <= f < pg ==> PageOk(Block(page, i, false), f, pages[f])
        invariant forall f ::
                    pg <= f < page + Pow2(i) ==> PageOk(Block(page, i, false), f, pages[f].(handedOut := true))
      {
        pages[pg] := pages[pg].(handedOut := true);
        pg := pg + 1;
        n := n - 1;
      }
      owner := Take(s, page, i).owner;
    }

    /** pm_seg_reserve, in frame numbers */
    method Reserve(a: nat, b: nat)
      requires Valid() && a < b <= pages.Length
      modifies this`freeq, this`owner, pages
      ensures Valid()
      ensures Withdrawn(old(View()), View(), a, b)
    {
      ghost var s := View();
      var i := QUEUES;
      while i > 0
        invariant 0 <= i <= QUEUES
        invariant Reserving(s, View(), a, b) && Coupled(View(), pages[..])
        invariant forall x :: i <= x < QUEUES ==> Swept(freeq[x], x, a, b)
      {
        i := i - 1;
        var x := 0;
        while x < |freeq[i]|
          invariant Reserving(s, View(), a, b) && Coupled(View(), pages[..])
          invariant forall y :: i < y < QUEUES ==> Swept(freeq[y], y, a, b)
          invariant 0 <= x <= |freeq[i]|
          invariant forall y :: 0 <= y < x ==> !Overlaps(freeq[i][y], Pow2(i), a, b)
          decreases |freeq[i]|, |freeq[i]| - x
        {
          var pg := freeq[i][x];
          assert IsBlock(View(), pg, i, true) && PageOk(owner[pg], pg, pages[pg]);
          var size := pages[pg].size;
          RemoveShrinks(freeq[i], pg);
          if pg >= a && pg + size <= b {
            SeizeStep(s, View(), pg, i, a, b);
            SeizeBlock(pg, i);
            x := 0;
          } else if (pg < a && pg + size > a) || (pg < b && pg + size > b) {
            SplitStep(s, View(), pg, i, a, b);
            SplitPage(pg, i);
            x := 0;
          } else {
            x := x + 1;
          }
        }
      }
      SweptAll(s, View(), a, b);
    }

    /** Unlink a free block and flag its frames PM_RESERVED. */
    method SeizeBlock(page: nat, i: nat)
      requires Tiled(View()) && Coupled(View(), pages[..]) && i < QUEUES && IsBlock(View(), page, i, true)
      modifies this`freeq, this`owner, pages
      ensures View() == Seize(old(View()), page, i)
      ensures Coupled(View(), pages[..])
    {
      ghost var s := View();
      assert FrameOk(s, page) && PageOk(owner[page], page, pages[page]);
      freeq := freeq[i := Remove(freeq[i], page)];
      pages[page] := pages[page].(managed := false);
      var n, pg := pages[page].size, page;
      while n > 0
        modifies pages
        invariant page <= pg && 0 <= n && pg + n == page + Pow2(i) <= pages.Length
        invariant forall f :: 0 <= f < pages.Length && !(page <= f < page + Pow2(i)) ==> pages[f] == old(pages[f])
        invariant forall f :: page <= f < pg ==> PageOk(Reserved, f, pages[f])
      {
        pages[pg] := Page(pages[pg].size, true, false, false);
        pg := pg + 1;
        n := n - 1;
      }
      owner := Seize(s, page, i).owner;
    }

    /** pm_find_buddy, for a block that is being freed */
    method FindBuddy(p: nat, ghost i: nat, ghost goal: Seg) returns (b: Option<nat>)
      requires Goal(p, i) == Some(goal)
      ensures b == FreeBuddy(p, i)
    {
      ghost var s := View();
      assert FrameOk(s, p);
      AlignedIsMod(p, i + 1);
      BelowTop(s, p, i);
      BuddyFacts(p, i);
      var size := pages[p].size;
      var buddy := if p % (2 * size) == 0 then p + size else p - size;
      assert buddy == Buddy(p, i);
      if buddy < 0 || buddy >= pages.Length {
        return None;
      }
      assert PageOk(owner[buddy], buddy, pages[buddy]);
      if owner[buddy].Block? && owner[buddy].start == buddy {
        if owner[buddy].order != i && pages[buddy].size == Pow2(i) { Pow2Injective(owner[buddy].order, i); }
      }
      if pages[buddy].size != pages[p].size {
        return None;
      }
      if !pages[buddy].managed {
        return None;
      }
      return Some(buddy);
    }

    /** pm_free_from_seg */
    method FreeFromSeg(page0: nat) returns (r: Status)
      requires Valid() && page0 < pages.Length
      requires AllocatedFrame(View(), page0) ==> Heads(View(), page0)
      modifies this`freeq, this`owner, pages
      ensures Valid()
      ensures r == Panic <==> !old(AllocatedFrame(View(), page0))
      ensures View() == if r == Panic then old(View()) else Free(old(View()), page0)
    {
      var page := page0;
      ghost var s := View();
      assert PageOk(owner[page], page, pages[page]);
      if pages[page].reserved || !pages[page].handedOut {
        return Panic;
      }
      ghost var i := owner[page].order;
      assert FrameOk(s, page);
      CoupledIsAround(s, pages[..], page, i);
      MergeLoop(page, i, MergeUp(s, page, i));
      return Done;
    }

    /** Block `p` of order `i` is in nobody's queue and everything else is in order. */
    ghost predicate InHand(p: nat, i: nat)
      reads this, pages
    {
      && Inv(View()) && IsBlock(View(), p, i, false) && Aligned(p, i)
      && CoupledAround(View(), pages[..], p, i)
    }

    /** What merging the block in hand ends in */
    ghost function Goal(p: nat, i: nat): Option<Seg>
      reads this, pages
    {
      if InHand(p, i) then Some(MergeUp(View(), p, i)) else None
    }

    ghost function FreeBuddy(p: nat, i: nat): Option<nat>
      reads this
    {
      if Aligned(p, i) && IsBlock(View(), Buddy(p, i), i, true) then Some(Buddy(p, i)) else None
    }

    /** The loop of pm_free_from_seg: join with free buddies, then queue the block. */
    method MergeLoop(page0: nat, ghost i0: nat, ghost goal: Seg)
      requires Goal(page0, i0) == Some(goal)
      modifies this`freeq, this`owner, pages
      ensures Valid() && View() == goal
    {
      var page := page0;
      ghost var i := i0;
      var buddy := FindBuddy(page, i, goal);
      while buddy.Some?
        invariant Goal(page, i) == Some(goal) && buddy == FreeBuddy(page, i)
        decreases k - i
      {
        page, buddy := MergeTurn(page, buddy.value, i, goal);
        i := i + 1;
      }
      Settle(page, i, goal);
    }

    /** One turn of the merge loop */
    method MergeTurn(p: nat, b: nat, ghost i: nat, ghost goal: Seg) returns (q: nat, b': Option<nat>)
      requires Goal(p, i) == Some(goal) && FreeBuddy(p, i) == Some(b)
      modifies this`freeq, this`owner, pages
      ensures i < k && Goal(q, i + 1) == Some(goal) && b' == FreeBuddy(q, i + 1)
    {
      MergeHandKeeps(View(), p, i);
      MergeUpStep(View(), p, i);
      q := Absorb(p, b, i);
      b' := FindBuddy(q, i + 1, goal);
    }

    /** The merged block goes to its queue. */
    method Settle(page: nat, ghost i: nat, ghost goal: Seg)
      requires Goal(page, i) == Some(goal) && FreeBuddy(page, i) == None
      modifies this`freeq, this`owner, pages
      ensures Valid() && View() == goal
    {
      ReleaseKeeps(View(), page, i);
      Enqueue(page, i);
    }

    /** The steps of that turn */
    method Absorb(p: nat, b: nat, ghost i: nat) returns (q: nat)
      requires InHand(p, i) && b == Buddy(p, i) && IsBlock(View(), b, i, true)
      modifies this`freeq, this`owner, pages
      ensures q == Parent(p, i) && i < QUEUES && View() == MergeHand(old(View()), p, i)
      ensures CoupledAround(View(), pages[..], q, i + 1)
    {
      ghost var s := View();
      assert FrameOk(s, p) && FrameOk(s, b);
      BuddyFacts(p, i);
      BelowTop(s, p, i);
      Unqueue(b, i);
      q := MergeBuddies(p, b, i);
      MergeFrames(s, p, i);
      MergeFlags(s.owner, MergeHand(s, p, i).owner, old(pages[..]), p, b, q, Pow2(i), i);
      owner := MergeHand(s, p, i).owner;
    }

    /** TAILQ_REMOVE of a free block and the clearing of its PM_MANAGED. */
    method Unqueue(b: nat, ghost i: nat)
      requires |freeq| == QUEUES && i < QUEUES && b < pages.Length && pages[b].size == Pow2(i)
      modifies this`freeq, pages
      ensures freeq == old(freeq)[i := Remove(old(freeq)[i], b)]
      ensures pages[..] == old(pages[..])[b := old(pages[b]).(managed := false)]
    {
      Log2OfPow2(i);
      var q := Log2(pages[b].size);
      freeq := freeq[q := Remove(freeq[q], b)];
      pages[b] := pages[b].(managed := false);
    }

    /** pm_merge_buddies */
    method MergeBuddies(p: nat, b: nat, ghost i: nat) returns (q: nat)
      requires Aligned(p, i) && b == Buddy(p, i) && p < pages.Length && b < pages.Length
      requires pages[p].size == pages[b].size == Pow2(i)
      modifies pages
      ensures q == Parent(p, i)
      ensures q < pages.Length
      ensures pages[..] == old(pages[..])[q := old(pages[q]).(size := Pow2(i + 1))]
    {
      BuddyFacts(p, i);
      var pg1, pg2 := p, b;
      if pg1 > pg2 { pg1, pg2 := pg2, pg1; }
      assert pg1 + pages[pg1].size == pg2;
      pages[pg1] := pages[pg1].(size := pages[pg1].size * 2);
      return pg1;
    }

    /** Queue a freed block and clear PM_ALLOCATED in its frames. */
    method Enqueue(page: nat, ghost i: nat)
      requires Inv(View()) && IsBlock(View(), page, i, false) && CoupledAround(View(), pages[..], page, i)
      modifies this`freeq, this`owner, pages
      ensures i < QUEUES
      ensures View() == Release(old(View()), page, i)
      ensures Coupled(View(), pages[..])
    {
      ghost var s := View();
      assert FrameOk(s, page);
      Log2OfPow2(i);
      var q := Log2(pages[page].size);
      freeq := freeq[q := [page] + freeq[q]];
      pages[page] := pages[page].(managed := true);
      var n, pg := pages[page].size, page;
      while n > 0
        modifies pages
        invariant page <= pg && 0 <= n && pg + n == page + Pow2(i) <= pages.Length
        invariant forall f :: 0 <= f < pages.Length && !(page <= f < page + Pow2(i)) ==> pages[f] == old(pages[f])
        invariant forall f :: page <= f < pg ==> PageOk(Block(page, i, true), f, pages[f])
        invariant forall f ::
                    pg <= f < page + Pow2(i) ==> PageOk(Block(page, i, true), f, pages[f].(handedOut := false))
      {
        pages[pg] := pages[pg].(handedOut := false);
        pg := pg + 1;
        n := n - 1;
      }
      owner := Release(s, page, i).owner;
    }

    /** pm_split_alloc_page */
    method SplitAllocPage(p: nat) returns (buddy: nat)
      requires Valid() && Heads(View(), p) && View().owner[p].order > 0
      modifies this`owner, pages
      ensures Valid()
      ensures View() == SplitAlloc(old(View()), p, old(owner)[p].order)
      ensures buddy < |View().owner| && IsBlock(View(), buddy, old(owner)[p].order - 1, false)
      ensures buddy == p + Pow2(old(owner)[p].order - 1)
    {
      ghost var s, i := View(), owner[p].order;
      assert FrameOk(s, p) && PageOk(owner[p], p, pages[p]);
      Halves(s, p, i, false);
      SplitAllocKeeps(s, p, i);
      var size := pages[p].size / 2;
      buddy := p + size;
      SplitAllocCoupled(s, pages[..], p, i);
      pages[p] := pages[p].(size := size);
      pages[buddy] := pages[buddy].(size := size);
      owner := SplitAlloc(s, p, i).owner;
    }
  }

  lemma {:induction false} RemoveShrinks(q: seq<nat>, p: nat)
    requires p in q
    ensures |Remove(q, p)| == |q| - 1
  {
    if q[0] != p { RemoveShrinks(q[1..], p); }
  }

  lemma MergeFlags(o: seq<Owner>, o': seq<Owner>, pg: seq<Page>, p: nat, b: nat, q: nat, n: nat, i: nat)
    requires |o'| == |o| == |pg| && b < |pg| && q < |pg| && q <= p && p + n <= q + 2 * n <= |pg| && q <= b < q + 2 * n
    requires forall f :: 0 <= f < |pg| && !(p <= f < p + n) ==> PageOk(o[f], f, pg[f])
    requires forall f :: p <= f < p + n ==> !pg[f].managed && !pg[f].reserved
    requires forall f :: q <= f < q + 2 * n && !(p <= f < p + n) ==> o[f] == Block(b, i, true)
    requires forall f :: 0 <= f < |pg| && !(q <= f < q + 2 * n) ==> o'[f] == o[f]
    ensures var pg1 := pg[b := pg[b].(managed := false)]; var pg2 := pg1[q := pg1[q].(size := 2 * n)];
            && (forall f :: 0 <= f < |pg| && !(q <= f < q + 2 * n) ==> PageOk(o'[f], f, pg2[f]))
            && (forall f :: q <= f < q + 2 * n ==> !pg2[f].managed && !pg2[f].reserved)
  {
    var pg1 := pg[b := pg[b].(managed := false)];
    var pg2 := pg1[q := pg1[q].(size := 2 * n)];
    forall f | q <= f < q + 2 * n ensures !pg2[f].managed && !pg2[f].reserved {
      if !(p <= f < p + n) { assert PageOk(o[f], f, pg[f]); }
    }
  }

  lemma SplitAllocCoupled(s: Seg, pg: seq<Page>, p: nat, i: nat)
    requires Inv(s) && IsBlock(s, p, i, false) && i > 0 && Coupled(s, pg)
    ensures p + Pow2(i - 1) < |pg|
    ensures var m := p + Pow2(i - 1);
            Coupled(SplitAlloc(s, p, i), pg[p := pg[p].(size := Pow2(i - 1))][m := pg[m].(size := Pow2(i - 1))])
  {
    assert FrameOk(s, p);
    Halves(s, p, i, false);
    var m := p + Pow2(i - 1);
    var t, pg1 := SplitAlloc(s, p, i), pg[p := pg[p].(size := Pow2(i - 1))][m := pg[m].(size := Pow2(i - 1))];
    forall f | 0 <= f < |pg1| ensures PageOk(t.owner[f], f, pg1[f]) {
      assert PageOk(s.owner[f], f, pg[f]);
    }
  }

  /** pm_hash over one queue. */
  function HashQueue(h: nat, q: seq<nat>, base: nat): nat
    decreases |q|
  {
    if q == [] then h else HashQueue((h * 33 + base + PAGESIZE * q[0]) % WORD, q[1..], base)
  }

  function HashQueues(h: nat, qs: seq<seq<nat>>, base: nat): nat
    decreases |qs|
  {
    if qs == [] then h else HashQueues(HashQueue(h, qs[0], base), qs[1..], base)
  }

  lemma HandAfterSplit(h: Seg, p: nat, i: nat, want: nat) returns (h': Seg, p': nat)
    requires Inv(h) && IsBlock(h, p, i, false) && want < i
    ensures i < |h.freeq| == |h'.freeq| && Carve(h, p, i, want) == Carve(h', p', i - 1, want)
    ensures SplitFree(Release(h, p, i), p, i) == Release(h', p', i - 1)
    ensures SplitFree(Release(h, p, i), p, i).freeq[i - 1][0] == p'
    ensures Inv(h') && IsBlock(h', p', i - 1, false)
  {
    SplitHandKeeps(h, p, i);
    h', p' := SplitHand(h, p, i), p + Pow2(i - 1);
    SplitThenHold(h, p, i);
    CarveStep(h, p, i, want);
  }

  /** The hash of a queue of two blocks, written out */
  lemma HashOfTwo(h: nat, a: nat, b: nat, base: nat)
    ensures HashQueue(h, [a, b], base) == (1089 * h + 34 * base + 4096 * (33 * a + b)) % WORD
  {
    var x := h * 33 + base + PAGESIZE * a;
    assert HashQueue(h, [a, b], base) == HashQueue(x % WORD, [b], base);
    assert HashQueue(x % WORD, [b], base) == ((x % WORD) * 33 + base + PAGESIZE * b) % WORD;
    Times33(x, base + PAGESIZE * b);
  }

  lemma Times33(x: nat, y: nat)
    ensures ((x % WORD) * 33 + y) % WORD == (x * 33 + y) % WORD
  {
    assert x * 33 + y == WORD * (33 * (x / WORD)) + ((x % WORD) * 33 + y);
  }

  /** Splitting a queued block is halving it in hand and queueing both halves. */
  lemma SplitThenHold(h: Seg, p: nat, i: nat)
    requires Inv(h) && IsBlock(h, p, i, false) && i > 0
    ensures i < |h.freeq|
    ensures SplitFree(Release(h, p, i), p, i) == Release(SplitHand(h, p, i), p + Pow2(i - 1), i - 1)
    ensures SplitFree(Release(h, p, i), p, i).freeq[i - 1][0] == p + Pow2(i - 1)
  {
    assert FrameOk(h, p);
    Halves(h, p, i, false);
    var x, y := SplitFree(Release(h, p, i), p, i), Release(SplitHand(h, p, i), p + Pow2(i - 1), i - 1);
    assert Remove([p] + h.freeq[i], p) == h.freeq[i];
    assert x.freeq == y.freeq;
    assert x.owner == y.owner;
  }
}
