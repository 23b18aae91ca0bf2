/** Runs of kmalloc, kmemalign and kfree over a pool of any number of arenas. */
module HeapRuns {
  import opened Basics
  import opened HeapBlocks
  import opened HeapPool
  import Dyadic

  // ---------------------------------------------------------- blocks in use

  predicate IsLive(v: View, i: nat, g: Grant) {
    g.arena == i && g.ptr >= HDR && (g.ptr - HDR, g.size) in Live(v.start, v.cells)
  }

  predicate LiveIn(vs: seq<View>, g: Grant) { g.arena < |vs| && IsLive(vs[g.arena], g.arena, g) }

  /** The blocks in use are those of `from` and the further ones `more`. */
  ghost predicate LiveIs(vs: seq<View>, from: seq<View>, more: set<Grant>) {
    && (forall g {:trigger LiveIn(vs, g)} :: LiveIn(vs, g) <==> LiveIn(from, g) || g in more)
    && (forall g {:trigger LiveIn(from, g)} :: g in more ==> !LiveIn(from, g))
  }

  /** The arenas lie where they lay and are as large. */
  ghost predicate SameAreas(vs: seq<View>, vs': seq<View>) {
    && |vs| == |vs'|
    && forall i :: 0 <= i < |vs| ==> vs[i].start == vs'[i].start && Span(vs[i].cells) == Span(vs'[i].cells)
  }

  ghost predicate AllGood(vs: seq<View>) { forall i :: 0 <= i < |vs| ==> Good(vs[i].cells) }

  lemma PoolIsGood(vs: seq<View>, half: map<nat, nat>, grants: map<nat, Grant>)
    requires PoolOk(vs, half, grants)
    ensures AllGood(vs)
  {
    forall i | 0 <= i < |vs| ensures Good(vs[i].cells) { assert ViewOk(vs[i], half); }
  }

  /** Canonical form: the blocks in use determine all arenas of a pool, free lists included. */
  lemma PoolDetermined(vs: seq<View>, vs': seq<View>)
    requires AllGood(vs) && AllGood(vs') && SameAreas(vs, vs') && LiveIs(vs', vs, {})
    ensures vs' == vs
  {
    forall i | 0 <= i < |vs| ensures vs'[i] == vs[i] {
      LiveSame(vs, vs', i);
      LiveDetermines(vs[i].start, vs[i].cells, vs'[i].cells);
    }
  }

  lemma LiveSame(vs: seq<View>, vs': seq<View>, i: nat)
    requires SameAreas(vs, vs') && LiveIs(vs', vs, {}) && i < |vs|
    ensures Live(vs[i].start, vs[i].cells) == Live(vs'[i].start, vs'[i].cells)
  {
    forall x ensures x in Live(vs[i].start, vs[i].cells) <==> x in Live(vs'[i].start, vs'[i].cells) {
      var g := Grant(x.0 + HDR, x.1, i);
      assert LiveIn(vs', g) <==> LiveIn(vs, g);
    }
  }

  // ----------------------------------------------------------------- steps

  /** First fit adds the block that it hands out and nothing else. */
  lemma TurnLive(vs: seq<View>, vs': seq<View>, half: map<nat, nat>, half': map<nat, nat>, req: nat, g: Grant)
    requires AllGood(vs) && g.arena < |vs| && req > 0 && req % 8 == 0
    requires Turn(vs, vs', half, half', g.arena, req, Some(g.ptr)) && LiveIn(vs', g)
    ensures LiveIs(vs', vs, {g}) && SameAreas(vs, vs')
  {
    AllocateGood(vs[g.arena].cells, req);
    AllocatedIn(vs[g.arena], g.arena, req, g, g);
    forall h ensures LiveIn(vs', h) <==> LiveIn(vs, h) || h in {g} {
      if h.arena == g.arena { AllocatedIn(vs[g.arena], g.arena, req, g, h); }
    }
  }

  lemma AllocatedIn(v: View, i: nat, req: nat, g: Grant, h: Grant)
    requires Fits(v.cells, req + HDR) && g.ptr == FirstFit(v.start, v.cells, req + HDR).0 + HDR
    requires IsLive(Served(v, req), i, g) && h.arena == i
    ensures (IsLive(Served(v, req), i, h) <==> IsLive(v, i, h) || h == g) && !IsLive(v, i, g)
  {
    AllocateLive(v.start, v.cells, req);
    FirstFitApart(v.start, v.cells, req + HDR);
  }

  /** The blocks in use afterwards are those before without `g`. */
  ghost predicate LiveBut(vs: seq<View>, vs': seq<View>, g: Grant) {
    forall h {:trigger LiveIn(vs', h)} :: LiveIn(vs', h) <==> LiveIn(vs, h) && h != g
  }

  lemma ReleasedIn(v: View, i: nat, g: Grant, h: Grant)
    requires IsLive(v, i, g) && InUse(v.start, v.cells, g.ptr - HDR) && h.arena == i
    ensures IsLive(View(v.start, Release(v.start, v.cells, g.ptr - HDR)), i, h) <==> IsLive(v, i, h) && h != g
  {
    LiveInUse(v.start, v.cells, g.ptr - HDR, g.size);
    ReleaseLive(v.start, v.cells, g.ptr - HDR);
  }

  lemma FreedLive(vs: seq<View>, vs': seq<View>, g: Grant, r: Status)
    requires AllGood(vs) && LiveIn(vs, g) && Freed(vs, vs', g.arena, g.ptr - HDR, r)
    ensures r == Done && SameAreas(vs, vs') && LiveBut(vs, vs', g)
  {
    var v, mb := vs[g.arena], g.ptr - HDR;
    LiveInUse(v.start, v.cells, mb, g.size);
    ReleaseGood(v.start, v.cells, mb);
    forall h ensures LiveIn(vs', h) <==> LiveIn(vs, h) && h != g {
      if h.arena == g.arena { ReleasedIn(v, g.arena, g, h); }
    }
  }

  lemma LiveAdd(vs0: seq<View>, vs: seq<View>, vs': seq<View>, more: set<Grant>, g: Grant)
    requires LiveIs(vs, vs0, more) && LiveIs(vs', vs, {g})
    ensures LiveIs(vs', vs0, more + {g}) && g !in more
  {
    assert !LiveIn(vs, g);
  }

  lemma LiveDrop(vs0: seq<View>, vs: seq<View>, vs': seq<View>, more: set<Grant>, g: Grant)
    requires LiveIs(vs, vs0, more) && g in more && LiveBut(vs, vs', g)
    ensures LiveIs(vs', vs0, more - {g})
  {
  }

  // ------------------------------------------------------------------ runs

  /** A program's calls: kmalloc, kmemalign for an alignment of 2^e, and kfree of the pointer that call
      number `k` returned, if the program still has it. */
  datatype Call = Take(size: nat) | TakeAligned(size: nat, e: nat) | Give(k: nat)

  /** Sizes that do not wrap in 32 bits, and alignments up to 65536 */
  predicate CallOk(c: Call) {
    match c
    case Take(size) => 0 < size && size + 23 < WORD
    case TakeAligned(size, e) => e <= 16 && size + Dyadic.Pow2(e) + TAG + 23 < WORD
    case Give(_) => true
  }

  /** The pointers `held`, by call, lead kfree to the blocks `blocks`, one block for each. */
  ghost predicate Leads(grants: map<nat, Grant>, held: map<nat, nat>, blocks: map<nat, Grant>) {
    && held.Keys == blocks.Keys
    && (forall k :: k in held ==> held[k] == blocks[k].ptr || (held[k] in grants && grants[held[k]] == blocks[k]))
    && (forall j, k :: j in blocks && k in blocks && j != k ==> blocks[j] != blocks[k])
  }

  ghost predicate RunOk(vs0: seq<View>, vs: seq<View>, grants: map<nat, Grant>, held: map<nat, nat>,
          blocks: map<nat, Grant>) {
    SameAreas(vs0, vs) && LiveIs(vs, vs0, blocks.Values) && Leads(grants, held, blocks)
  }

  lemma ValuesAdd(blocks: map<nat, Grant>, k: nat, g: Grant)
    requires k !in blocks
    ensures blocks[k := g].Values == blocks.Values + {g}
  {
    var b := blocks[k := g];
    forall x ensures x in b.Values <==> x in blocks.Values + {g} {
      if x in blocks.Values {
        var j :| j in blocks && blocks[j] == x;
        assert j in b && b[j] == x;
      }
      assert b[k] == g;
    }
  }

  lemma ValuesDrop(blocks: map<nat, Grant>, k: nat)
    requires k in blocks && forall j :: j in blocks && j != k ==> blocks[j] != blocks[k]
    ensures (blocks - {k}).Values == blocks.Values - {blocks[k]}
  {
    var b := blocks - {k};
    forall x ensures x in b.Values <==> x in blocks.Values - {blocks[k]} {
      if x in blocks.Values && x != blocks[k] {
        var j :| j in blocks && blocks[j] == x;
        assert j in b && b[j] == x;
      }
    }
  }

  lemma RunTake(vs0: seq<View>, vs: seq<View>, vs': seq<View>, grants: map<nat, Grant>, held: map<nat, nat>,
          blocks: map<nat, Grant>,
                k: nat, p: nat, g: Grant, grants': map<nat, Grant>)
    requires RunOk(vs0, vs, grants, held, blocks) && k !in held && LiveIs(vs', vs, {g}) && SameAreas(vs, vs')
    requires p == g.ptr || (p in grants' && grants'[p] == g)
    requires forall j :: j in held && held[j] in grants ==> held[j] in grants' && grants'[held[j]] == grants[held[j]]
    ensures RunOk(vs0, vs', grants', held[k := p], blocks[k := g])
  {
    LiveAdd(vs0, vs, vs', blocks.Values, g);
    ValuesAdd(blocks, k, g);
    forall j | j in blocks ensures blocks[j] != g { assert blocks[j] in blocks.Values; }
  }

  lemma RunGive(vs0: seq<View>, vs: seq<View>, vs': seq<View>, grants: map<nat, Grant>, held: map<nat, nat>,
          blocks: map<nat, Grant>, k: nat)
    requires RunOk(vs0, vs, grants, held, blocks) && k in held && SameAreas(vs, vs')
    requires LiveBut(vs, vs', blocks[k])
    requires forall j :: j in blocks && j != k ==> blocks[j].ptr != blocks[k].ptr
    ensures RunOk(vs0, vs', Without(grants, blocks[k].ptr), held - {k}, blocks - {k})
  {
    assert blocks[k] in blocks.Values;
    LiveDrop(vs0, vs, vs', blocks.Values, blocks[k]);
    ValuesDrop(blocks, k);
  }

  /** Two blocks in use do not overlap. */
  lemma BlocksApart(vs: seq<View>, half: map<nat, nat>, grants: map<nat, Grant>, g: Grant, h: Grant)
    requires PoolOk(vs, half, grants) && LiveIn(vs, g) && LiveIn(vs, h) && g != h
    ensures g.ptr + g.size <= h.ptr - HDR || h.ptr + h.size <= g.ptr - HDR
  {
    if g.arena == h.arena {
      LiveDisjoint(vs[g.arena].start, vs[g.arena].cells, (g.ptr - HDR, g.size), (h.ptr - HDR, h.size));
    } else {
      assert Apart(vs[g.arena], vs[h.arena]);
      LiveWithin(vs[g.arena].start, vs[g.arena].cells);
      LiveWithin(vs[h.arena].start, vs[h.arena].cells);
    }
  }

  /** A new aligned pointer is no earlier one. */
  lemma NewPointer(vs: seq<View>, half: map<nat, nat>, grants: map<nat, Grant>, vs': seq<View>, half': map<nat, nat>,
          grants': map<nat, Grant>, p: nat, g: Grant)
    requires PoolOk(vs, half, grants) && PoolOk(vs', half', grants') && LiveIs(vs', vs, {g})
    requires g.ptr <= p <= g.ptr + g.size
    ensures p !in grants
  {
    if p in grants {
      var h := grants[p];
      assert GrantOk(vs, half, p, grants[p]);
      assert LiveIn(vs, h) && LiveIn(vs', h) && LiveIn(vs', g);
      BlocksApart(vs', half', grants', g, h);
    }
  }

  lemma HeldBlock(vs0: seq<View>, vs: seq<View>, half: map<nat, nat>, grants: map<nat, Grant>, held: map<nat, nat>,
          blocks: map<nat, Grant>, k: nat)
    requires PoolOk(vs, half, grants) && RunOk(vs0, vs, grants, held, blocks) && k in held
    ensures LiveIn(vs, blocks[k]) && Target(half, held[k]) == blocks[k].ptr
    ensures blocks[k].ptr - HDR in Starts(vs[blocks[k].arena].start, vs[blocks[k].arena].cells)
    ensures forall j :: j in blocks && j != k ==> blocks[j].ptr != blocks[k].ptr
  {
    var g := blocks[k];
    assert g in blocks.Values && LiveIn(vs, g);
    StillRecovers(vs, half, grants, held[k], g);
    LiveStarts(vs[g.arena].start, vs[g.arena].cells);
    forall j | j in blocks && j != k ensures blocks[j].ptr != g.ptr {
      assert blocks[j] in blocks.Values && LiveIn(vs, blocks[j]);
      BlocksApart(vs, half, grants, g, blocks[j]);
    }
  }

  /** One kmalloc of a run */
  method DoTake(p: Pool, size: nat, nowait: bool, k: nat, held: map<nat, nat>, ghost vs0: seq<View>,
          ghost blocks: map<nat, Grant>)
    returns (held': map<nat, nat>, ghost blocks': map<nat, Grant>)
    requires p.Valid() && RunOk(vs0, p.views, p.grants, held, blocks) && k !in held && CallOk(Take(size))
    modifies p`half, p`views, p`grants, p.arenas
    ensures p.Valid() && RunOk(vs0, p.views, p.grants, held', blocks') && held'.Keys <= held.Keys + {k}
  {
    held', blocks' := held, blocks;
    ghost var vs, half := p.views, p.half;
    var r, g := p.TakePadded(size, nowait);
    if r.Ptr? {
      PoolIsGood(vs, half, p.grants);
      TurnLive(vs, p.views, half, p.half, Align8(size), g);
      RunTake(vs0, vs, p.views, p.grants, held, blocks, k, r.p, g, p.grants);
      held', blocks' := held[k := r.p], blocks[k := g];
    }
  }

  /** One kmemalign */
  method DoTakeAligned(p: Pool, size: nat, e: nat, nowait: bool, k: nat, held: map<nat, nat>, ghost vs0: seq<View>,
          ghost blocks: map<nat, Grant>)
    returns (held': map<nat, nat>, ghost blocks': map<nat, Grant>)
    requires p.Valid() && RunOk(vs0, p.views, p.grants, held, blocks) && k !in held && CallOk(TakeAligned(size, e))
    modifies p`half, p`views, p`grants, p.arenas
    ensures p.Valid() && RunOk(vs0, p.views, p.grants, held', blocks') && held'.Keys <= held.Keys + {k}
  {
    held', blocks' := held, blocks;
    ghost var vs, half, grants := p.views, p.half, p.grants;
    var al := Dyadic.Pow2(e);
    var r, g := p.MemAlign(size, al, nowait, e);
    if r.Ptr? {
      PoolIsGood(vs, half, grants);
      ghost var req := Align8(size + al + TAG);
      ghost var h :| Turn(vs, p.views, half, h, g.arena, req, Some(g.ptr)) && p.half == AlignedHalf(h, g.ptr, e);
      TurnLive(vs, p.views, half, h, req, g);
      NewPointer(vs, half, grants, p.views, p.half, p.grants, r.p, g);
      SmallAlignment(e);
      RunTake(vs0, vs, p.views, grants, held, blocks, k, r.p, g, p.grants);
      held', blocks' := held[k := r.p], blocks[k := g];
    }
  }

  lemma SmallAlignment(e: nat)
    requires e <= 16
    ensures Dyadic.Pow2(e) <= 0x10000
  {
    Sixteen();
    Dyadic.Pow2Monotone(e, 16);
  }

  /** One kfree */
  method DoGive(p: Pool, k: nat, held: map<nat, nat>, ghost vs0: seq<View>, ghost blocks: map<nat, Grant>)
    returns (held': map<nat, nat>, ghost blocks': map<nat, Grant>)
    requires p.Valid() && RunOk(vs0, p.views, p.grants, held, blocks) && k in held
    modifies p`half, p`views, p`grants, p.arenas
    ensures p.Valid() && RunOk(vs0, p.views, p.grants, held', blocks') && held'.Keys == held.Keys - {k}
  {
    ghost var vs, grants, g := p.views, p.grants, blocks[k];
    HeldBlock(vs0, vs, p.half, grants, held, blocks, k);
    PoolIsGood(vs, p.half, grants);
    var r := p.Free(held[k], g.arena);
    FreedLive(vs, p.views, g, r);
    RunGive(vs0, vs, p.views, grants, held, blocks, k);
    held', blocks' := held - {k}, blocks - {k};
  }

  /** Any run of calls, from any pool: the blocks in use are those of the start and one for each pointer
      still held, each of which leads kfree to its block. So a run that has given back all its pointers,
      in whatever order, leaves every arena and free list as it was. */
  method RunCalls(p: Pool, calls: seq<Call>, nowait: bool) returns (held: map<nat, nat>, ghost blocks: map<nat, Grant>)
    requires p.Valid() && forall i :: 0 <= i < |calls| ==> CallOk(calls[i])
    modifies p`half, p`views, p`grants, p.arenas
    ensures p.Valid() && RunOk(old(p.views), p.views, p.grants, held, blocks)
    ensures held == map[] ==> p.views == old(p.views)
  {
    ghost var vs0 := p.views;
    PoolIsGood(p.views, p.half, p.grants);
    held, blocks := map[], map[];
    assert blocks.Values == {};
    var i := 0;
    while i < |calls|
      invariant 0 <= i <= |calls| && p.Valid() && p.arenas == old(p.arenas)
      invariant RunOk(vs0, p.views, p.grants, held, blocks) && forall k :: k in held ==> k < i
    {
      match calls[i] {
        case Take(size) => held, blocks := DoTake(p, size, nowait, i, held, vs0, blocks);
        case TakeAligned(size, e) => held, blocks := DoTakeAligned(p, size, e, nowait, i, held, vs0, blocks);
        case Give(k) =>
          if k in held {
            held, blocks := DoGive(p, k, held, vs0, blocks);
          }
      }
      i := i + 1;
    }
    if held == map[] {
      assert blocks == map[] && blocks.Values == {};
      PoolIsGood(p.views, p.half, p.grants);
      PoolDetermined(vs0, p.views);
    }
  }
}
