/** An arena of malloc.c as a value: the blocks that tile it, in address order. */
module HeapBlocks {

  /** sizeof(mem_block_t): magic, size and two list pointers of 32 bits. */
  const HDR: nat := 16

  /** The blocks from some address to the end of the arena; `size` is a block's payload. */
  datatype Cells = End | Cell(size: nat, free: bool, rest: Cells)

  function Span(cs: Cells): nat {
    match cs
    case End => 0
    case Cell(n, _, rest) => n + HDR + Span(rest)
  }

  predicate HeadFree(cs: Cells) { cs.Cell? && cs.free }

  /** Positive sizes in units of eight bytes, and no two neighbours both free. */
  predicate Good(cs: Cells) {
    cs.Cell? ==> cs.size > 0 && cs.size % 8 == 0 && !(cs.free && HeadFree(cs.rest)) && Good(cs.rest)
  }

  /** Addresses of the free blocks, in order. */
  function FreeAddrs(base: nat, cs: Cells): seq<nat>
    decreases cs
  {
    match cs
    case End => []
    case Cell(n, free, rest) =>
      if free then [base] + FreeAddrs(base + n + HDR, rest) else FreeAddrs(base + n + HDR, rest)
  }

  /** Address and size of the blocks in use. */
  function Live(base: nat, cs: Cells): set<(nat, nat)>
    decreases cs
  {
    match cs
    case End => {}
    case Cell(n, free, rest) =>
      if free then Live(base + n + HDR, rest) else {(base, n)} + Live(base + n + HDR, rest)
  }

  /** Address and size of the free blocks. */
  function Idle(base: nat, cs: Cells): set<(nat, nat)>
    decreases cs
  {
    match cs
    case End => {}
    case Cell(n, free, rest) =>
      if free then {(base, n)} + Idle(base + n + HDR, rest) else Idle(base + n + HDR, rest)
  }

  lemma {:induction false} IdleWithin(base: nat, cs: Cells)
    ensures forall x :: x in Idle(base, cs) ==> base <= x.0
    decreases cs
  {
    if cs.Cell? { IdleWithin(base + cs.size + HDR, cs.rest); }
  }

  lemma {:induction false} LiveWithin(base: nat, cs: Cells)
    ensures forall x :: x in Live(base, cs) ==> base <= x.0 && x.0 + x.1 + HDR <= base + Span(cs)
    decreases cs
  {
    if cs.Cell? { LiveWithin(base + cs.size + HDR, cs.rest); }
  }

  lemma {:induction false} FreeWithin(base: nat, cs: Cells)
    ensures forall x :: x in FreeAddrs(base, cs) ==> base <= x && x + HDR <= base + Span(cs)
    decreases cs
  {
    if cs.Cell? { FreeWithin(base + cs.size + HDR, cs.rest); }
  }

  // ------------------------------------------------------------ operations

  /** Some free block has at least `want` bytes. */
  predicate Fits(cs: Cells, want: nat) {
    cs.Cell? && ((cs.free && cs.size >= want) || Fits(cs.rest, want))
  }

  /** The first such block: its address and size. */
  function FirstFit(base: nat, cs: Cells, want: nat): (r: (nat, nat))
    requires Fits(cs, want)
    ensures r.1 >= want
    decreases cs
  {
    if cs.free && cs.size >= want then (base, cs.size) else FirstFit(base + cs.size + HDR, cs.rest, want)
  }

  /** A free block of `n` bytes put to use for `req`: cut if more than a header is left over. */
  function Cut(n: nat, req: nat, rest: Cells): Cells
    requires req <= n
  {
    if n - req > HDR then Cell(req, false, Cell(n - req - HDR, true, rest)) else Cell(n, false, rest)
  }

  /** The size of the block that `Cut` puts to use. */
  function Given(n: nat, req: nat): nat
    requires req <= n
  {
    if n - req > HDR then req else n
  }

  /** try_allocating_in_area */
  function Allocate(cs: Cells, req: nat): Cells
    requires Fits(cs, req + HDR)
  {
    if cs.free && cs.size >= req + HDR then Cut(cs.size, req, cs.rest)
    else Cell(cs.size, cs.free, Allocate(cs.rest, req))
  }

  /** A block that becomes free, joined with a free block after it. */
  function JoinRight(n: nat, rest: Cells): Cells {
    if HeadFree(rest) then Cell(n + HDR + rest.size, true, rest.rest) else Cell(n, true, rest)
  }

  /** kfree of the block at `mb` */
  function Release(base: nat, cs: Cells, mb: nat): Cells
    decreases cs
  {
    match cs
    case End => End
    case Cell(n, free, rest) =>
      if base == mb then JoinRight(n, rest)
      else
        var next := base + n + HDR;
        JoinLeft(n, free, next == mb, Release(next, rest, mb))
  }

  /** Putting a block in front of `t`; a free one joins the block just freed. */
  function JoinLeft(n: nat, free: bool, freed: bool, t: Cells): Cells {
    if free && freed && t.Cell? then Cell(n + HDR + t.size, true, t.rest) else Cell(n, free, t)
  }

  // ------------------------------------------------------------ invariants

  lemma {:induction false} AllocateGood(cs: Cells, req: nat)
    requires Good(cs) && Fits(cs, req + HDR) && req > 0 && req % 8 == 0
    ensures Good(Allocate(cs, req)) && Span(Allocate(cs, req)) == Span(cs)
    ensures HeadFree(Allocate(cs, req)) ==> HeadFree(cs)
  {
    if !(cs.free && cs.size >= req + HDR) { AllocateGood(cs.rest, req); }
  }

  /** Where the block that serves a request lies: clear of every block in use. */
  lemma {:induction false} FirstFitApart(base: nat, cs: Cells, want: nat)
    requires Fits(cs, want)
    ensures var (mb, n) := FirstFit(base, cs, want);
            && base <= mb && mb + n + HDR <= base + Span(cs)
            && forall x :: x in Live(base, cs) ==> x.0 + HDR + x.1 <= mb || mb + n + HDR <= x.0
    decreases cs
  {
    var next := base + cs.size + HDR;
    LiveWithin(next, cs.rest);
    if !(cs.free && cs.size >= want) { FirstFitApart(next, cs.rest, want); }
  }

  /** Allocation adds exactly one block in use, at least as large as asked for. */
  lemma {:induction false} AllocateLive(base: nat, cs: Cells, req: nat)
    requires Fits(cs, req + HDR)
    ensures var (mb, n) := FirstFit(base, cs, req + HDR);
            && Given(n, req) >= req
            && Live(base, Allocate(cs, req)) == Live(base, cs) + {(mb, Given(n, req))}
    decreases cs
  {
    if !(cs.free && cs.size >= req + HDR) { AllocateLive(base + cs.size + HDR, cs.rest, req); }
  }

  lemma {:induction false} FitsIff(base: nat, cs: Cells, want: nat)
    ensures Fits(cs, want) <==> exists x :: x in Idle(base, cs) && x.1 >= want
    decreases cs
  {
    if cs.Cell? {
      FitsIff(base + cs.size + HDR, cs.rest, want);
      if cs.free { assert (base, cs.size) in Idle(base, cs); }
    }
  }

  /** The block that serves a request is the free block of lowest address that is large enough. */
  lemma {:induction false} FirstFitLowest(base: nat, cs: Cells, want: nat)
    requires Fits(cs, want)
    ensures FirstFit(base, cs, want) in Idle(base, cs)
    ensures forall x :: x in Idle(base, cs) && x.1 >= want ==> FirstFit(base, cs, want).0 <= x.0
    decreases cs
  {
    IdleWithin(base, cs);
    if !(cs.free && cs.size >= want) { FirstFitLowest(base + cs.size + HDR, cs.rest, want); }
  }

  /** Allocation takes that block from the free ones and puts back what exceeds the request by more than
      a header. */
  lemma {:induction false} AllocateIdle(base: nat, cs: Cells, req: nat)
    requires Fits(cs, req + HDR)
    ensures var (mb, n) := FirstFit(base, cs, req + HDR);
            Idle(base, Allocate(cs, req)) == Idle(base, cs) - {(mb, n)} + Remainder(mb, n, req)
    decreases cs
  {
    var next := base + cs.size + HDR;
    IdleWithin(next, cs.rest);
    if cs.free && cs.size >= req + HDR {
      CutIdle(base, cs.size, req, cs.rest);
    } else {
      FirstFitLowest(next, cs.rest, req + HDR);
      AllocateIdle(next, cs.rest, req);
    }
  }

  function Remainder(mb: nat, n: nat, req: nat): set<(nat, nat)> {
    if n - req > HDR then {(mb + req + HDR, n - req - HDR)} else {}
  }

  lemma CutIdle(base: nat, n: nat, req: nat, rest: Cells)
    requires req <= n
    ensures Idle(base, Cut(n, req, rest)) == Idle(base + n + HDR, rest) + Remainder(base, n, req)
  {
  }

  /** What serving a request of `req` bytes does to the blocks free and in use */
  ghost predicate FirstFitServed(base: nat, cs: Cells, req: nat, cs': Cells, mb: nat, n: nat) {
    && (mb, n) in Idle(base, cs) && n >= req + 16
    && (forall x :: x in Idle(base, cs) && x.1 >= req + 16 ==> mb <= x.0)
    && Live(base, cs') == Live(base, cs) + {(mb, if n > req + 16 then req else n)}
    && Idle(base, cs') == Idle(base, cs) - {(mb, n)} + if n > req + 16 then {(mb + req + 16, n - req - 16)} else {}
  }

  lemma AllocateServes(base: nat, cs: Cells, req: nat)
    requires Fits(cs, req + HDR)
    ensures var (mb, n) := FirstFit(base, cs, req + HDR); FirstFitServed(base, cs, req, Allocate(cs, req), mb, n)
  {
    FirstFitLowest(base, cs, req + HDR);
    AllocateLive(base, cs, req);
    AllocateIdle(base, cs, req);
  }

  lemma {:induction false} ReleaseGood(base: nat, cs: Cells, mb: nat)
    requires Good(cs) && InUse(base, cs, mb)
    ensures Good(Release(base, cs, mb)) && Span(Release(base, cs, mb)) == Span(cs)
    ensures Release(base, cs, mb).Cell? && (base == mb ==> Release(base, cs, mb).free)
    ensures HeadFree(Release(base, cs, mb)) ==> HeadFree(cs) || base == mb
    decreases cs
  {
    var next := base + cs.size + HDR;
    if base != mb {
      ReleaseGood(next, cs.rest, mb);
      JoinLeftGood(cs.size, cs.free, next == mb, Release(next, cs.rest, mb));
    }
  }

  lemma JoinLeftGood(n: nat, free: bool, freed: bool, t: Cells)
    requires n > 0 && n % 8 == 0 && Good(t) && t.Cell? && (freed ==> t.free) && (free && !freed ==> !t.free)
    ensures Good(JoinLeft(n, free, freed, t)) && Span(JoinLeft(n, free, freed, t)) == n + HDR + Span(t)
  {
  }

  /** A block in use starts at `mb`. */
  predicate InUse(base: nat, cs: Cells, mb: nat)
    decreases cs
  {
    cs.Cell? && if base == mb then !cs.free else InUse(base + cs.size + HDR, cs.rest, mb)
  }

  /** Its size. */
  function SizeAt(base: nat, cs: Cells, mb: nat): nat
    requires InUse(base, cs, mb)
    decreases cs
  {
    if base == mb then cs.size else SizeAt(base + cs.size + HDR, cs.rest, mb)
  }

  lemma {:induction false} InUseLive(base: nat, cs: Cells, mb: nat)
    requires InUse(base, cs, mb)
    ensures (mb, SizeAt(base, cs, mb)) in Live(base, cs)
    decreases cs
  {
    if base != mb { InUseLive(base + cs.size + HDR, cs.rest, mb); }
  }

  lemma {:induction false} LiveInUse(base: nat, cs: Cells, mb: nat, n: nat)
    requires (mb, n) in Live(base, cs)
    ensures InUse(base, cs, mb) && n == SizeAt(base, cs, mb)
    decreases cs
  {
    LiveWithin(base + cs.size + HDR, cs.rest);
    if base != mb { LiveInUse(base + cs.size + HDR, cs.rest, mb, n); }
  }

  lemma InUseIsLive(base: nat, cs: Cells, mb: nat)
    ensures InUse(base, cs, mb) ==> (mb, SizeAt(base, cs, mb)) in Live(base, cs)
    ensures forall n :: (mb, n) in Live(base, cs) ==> InUse(base, cs, mb) && n == SizeAt(base, cs, mb)
  {
    if InUse(base, cs, mb) { InUseLive(base, cs, mb); }
    forall n | (mb, n) in Live(base, cs)
      ensures InUse(base, cs, mb) && n == SizeAt(base, cs, mb)
    {
      LiveInUse(base, cs, mb, n);
    }
  }

  /** Freeing removes exactly the freed block from those in use. */
  lemma {:induction false} ReleaseLive(base: nat, cs: Cells, mb: nat)
    requires InUse(base, cs, mb)
    ensures Live(base, Release(base, cs, mb)) == Live(base, cs) - {(mb, SizeAt(base, cs, mb))}
    ensures Release(base, cs, mb).Cell? && (base == mb ==> Release(base, cs, mb).free)
    decreases cs
  {
    var next := base + cs.size + HDR;
    LiveWithin(next, cs.rest);
    if base != mb {
      InUseWithin(next, cs.rest, mb);
      ReleaseLive(next, cs.rest, mb);
      JoinLeftLive(base, cs.size, cs.free, next == mb, Release(next, cs.rest, mb));
    } else {
      JoinRightLive(base, cs.size, cs.rest);
    }
  }

  lemma JoinLeftLive(base: nat, n: nat, free: bool, freed: bool, t: Cells)
    requires t.Cell? && (freed ==> t.free)
    ensures Live(base, JoinLeft(n, free, freed, t)) == (if free then {} else {(base, n)}) + Live(base + n + HDR, t)
  {
  }

  lemma JoinRightLive(base: nat, n: nat, rest: Cells)
    ensures Live(base, JoinRight(n, rest)) == Live(base + n + HDR, rest)
  {
  }

  lemma {:induction false} InUseWithin(base: nat, cs: Cells, mb: nat)
    requires InUse(base, cs, mb)
    ensures base <= mb && mb + HDR <= base + Span(cs)
    decreases cs
  {
    if base != mb { InUseWithin(base + cs.size + HDR, cs.rest, mb); }
  }

  /** Canonical form: the blocks in use determine the whole arena, free list included. */
  lemma {:induction false} LiveDetermines(base: nat, a: Cells, b: Cells)
    requires Good(a) && Good(b) && Span(a) == Span(b) && Live(base, a) == Live(base, b)
    ensures a == b
    decreases a
  {
    if a.Cell? && b.Cell? {
      HeadsAgree(base, a, b);
      HeadsAgree(base, b, a);
      var next := base + a.size + HDR;
      LiveWithin(next, a.rest);
      LiveWithin(next, b.rest);
      if !a.free {
        assert Live(next, a.rest) == Live(base, a) - {(base, a.size)};
        assert Live(next, b.rest) == Live(base, b) - {(base, a.size)};
      }
      LiveDetermines(next, a.rest, b.rest);
    }
  }

  lemma HeadsAgree(base: nat, a: Cells, b: Cells)
    requires Good(a) && Good(b) && Span(a) == Span(b) && Live(base, a) == Live(base, b) && a.Cell? && b.Cell?
    ensures a.free == b.free && a.size >= b.size
  {
    if !a.free {
      HeadUsed(base, a, b);
    } else {
      if !b.free { HeadUsed(base, b, a); }
      HeadSize(base, a, b);
    }
  }

  /** A first block in use is in use in both, with one size. */
  lemma HeadUsed(base: nat, a: Cells, b: Cells)
    requires Live(base, a) == Live(base, b) && a.Cell? && b.Cell? && !a.free
    ensures !b.free && a.size == b.size
  {
    LiveWithin(base + b.size + HDR, b.rest);
    assert (base, a.size) in Live(base, b);
  }

  /** The neighbour of a free block is in use, so it lies outside any free block of `b`. */
  lemma HeadSize(base: nat, a: Cells, b: Cells)
    requires Good(a) && Span(a) == Span(b) && Live(base, a) == Live(base, b) && a.Cell? && b.Cell? && a.free && b.free
    ensures a.size >= b.size
  {
    LiveWithin(base + b.size + HDR, b.rest);
    if a.rest.Cell? { assert (base + a.size + HDR, a.rest.size) in Live(base, b); }
  }

  /** Blocks in use never overlap, headers included. */
  lemma {:induction false} LiveDisjoint(base: nat, cs: Cells, x: (nat, nat), y: (nat, nat))
    requires x in Live(base, cs) && y in Live(base, cs) && x != y
    ensures x.0 + HDR + x.1 <= y.0 || y.0 + HDR + y.1 <= x.0
    decreases cs
  {
    var next := base + cs.size + HDR;
    LiveWithin(next, cs.rest);
    if x in Live(next, cs.rest) && y in Live(next, cs.rest) {
      LiveDisjoint(next, cs.rest, x, y);
    }
  }

  // ------------------------------------------------------------------ runs

  function Align8(n: nat): (r: nat)
    ensures n <= r < n + 8 && r % 8 == 0
  {
    (n + 7) / 8 * 8
  }

  datatype Op = DoAlloc(size: nat) | DoFree(mb: nat)

  ghost predicate Step(base: nat, cs: Cells, op: Op, cs': Cells) {
    match op
    case DoAlloc(size) => size > 0 && cs' == if Fits(cs, Align8(size) + HDR) then Allocate(cs, Align8(size)) else cs
    case DoFree(mb) => InUse(base, cs, mb) && cs' == Release(base, cs, mb)
  }

  ghost predicate Run(base: nat, states: seq<Cells>, ops: seq<Op>) {
    |states| == |ops| + 1 && forall n :: 0 <= n < |ops| ==> Step(base, states[n], ops[n], states[n + 1])
  }

  /** Over every run the blocks tile the arena and no two neighbours are free. */
  lemma {:induction false} RunKeeps(base: nat, states: seq<Cells>, ops: seq<Op>, n: nat)
    requires Run(base, states, ops) && Good(states[0]) && n <= |ops|
    ensures Good(states[n]) && Span(states[n]) == Span(states[0])
  {
    if n > 0 {
      RunKeeps(base, states, ops, n - 1);
      var cs, op := states[n - 1], ops[n - 1];
      assert Step(base, cs, op, states[n]);
      match op
      case DoAlloc(size) => if Fits(cs, Align8(size) + HDR) { AllocateGood(cs, Align8(size)); }
      case DoFree(mb) => ReleaseGood(base, cs, mb);
    }
  }

  /** Whatever was allocated and freed in between, in whatever order: once the same
      blocks are in use, the arena and its free list are as they were. */
  lemma RunRestores(base: nat, states: seq<Cells>, ops: seq<Op>, m: nat, n: nat)
    requires Run(base, states, ops) && Good(states[0]) && m <= n <= |ops|
    requires Live(base, states[m]) == Live(base, states[n])
    ensures states[m] == states[n] && FreeAddrs(base, states[m]) == FreeAddrs(base, states[n])
  {
    RunKeeps(base, states, ops, m);
    RunKeeps(base, states, ops, n);
    LiveDetermines(base, states[m], states[n]);
  }
}
