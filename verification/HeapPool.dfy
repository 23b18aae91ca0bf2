/** kmalloc, kfree and kmemalign over the arenas of a pool, with the two half-words
    that kmemalign leaves in front of an aligned pointer. */
module HeapPool {
  import opened Basics
  import opened HeapBlocks
  import opened Heap
  import Dyadic

  const MAGIC: nat := 0xAAFF

  /** sizeof(AlignedMemBlock): magic and offset, 16 bits each. */
  const TAG: nat := 4

  /** What kmalloc returns, or the panic; `Short` is a block handed out though it is too small. */
  datatype Result = Null | Ptr(p: nat) | Exhausted | Short(p: nat)

  datatype Status = Done | Corrupt

  /** Where the block headers are. */
  function Starts(base: nat, cs: Cells): set<nat>
    decreases cs
  {
    if cs.End? then {} else {base} + Starts(base + cs.size + HDR, cs.rest)
  }

  lemma {:induction false} StartsAllocate(base: nat, cs: Cells, req: nat)
    requires Fits(cs, req + HDR)
    ensures var (mb, n) := FirstFit(base, cs, req + HDR);
            Starts(base, Allocate(cs, req)) == Starts(base, cs) + (if n - req > HDR then {mb + req + HDR} else {})
    decreases cs
  {
    if !(cs.free && cs.size >= req + HDR) { StartsAllocate(base + cs.size + HDR, cs.rest, req); }
  }

  lemma {:induction false} StartsRelease(base: nat, cs: Cells, mb: nat)
    requires InUse(base, cs, mb)
    ensures Starts(base, Release(base, cs, mb)) <= Starts(base, cs)
    decreases cs
  {
    if base != mb { StartsRelease(base + cs.size + HDR, cs.rest, mb); }
  }

  lemma {:induction false} LiveStarts(base: nat, cs: Cells)
    ensures forall x :: x in Live(base, cs) ==> x.0 in Starts(base, cs)
    decreases cs
  {
    if cs.Cell? { LiveStarts(base + cs.size + HDR, cs.rest); }
  }

  lemma {:induction false} StartsWithin(base: nat, cs: Cells)
    ensures forall a :: a in Starts(base, cs) ==> base <= a && a + HDR <= base + Span(cs)
    decreases cs
  {
    if cs.Cell? { StartsWithin(base + cs.size + HDR, cs.rest); }
  }

  /** A header other than its own lies outside a block in use. */
  lemma {:induction false} StartApart(base: nat, cs: Cells, a: nat, x: (nat, nat))
    requires a in Starts(base, cs) && x in Live(base, cs) && a != x.0
    ensures a + HDR <= x.0 || x.0 + HDR + x.1 <= a
    decreases cs
  {
    var next := base + cs.size + HDR;
    StartsWithin(next, cs.rest);
    LiveWithin(next, cs.rest);
    if a in Starts(next, cs.rest) && x in Live(next, cs.rest) { StartApart(next, cs.rest, a, x); }
  }

  /** No half-word of an aligned header lies in a block header: add_free_memory_block
      clears a header when it makes one. */
  ghost predicate Clean(half: map<nat, nat>, base: nat, cs: Cells) {
    forall a, h :: a in Starts(base, cs) && h in half ==> !(a <= h < a + HDR)
  }

  /** The half-words left after a block header is written at `a`. */
  function Erased(half: map<nat, nat>, a: nat): map<nat, nat> {
    map h | h in half && !(a <= h < a + HDR) :: half[h]
  }

  /** Exactly those under the 16 bytes of the header are gone. */
  lemma ErasedIs(half: map<nat, nat>, a: nat, h: nat)
    ensures h in Erased(half, a) <==> h in half && (h < a || h >= a + 16)
    ensures h in Erased(half, a) ==> Erased(half, a)[h] == half[h]
  {
  }

  /** The address that kfree takes for the start of the payload. */
  function Target(half: map<nat, nat>, addr: nat): int {
    if addr >= TAG && addr - TAG in half && half[addr - TAG] == MAGIC && addr - 2 in half
    then addr - half[addr - 2] else addr
  }

  /** The pointer `r` carries the tag that leads kfree to the block in use at `ptr`. */
  ghost predicate Tagged(half: map<nat, nat>, base: nat, cs: Cells, r: nat, ptr: nat, size: nat) {
    && ptr >= HDR && (ptr - HDR, size) in Live(base, cs) && ptr + TAG <= r <= ptr + size
    && r - TAG in half && half[r - TAG] == MAGIC && r - 2 in half && half[r - 2] == r - ptr
  }

  /** Tags survive an allocation in their arena, */
  lemma TaggedAllocate(half: map<nat, nat>, base: nat, cs: Cells, req: nat, r: nat, ptr: nat, size: nat)
    requires Tagged(half, base, cs, r, ptr, size) && Fits(cs, req + HDR)
    ensures Tagged(half, base, Allocate(cs, req), r, ptr, size)
    ensures var (mb, n) := FirstFit(base, cs, req + HDR);
            n - req > HDR ==> Tagged(Erased(half, mb + req + HDR), base, Allocate(cs, req), r, ptr, size)
  {
    AllocateLive(base, cs, req);
    FirstFitApart(base, cs, req + HDR);
  }

  /** the release of another block in it, */
  lemma TaggedRelease(half: map<nat, nat>, base: nat, cs: Cells, mb: nat, r: nat, ptr: nat, size: nat)
    requires Tagged(half, base, cs, r, ptr, size) && InUse(base, cs, mb) && ptr - HDR != mb
    ensures Tagged(Erased(half, mb), base, Release(base, cs, mb), r, ptr, size)
  {
    ReleaseLive(base, cs, mb);
    InUseIsLive(base, cs, mb);
    LiveStarts(base, cs);
    StartApart(base, cs, mb, (ptr - HDR, size));
  }

  /** and anything in another arena. */
  lemma TaggedElsewhere(half: map<nat, nat>, base: nat, cs: Cells, c: nat, r: nat, ptr: nat, size: nat)
    requires Tagged(half, base, cs, r, ptr, size) && (c + HDR <= base || base + Span(cs) <= c)
    ensures Tagged(Erased(half, c), base, cs, r, ptr, size)
  {
    LiveWithin(base, cs);
  }

  // -------------------------------------------------------------- the pool

  /** An arena as the pool sees it. */
  datatype View = View(start: nat, cells: Cells)

  /** A pointer returned by kmemalign: the pointer and size kmalloc gave it, and the arena. */
  datatype Grant = Grant(ptr: nat, size: nat, arena: nat)

  ghost predicate Apart(a: View, b: View) {
    a.start + Span(a.cells) <= b.start || b.start + Span(b.cells) <= a.start
  }

  ghost predicate GrantOk(vs: seq<View>, half: map<nat, nat>, r: nat, g: Grant) {
    g.arena < |vs| && Tagged(half, vs[g.arena].start, vs[g.arena].cells, r, g.ptr, g.size)
  }

  ghost predicate ViewOk(v: View, half: map<nat, nat>) {
    v.start % 8 == 0 && Good(v.cells) && Clean(half, v.start, v.cells)
  }

  ghost predicate PoolOk(vs: seq<View>, half: map<nat, nat>, grants: map<nat, Grant>) {
    && (forall i {:trigger ViewOk(vs[i], half)} :: 0 <= i < |vs| ==> ViewOk(vs[i], half))
    && (forall i, j {:trigger Apart(vs[i], vs[j])} :: 0 <= i < |vs| && 0 <= j < |vs| && i != j ==> Apart(vs[i], vs[j]))
    && (forall r {:trigger GrantOk(vs, half, r, grants[r])} :: r in grants ==> GrantOk(vs, half, r, grants[r]))
  }

  /** The half-words left after `v` served a request. */
  function HalfServed(half: map<nat, nat>, v: View, req: nat): map<nat, nat>
    requires Fits(v.cells, req + HDR)
  {
    var (mb, n) := FirstFit(v.start, v.cells, req + HDR);
    if n - req > HDR then Erased(half, mb + req + HDR) else half
  }

  function Served(v: View, req: nat): View
    requires Fits(v.cells, req + HDR)
  {
    View(v.start, Allocate(v.cells, req))
  }

  /** An allocation in arena `i` keeps the pool. */
  lemma PoolAllocate(vs: seq<View>, half: map<nat, nat>, grants: map<nat, Grant>, i: nat, req: nat)
    requires PoolOk(vs, half, grants) && i < |vs| && Fits(vs[i].cells, req + HDR) && req > 0 && req % 8 == 0
    ensures PoolOk(vs[i := Served(vs[i], req)], HalfServed(half, vs[i], req), grants)
  {
    var v, half' := vs[i], HalfServed(half, vs[i], req);
    var vs' := vs[i := Served(v, req)];
    assert ViewOk(vs[i], half);
    AllocateGood(v.cells, req);
    StartsAllocate(v.start, v.cells, req);
    forall j | 0 <= j < |vs'| ensures ViewOk(vs'[j], half') {
      assert ViewOk(vs[j], half);
    }
    forall x, y | 0 <= x < |vs'| && 0 <= y < |vs'| && x != y
      ensures Apart(vs'[x], vs'[y])
    {
      assert Apart(vs[x], vs[y]);
    }
    forall r | r in grants ensures GrantOk(vs', half', r, grants[r]) {
      assert GrantOk(vs, half, r, grants[r]) && (grants[r].arena != i ==> Apart(vs[grants[r].arena], vs[i]));
      GrantAllocate(vs, half, i, req, r, grants[r]);
    }
  }

  lemma GrantAllocate(vs: seq<View>, half: map<nat, nat>, i: nat, req: nat, r: nat, g: Grant)
    requires i < |vs| && Fits(vs[i].cells, req + HDR) && GrantOk(vs, half, r, g)
    requires g.arena != i ==> Apart(vs[g.arena], vs[i])
    ensures GrantOk(vs[i := Served(vs[i], req)], HalfServed(half, vs[i], req), r, g)
  {
    var v := vs[i];
    if g.arena == i {
      TaggedAllocate(half, v.start, v.cells, req, r, g.ptr, g.size);
    } else {
      FirstFitApart(v.start, v.cells, req + HDR);
      var (mb, n) := FirstFit(v.start, v.cells, req + HDR);
      if n - req > HDR {
        TaggedElsewhere(half, vs[g.arena].start, vs[g.arena].cells, mb + req + HDR, r, g.ptr, g.size);
      }
    }
  }

  /** Grants that do not belong to the block whose payload starts at `ptr`. */
  function Without(grants: map<nat, Grant>, ptr: nat): map<nat, Grant> {
    map r | r in grants && grants[r].ptr != ptr :: grants[r]
  }

  /** A release in arena `i` keeps the pool. */
  lemma PoolRelease(vs: seq<View>, half: map<nat, nat>, grants: map<nat, Grant>, i: nat, mb: nat)
    requires PoolOk(vs, half, grants) && i < |vs| && InUse(vs[i].start, vs[i].cells, mb)
    ensures PoolOk(vs[i := View(vs[i].start, Release(vs[i].start, vs[i].cells, mb))],
                   Erased(half, mb), Without(grants, mb + HDR))
  {
    var v, half', grants' := vs[i], Erased(half, mb), Without(grants, mb + HDR);
    var vs' := vs[i := View(v.start, Release(v.start, v.cells, mb))];
    assert ViewOk(vs[i], half);
    ReleaseGood(v.start, v.cells, mb);
    StartsRelease(v.start, v.cells, mb);
    InUseWithin(v.start, v.cells, mb);
    forall j | 0 <= j < |vs'| ensures ViewOk(vs'[j], half') {
      assert ViewOk(vs[j], half);
    }
    forall x, y | 0 <= x < |vs'| && 0 <= y < |vs'| && x != y
      ensures Apart(vs'[x], vs'[y])
    {
      assert Apart(vs[x], vs[y]);
    }
    forall r | r in grants' ensures GrantOk(vs', half', r, grants'[r]) {
      var g := grants[r];
      assert GrantOk(vs, half, r, grants[r]);
      if g.arena == i {
        TaggedRelease(half, v.start, v.cells, mb, r, g.ptr, g.size);
      } else {
        assert Apart(vs[g.arena], vs[i]);
        TaggedElsewhere(half, vs[g.arena].start, vs[g.arena].cells, mb, r, g.ptr, g.size);
      }
    }
  }

  /** kfree finds the right block: for a pointer from kmemalign the block kmalloc gave
      it, for any other block in use the block itself. */
  lemma TargetIsRight(vs: seq<View>, half: map<nat, nat>, grants: map<nat, Grant>)
    requires PoolOk(vs, half, grants)
    ensures forall r :: r in grants ==> Target(half, r) == grants[r].ptr
    ensures forall i, x :: 0 <= i < |vs| && x in Live(vs[i].start, vs[i].cells) ==> Target(half, x.0 + HDR) == x.0 + HDR
  {
    forall r | r in grants ensures Target(half, r) == grants[r].ptr {
      assert GrantOk(vs, half, r, grants[r]);
    }
    forall i, x | 0 <= i < |vs| && x in Live(vs[i].start, vs[i].cells) ensures Target(half, x.0 + HDR) == x.0 + HDR {
      LiveStarts(vs[i].start, vs[i].cells);
      assert ViewOk(vs[i], half);
    }
  }

  /** The grants after an arena is put in front. */
  function Shifted(grants: map<nat, Grant>): map<nat, Grant> {
    map r | r in grants :: grants[r].(arena := grants[r].arena + 1)
  }

  lemma PoolGrow(vs: seq<View>, half: map<nat, nat>, grants: map<nat, Grant>, v: View)
    requires PoolOk(vs, half, grants) && v.start % 8 == 0 && Good(v.cells) && v.cells.Cell? && v.cells.rest.End?
    requires forall i :: 0 <= i < |vs| ==> Apart(v, vs[i])
    ensures PoolOk([v] + vs, Erased(half, v.start), Shifted(grants))
  {
    var vs', half', grants' := [v] + vs, Erased(half, v.start), Shifted(grants);
    assert Starts(v.start, v.cells) == {v.start};
    forall i | 0 <= i < |vs'| ensures ViewOk(vs'[i], half') {
      if i > 0 { assert vs'[i] == vs[i - 1] && ViewOk(vs[i - 1], half); }
    }
    forall x, y | 0 <= x < |vs'| && 0 <= y < |vs'| && x != y ensures Apart(vs'[x], vs'[y]) {
      if x > 0 && y > 0 { assert vs'[x] == vs[x - 1] && vs'[y] == vs[y - 1] && Apart(vs[x - 1], vs[y - 1]); }
    }
    forall r | r in grants' ensures GrantOk(vs', half', r, grants'[r]) {
      var g := grants[r];
      assert GrantOk(vs, half, r, grants[r]) && Apart(v, vs[g.arena]);
      TaggedElsewhere(half, vs[g.arena].start, vs[g.arena].cells, v.start, r, g.ptr, g.size);
    }
  }

  /** First fit in arena `i`: `r` is the payload of the block that serves the request. */
  ghost predicate Turn(vs: seq<View>, vs': seq<View>, half: map<nat, nat>, half': map<nat, nat>, i: nat, req: nat,
          r: Option<nat>)
    requires i < |vs|
  {
    var v := vs[i];
    if Fits(v.cells, req + HDR)
    then && r == Some(FirstFit(v.start, v.cells, req + HDR).0 + HDR)
         && vs' == vs[i := Served(v, req)] && half' == HalfServed(half, v, req)
    else r == None && vs' == vs && half' == half
  }

  // ------------------------------------------------------ aligned pointers

  /** Round up to a multiple of `al`, as the mask in kmemalign does for a power of two. */
  function RoundUp(x: nat, al: nat): (r: nat)
    requires al > 0
    ensures x <= r < x + al && r % al == 0
  {
    var q := (x + al - 1) / al;
    assert x + al - 1 == al * q + (x + al - 1) % al;
    Dyadic.ModUnique(q * al, al, q, 0);
    q * al
  }

  lemma RoundUpLeast(x: nat, al: nat, y: nat)
    requires al > 0 && y >= x && y % al == 0
    ensures RoundUp(x, al) <= y
  {
    var r := RoundUp(x, al);
    var d := r / al - y / al;
    assert r == al * (r / al) && y == al * (y / al);
    assert r - y == al * d;
    assert d >= 1 ==> al * d >= al;
  }

  lemma NotSmall(ptr: nat, e: nat)
    requires ptr % 8 == 0 && ptr % Dyadic.Pow2(e) != 0
    ensures e > 3
  {
    Eight();
    Dyadic.AlignedIsMod(ptr, 3);
    if e <= 3 {
      Dyadic.AlignedDown(ptr, e, 3);
      Dyadic.AlignedIsMod(ptr, e);
    }
  }

  lemma Eight()
    ensures Dyadic.Pow2(3) == 8
  {
    assert Dyadic.Pow2(1) == 2 && Dyadic.Pow2(2) == 4;
  }

  lemma MultipleOf8(y: nat, e: nat)
    requires e > 3 && y % Dyadic.Pow2(e) == 0
    ensures y % 8 == 0
  {
    Eight();
    Dyadic.AlignedIsMod(y, e);
    Dyadic.AlignedDown(y, 3, e);
    Dyadic.AlignedIsMod(y, 3);
  }

  /** Skipping room for the tag does not skip a multiple: the offset stays below the alignment. */
  lemma OffsetBelow(ptr: nat, e: nat)
    requires ptr % 8 == 0 && ptr % Dyadic.Pow2(e) != 0
    ensures RoundUp(ptr + TAG, Dyadic.Pow2(e)) - ptr < Dyadic.Pow2(e)
  {
    var al := Dyadic.Pow2(e);
    var y := RoundUp(ptr, al);
    NotSmall(ptr, e);
    MultipleOf8(y, e);
    NextEight(ptr, y);
    RoundUpLeast(ptr + TAG, al, y);
  }

  lemma NextEight(a: nat, b: nat)
    requires a % 8 == 0 && b % 8 == 0 && a < b
    ensures a + 8 <= b
  {
  }

  lemma {:induction false} FitAligned(base: nat, cs: Cells, want: nat)
    requires Good(cs) && Fits(cs, want) && base % 8 == 0
    ensures FirstFit(base, cs, want).0 % 8 == 0
    decreases cs
  {
    if !(cs.free && cs.size >= want) { FitAligned(base + cs.size + HDR, cs.rest, want); }
  }

  /** The half-words after kmemalign tagged `r`. */
  function Tag(half: map<nat, nat>, r: nat, off: nat): map<nat, nat>
    requires r >= TAG
  {
    half[r - TAG := MAGIC][r - 2 := off]
  }

  /** The pointer kmemalign makes of what kmalloc gave it, and the half-words it leaves. */
  function AlignedPtr(ptr: nat, e: nat): nat {
    if ptr % Dyadic.Pow2(e) == 0 then ptr else RoundUp(ptr + TAG, Dyadic.Pow2(e))
  }

  function AlignedHalf(half: map<nat, nat>, ptr: nat, e: nat): map<nat, nat> {
    var p := AlignedPtr(ptr, e);
    if p < ptr + TAG then half else Tag(half, p, (p - ptr) % 0x10000)
  }

  /** The grants with the pointer `p` into the block of `g`, if it carries a tag that leads back. */
  function Granted(grants: map<nat, Grant>, p: nat, g: Grant): map<nat, Grant> {
    if p != g.ptr && p - g.ptr < 0x10000 then grants[p := g] else grants
  }

  /** `p` is aligned, the size asked for fits behind it inside the block, and kfree recovers the
      block exactly when the offset fits its half-word. */
  ghost predicate AlignedOk(half: map<nat, nat>, g: Grant, p: nat, size: nat, al: nat)
    requires al > 0
  {
    && p % al == 0 && g.ptr <= p && p + size <= g.ptr + g.size
    && (Target(half, p) == g.ptr <==> p - g.ptr < 0x10000)
    && (al <= 0x10000 ==> p - g.ptr < 0x10000)
  }

  lemma TagLeadsBack(half: map<nat, nat>, g: Grant, p: nat, size: nat, al: nat)
    requires al > 0 && p % al == 0 && g.ptr + TAG <= p < g.ptr + al && size + al <= g.size
    ensures AlignedOk(Tag(half, p, (p - g.ptr) % 0x10000), g, p, size, al)
  {
    var off := (p - g.ptr) % 0x10000;
    assert Target(Tag(half, p, off), p) == p - off;
  }

  /** kfree of the aligned pointer finds the block kmalloc gave. */
  predicate Recovers(half: map<nat, nat>, ptr: nat, e: nat) {
    Target(AlignedHalf(half, ptr, e), AlignedPtr(ptr, e)) == ptr
  }

  /** Arena `i` of the pool serves a call kmemalign(size, 2^e). */
  ghost predicate CallServed(vs: seq<View>, half: map<nat, nat>, grants: map<nat, Grant>, i: nat, size: nat, e: nat) {
    && PoolOk(vs, half, grants) && i < |vs| && size + Dyadic.Pow2(e) + TAG + 23 < WORD
    && Fits(vs[i].cells, Align8(size + Dyadic.Pow2(e) + TAG) + HDR)
  }

  /** kfree recovers the block after every kmemalign of alignment 2^e exactly up to 65536. (The
      alignment is an int, so e is below 31.) */
  lemma RecoveryIff(e: nat)
    requires e < 31
    ensures (forall vs, half, grants, i, size ::
               CallServed(vs, half, grants, i, size, e) ==> CallRecovers(vs, half, i, size, e))
       <==> e <= 16
  {
    if e <= 16 {
      forall vs, half, grants, i, size | CallServed(vs, half, grants, i, size, e)
        ensures CallRecovers(vs, half, i, size, e)
      {
        SmallRecovers(vs, half, grants, i, size, e);
      }
    } else {
      LargeLoses(e);
    }
  }

  /** kfree of what the call returns finds the block kmalloc gave it. */
  ghost predicate CallRecovers(vs: seq<View>, half: map<nat, nat>, i: nat, size: nat, e: nat)
    requires i < |vs| && Fits(vs[i].cells, Align8(size + Dyadic.Pow2(e) + TAG) + HDR)
  {
    var req := Align8(size + Dyadic.Pow2(e) + TAG);
    Recovers(HalfServed(half, vs[i], req), FirstFit(vs[i].start, vs[i].cells, req + HDR).0 + HDR, e)
  }

  lemma SmallRecovers(vs: seq<View>, half: map<nat, nat>, grants: map<nat, Grant>, i: nat, size: nat, e: nat)
    requires CallServed(vs, half, grants, i, size, e) && e <= 16
    ensures CallRecovers(vs, half, i, size, e)
  {
    var req := Align8(size + Dyadic.Pow2(e) + TAG);
    var (mb, n) := FirstFit(vs[i].start, vs[i].cells, req + HDR);
    var ptr, half' := mb + HDR, HalfServed(half, vs[i], req);
    PayloadAligned(vs, half, grants, i, req);
    PlainTarget(vs, half, grants, i, req);
    OffsetFits(half', ptr, e);
  }

  /** A pointer kmalloc gives has no tag before it. */
  lemma PlainTarget(vs: seq<View>, half: map<nat, nat>, grants: map<nat, Grant>, i: nat, req: nat)
    requires PoolOk(vs, half, grants) && i < |vs| && Fits(vs[i].cells, req + HDR)
    ensures var ptr := FirstFit(vs[i].start, vs[i].cells, req + HDR).0 + HDR;
            Target(HalfServed(half, vs[i], req), ptr) == ptr
  {
    var v := vs[i];
    assert ViewOk(vs[i], half);
    FitStarts(v.start, v.cells, req + HDR);
  }

  lemma {:induction false} FitStarts(base: nat, cs: Cells, want: nat)
    requires Fits(cs, want)
    ensures FirstFit(base, cs, want).0 in Starts(base, cs)
    decreases cs
  {
    if !(cs.free && cs.size >= want) { FitStarts(base + cs.size + HDR, cs.rest, want); }
  }

  lemma OffsetFits(half: map<nat, nat>, ptr: nat, e: nat)
    requires ptr % 8 == 0 && e <= 16 && Target(half, ptr) == ptr
    ensures Recovers(half, ptr, e)
  {
    if ptr % Dyadic.Pow2(e) != 0 {
      OffsetBelow(ptr, e);
      Sixteen();
      Dyadic.Pow2Monotone(e, 16);
      var p := RoundUp(ptr + TAG, Dyadic.Pow2(e));
      TagLeadsBack(half, Grant(ptr, Dyadic.Pow2(e), 0), p, 0, Dyadic.Pow2(e));
    }
  }

  lemma Sixteen()
    ensures Dyadic.Pow2(16) == 0x10000
  {
    assert Dyadic.Pow2(4) == 16 && Dyadic.Pow2(8) == 256 && Dyadic.Pow2(12) == 4096;
  }

  /** For 2^17 and above the tag is too short: one empty arena at address 40 suffices. */
  lemma LargeLoses(e: nat)
    requires 17 <= e < 31
    ensures exists vs, half, grants, i, size ::
              CallServed(vs, half, grants, i, size, e) && !CallRecovers(vs, half, i, size, e)
  {
    var al := Dyadic.Pow2(e);
    Dyadic.Pow2Monotone(17, e);
    Dyadic.Pow2Monotone(e, 30);
    Sixteen();
    Thirty();
    var req := Align8(8 + al + TAG);
    var v := View(40, Cell(req + HDR, true, End));
    var half: map<nat, nat>, grants: map<nat, Grant> := map[], map[];
    LoneArena(req);
    FarOffset(e);
    assert CallServed([v], half, grants, 0, 8, e) && !CallRecovers([v], half, 0, 8, e);
  }

  lemma LoneArena(req: nat)
    requires req % 8 == 0
    ensures var v := View(40, Cell(req + HDR, true, End));
            && PoolOk([v], map[], map[]) && Fits(v.cells, req + HDR)
            && FirstFit(v.start, v.cells, req + HDR) == (40, req + HDR) && HalfServed(map[], v, req) == map[]
  {
    var v, half: map<nat, nat> := View(40, Cell(req + HDR, true, End)), map[];
    assert ViewOk([v][0], half);
  }

  lemma Thirty()
    ensures Dyadic.Pow2(17) == 0x2_0000 && Dyadic.Pow2(30) == 0x4000_0000
  {
    Sixteen();
    assert Dyadic.Pow2(20) == 0x10_0000 && Dyadic.Pow2(24) == 0x100_0000 && Dyadic.Pow2(28) == 0x1000_0000;
  }

  lemma RoundsTo(x: nat, al: nat)
    requires 0 < x <= al
    ensures RoundUp(x, al) == al
  {
    Dyadic.ModUnique(al, al, 1, 0);
    RoundUpLeast(x, al, al);
    if RoundUp(x, al) < al { Dyadic.ModUnique(RoundUp(x, al), al, 0, RoundUp(x, al)); }
  }

  /** The pointer 56 is moved up to 2^e, and the offset is cut off. */
  lemma FarOffset(e: nat)
    requires 17 <= e < 31
    ensures !Recovers(map[], 56, e)
  {
    var al := Dyadic.Pow2(e);
    Dyadic.Pow2Monotone(17, e);
    Thirty();
    RoundsTo(60, al);
    Dyadic.ModUnique(56, al, 0, 56);
    assert (al - 56) % 0x10000 != al - 56;
  }

  /** Tagging a pointer inside a block that has no grant keeps the pool. */
  lemma PoolTag(vs: seq<View>, half: map<nat, nat>, grants: map<nat, Grant>, g: Grant, r: nat, off: nat)
    requires PoolOk(vs, half, grants) && g.arena < |vs| && g.ptr >= HDR && g.ptr + TAG <= r <= g.ptr + g.size
    requires (g.ptr - HDR, g.size) in Live(vs[g.arena].start, vs[g.arena].cells)
    requires forall r' :: r' in grants ==> grants[r'].ptr != g.ptr
    ensures PoolOk(vs, Tag(half, r, off), grants)
    ensures off == r - g.ptr ==> PoolOk(vs, Tag(half, r, off), grants[r := g])
  {
    var half' := Tag(half, r, off);
    forall i | 0 <= i < |vs| ensures ViewOk(vs[i], half') {
      assert ViewOk(vs[i], half);
      CleanTag(vs, half, i, g, r, off);
    }
    forall r' | r' in grants ensures GrantOk(vs, half', r', grants[r']) && r' != r {
      GrantTag(vs, half, grants, g, r, off, r');
    }
  }

  lemma CleanTag(vs: seq<View>, half: map<nat, nat>, i: nat, g: Grant, r: nat, off: nat)
    requires i < |vs| && g.arena < |vs| && (g.arena != i ==> Apart(vs[g.arena], vs[i]))
    requires Clean(half, vs[i].start, vs[i].cells)
    requires g.ptr >= HDR && g.ptr + TAG <= r <= g.ptr + g.size
    requires (g.ptr - HDR, g.size) in Live(vs[g.arena].start, vs[g.arena].cells)
    ensures Clean(Tag(half, r, off), vs[i].start, vs[i].cells)
  {
    var v, w := vs[i], vs[g.arena];
    LiveWithin(w.start, w.cells);
    StartsWithin(v.start, v.cells);
    forall a | a in Starts(v.start, v.cells) ensures a + HDR <= g.ptr || a >= g.ptr + g.size {
      if g.arena == i && a != g.ptr - HDR { StartApart(v.start, v.cells, a, (g.ptr - HDR, g.size)); }
    }
  }

  lemma GrantTag(vs: seq<View>, half: map<nat, nat>, grants: map<nat, Grant>, g: Grant, r: nat, off: nat, r': nat)
    requires PoolOk(vs, half, grants) && g.arena < |vs| && g.ptr >= HDR && g.ptr + TAG <= r <= g.ptr + g.size
    requires (g.ptr - HDR, g.size) in Live(vs[g.arena].start, vs[g.arena].cells)
    requires r' in grants && grants[r'].ptr != g.ptr
    ensures GrantOk(vs, Tag(half, r, off), r', grants[r']) && r' != r
  {
    var g' := grants[r'];
    assert GrantOk(vs, half, r', grants[r']);
    var v, w := vs[g.arena], vs[g'.arena];
    LiveWithin(v.start, v.cells);
    LiveWithin(w.start, w.cells);
    if g.arena == g'.arena {
      LiveDisjoint(v.start, v.cells, (g.ptr - HDR, g.size), (g'.ptr - HDR, g'.size));
    } else {
      assert Apart(v, w);
    }
  }

  /** The views are those of the arenas, each of which is in order and listed once. */
  ghost predicate Matches(arenas: seq<Arena>, vs: seq<View>)
    requires |arenas| == |vs|
    reads arenas
  {
    && (forall i :: 0 <= i < |arenas| ==> arenas[i].Valid() && vs[i] == View(arenas[i].start, arenas[i].cells))
    && (forall i, j :: 0 <= i < j < |arenas| ==> arenas[i] != arenas[j])
  }

  lemma MatchesCons(a: Arena, arenas: seq<Arena>, vs: seq<View>)
    requires |arenas| == |vs| && Matches(arenas, vs) && a.Valid() && a !in arenas
    ensures Matches([a] + arenas, [View(a.start, a.cells)] + vs)
  {
  }

  lemma StaysLive(vs: seq<View>, vs': seq<View>, half: map<nat, nat>, half': map<nat, nat>, i: nat, req: nat, p: nat,
          g: Grant)
    requires i < |vs| && Turn(vs, vs', half, half', i, req, Some(p)) && g.arena < |vs| && g.ptr >= HDR
    requires (g.ptr - HDR, g.size) in Live(vs[g.arena].start, vs[g.arena].cells)
    ensures |vs'| == |vs| && (g.ptr - HDR, g.size) in Live(vs'[g.arena].start, vs'[g.arena].cells)
  {
    AllocateLive(vs[i].start, vs[i].cells, req);
  }

  /** A granted pointer, or a plain one to a block in use, leads back to its block. */
  lemma StillRecovers(vs: seq<View>, half: map<nat, nat>, grants: map<nat, Grant>, p: nat, g: Grant)
    requires PoolOk(vs, half, grants) && g.arena < |vs| && g.ptr >= HDR
    requires (g.ptr - HDR, g.size) in Live(vs[g.arena].start, vs[g.arena].cells)
    ensures p == g.ptr || (p in grants && grants[p] == g) ==> Target(half, p) == g.ptr
  {
    TargetIsRight(vs, half, grants);
  }

  /** The arena can serve a request for `size` bytes. */
  ghost predicate Serves(v: View, size: nat) { Fits(v.cells, Wanted(size)) }

  ghost predicate NoneServes(vs: seq<View>, size: nat) {
    forall i {:trigger Serves(vs[i], size)} :: 0 <= i < |vs| ==> !Serves(vs[i], size)
  }

  ghost predicate FirstServing(vs: seq<View>, at: nat, size: nat) {
    at < |vs| && Serves(vs[at], size) && forall i {:trigger Serves(vs[i], size)} :: 0 <= i < at ==> !Serves(vs[i], size)
  }

  class Pool {
    var arenas: seq<Arena>
    var half: map<nat, nat>
    ghost var views: seq<View>
    ghost var grants: map<nat, Grant>

    ghost predicate Valid()
      reads this, arenas
    {
      && PoolOk(views, half, grants) && |views| == |arenas|
      && Matches(arenas, views)
    }

    /** kmalloc_init */
    constructor ()
      ensures Valid() && arenas == [] && grants == map[]
    {
      arenas, half, views, grants := [], map[], [], map[];
    }

    /** kmalloc_add_arena for memory that overlaps no arena; an area below the size of an
        arena header is ignored */
    method AddArena(base: nat, arenaSize: nat)
      requires Valid() && base % 8 == 0 && arenaSize % 8 == 0
      requires arenaSize < ARENA_HDR || arenaSize >= ARENA_HDR + HDR + 8
      requires forall i :: 0 <= i < |views| ==>
                 base + arenaSize <= views[i].start || views[i].start + Span(views[i].cells) <= base
      modifies this
      ensures Valid() && (arenaSize >= ARENA_HDR ==> |arenas| > 0 && fresh(arenas[0]) && arenas[1..] == old(arenas))
      ensures views == if arenaSize < ARENA_HDR then old(views)
                       else [View(base + ARENA_HDR, Cell(arenaSize - ARENA_HDR - HDR, true, End))] + old(views)
    {
      if arenaSize < ARENA_HDR {
        return;
      }
      var a := new Arena(base, arenaSize);
      PoolGrow(views, half, grants, View(a.start, a.cells));
      MatchesCons(a, arenas, views);
      arenas := [a] + arenas;
      views := [View(a.start, a.cells)] + views;
      half := Erased(half, a.start);
      grants := Shifted(grants);
    }

    /** One arena's turn in kmalloc. */
    method TryIn(i: nat, req: nat) returns (r: Option<nat>)
      requires Valid() && i < |arenas| && req > 0 && req % 8 == 0
      modifies this`half, this`views, arenas[i]
      ensures Valid()
      ensures Turn(old(views), views, old(half), half, i, req, r)
    {
      var mb, made := arenas[i].TryAlloc(req);
      if mb.Some? {
        PoolAllocate(views, half, grants, i, req);
        half := if made.Some? then Erased(half, made.value) else half;
        views := views[i := Served(views[i], req)];
        r := Some(mb.value + HDR);
      } else {
        r := None;
      }
    }

    /** kmalloc; `at` is the arena that served the request. A size that wraps in 32 bits gets a
        block that is too small, from where on the pool is not described any more. */
    method Malloc(size: nat, nowait: bool) returns (r: Result, ghost at: nat)
      requires Valid() && size < WORD
      modifies this`half, this`views, arenas
      ensures Valid()
      ensures r.Ptr? || r.Short? <==> size > 0 && !NoneServes(old(views), size)
      ensures r.Short? ==> size + 23 >= WORD
      ensures r.Ptr? ==> size + 23 < WORD
      ensures !r.Ptr? ==> half == old(half) && views == old(views)
      ensures !r.Ptr? && !r.Short? ==> r == if size == 0 || nowait then Null else Exhausted
      ensures r.Ptr? || r.Short? ==> FirstServing(old(views), at, size)
      ensures r.Short? ==>
                && TooSmall(old(views)[at], size)
                && r.p == FirstFit(old(views)[at].start, old(views)[at].cells, Wanted(size)).0 + HDR
      ensures r.Ptr? ==> Turn(old(views), views, old(half), half, at, Align8(size), Some(r.p))
    {
      at := 0;
      if size == 0 {
        return Null, 0;
      }
      var p: Option<nat>;
      if size + 23 < WORD {
        p, at := Search(size);
        r := if p.Some? then Ptr(p.value) else if nowait then Null else Exhausted;
      } else {
        p, at := SearchWrapped(size);
        r := if p.Some? then Short(p.value) else if nowait then Null else Exhausted;
      }
    }

    /** The loop of kmalloc, for a size that does not wrap */
    method Search(size: nat) returns (p: Option<nat>, ghost at: nat)
      requires Valid() && 0 < size && size + 23 < WORD
      modifies this`half, this`views, arenas
      ensures Valid()
      ensures p == None ==> half == old(half) && views == old(views) && NoneServes(old(views), size)
      ensures p.Some? ==>
                && FirstServing(old(views), at, size)
                && Turn(old(views), views, old(half), half, at, Align8(size), p)
    {
      at := 0;
      WantedIsEnough(size);
      var want := Align8(size);
      var i := 0;
      while i < |arenas|
        invariant 0 <= i <= |arenas| && Valid() && views == old(views) && half == old(half)
        invariant forall j :: 0 <= j < i ==> !Serves(old(views)[j], size)
      {
        p := TryIn(i, want);
        if p.Some? {
          assert Serves(old(views)[i], size);
          return p, i;
        }
        i := i + 1;
      }
      return None, 0;
    }

    /** The loop of kmalloc for a size that wraps: what find_entry finds for what is left of it */
    method SearchWrapped(size: nat) returns (p: Option<nat>, ghost at: nat)
      requires Valid() && size < WORD <= size + 23
      ensures p == None ==> NoneServes(views, size)
      ensures p.Some? ==>
                && FirstServing(views, at, size)
                && p.value == FirstFit(views[at].start, views[at].cells, Wanted(size)).0 + HDR
                && TooSmall(views[at], size)
    {
      at := 0;
      var total := Wanted(size);
      var i := 0;
      while i < |arenas|
        invariant 0 <= i <= |arenas|
        invariant forall j :: 0 <= j < i ==> !Serves(views[j], size)
      {
        var x := arenas[i].FindEntry(total);
        FindAgrees(arenas[i].mbSize, arenas[i].start, arenas[i].cells, total, x);
        if x < |arenas[i].freeblks| {
          AnyIsTooSmall(views[i], size);
          return Some(arenas[i].freeblks[x] + HDR), i;
        }
        i := i + 1;
      }
      return None, 0;
    }

    /** kmemalign for an alignment of 2^e; `g` is the block kmalloc gave. */
    method MemAlign(size: nat, al: nat, nowait: bool, ghost e: nat) returns (r: Result, ghost g: Grant)
      requires Valid() && al == Dyadic.Pow2(e) && size + al + TAG + 23 < WORD
      modifies this`half, this`views, this`grants, arenas
      ensures Valid()
      ensures !r.Ptr? ==>
                && views == old(views) && half == old(half) && grants == old(grants)
                && r == if nowait then Null else Exhausted
      ensures r.Ptr? || NoneServes(old(views), size + al + TAG)
      ensures r.Ptr? ==>
                && g.arena < |old(views)|
                && exists h ::
                     && Turn(old(views), views, old(half), h, g.arena, Align8(size + al + TAG), Some(g.ptr))
                     && half == AlignedHalf(h, g.ptr, e)
      ensures r.Ptr? ==> g.ptr >= HDR && (g.ptr - HDR, g.size) in Live(views[g.arena].start, views[g.arena].cells)
      ensures r.Ptr? ==> AlignedOk(half, g, r.p, size, al)
      ensures r.Ptr? ==> if g.ptr % al == 0 then r.p == g.ptr else r.p % al == 0 && g.ptr + 4 <= r.p < g.ptr + 4 + al
      ensures r.Ptr? ==> r.p == AlignedPtr(g.ptr, e) && grants == Granted(old(grants), r.p, g)
    {
      r, g := TakePadded(size + al + TAG, nowait);
      if !r.Ptr? {
        return;
      }
      var aligned := AlignUp(r.p, al, size, e, g);
      r := Ptr(aligned);
    }

    /** kmalloc for kmemalign, with what is known of the block */
    method TakePadded(padded: nat, nowait: bool) returns (r: Result, ghost g: Grant)
      requires Valid() && 0 < padded && padded + 23 < WORD
      modifies this`half, this`views, arenas
      ensures Valid()
      ensures !r.Ptr? ==> views == old(views) && half == old(half) && r == if nowait then Null else Exhausted
      ensures r.Ptr? || NoneServes(old(views), padded)
      ensures r.Ptr? ==>
                g.arena < |old(views)| && Turn(old(views), views, old(half), half, g.arena, Align8(padded), Some(g.ptr))
      ensures r.Ptr? ==>
                g.ptr == r.p >= HDR && (g.ptr - HDR, g.size) in Live(views[g.arena].start, views[g.arena].cells)
      ensures r.Ptr? ==> g.ptr % 8 == 0 && g.size >= padded && forall r' :: r' in grants ==> grants[r'].ptr != g.ptr
    {
      ghost var at;
      g := Grant(0, 0, 0);
      r, at := Malloc(padded, nowait);
      if r.Ptr? {
        ghost var v := old(views)[at];
        g := Grant(r.p, Given(FirstFit(v.start, v.cells, Align8(padded) + HDR).1, Align8(padded)), at);
        assert views[at] == Served(v, Align8(padded));
        NewBlock(old(views), old(half), grants, at, Align8(padded), g);
      }
    }

    /** The part of kmemalign that moves an unaligned pointer up and tags it */
    method AlignUp(ptr: nat, al: nat, ghost size: nat, ghost e: nat, ghost g: Grant) returns (p: nat)
      requires Valid() && al == Dyadic.Pow2(e) && ptr % 8 == 0 && g.ptr == ptr && size + al <= g.size
      requires g.arena < |views| && ptr >= HDR
      requires (ptr - HDR, g.size) in Live(views[g.arena].start, views[g.arena].cells)
      requires forall r :: r in grants ==> grants[r].ptr != ptr
      modifies this`half, this`grants
      ensures Valid() && AlignedOk(half, g, p, size, al)
      ensures p == AlignedPtr(ptr, e) && half == AlignedHalf(old(half), ptr, e) && grants == Granted(old(grants), p, g)
    {
      if ptr % al == 0 {
        TargetIsRight(views, half, grants);
        return ptr;
      }
      OffsetBelow(ptr, e);
      p := RoundUp(ptr + TAG, al);
      TagLeadsBack(half, g, p, size, al);
      PoolTag(views, half, grants, g, p, (p - ptr) % 0x10000);
      half := Tag(half, p, (p - ptr) % 0x10000);
      if p - ptr < 0x10000 { grants := grants[p := g]; }
    }

    /** An aligned pointer outlives later calls: after a further kmalloc kfree still recovers its block. */
    method AlignThenMalloc(size: nat, al: nat, other: nat, nowait: bool, ghost e: nat)
      returns (r: Result, ghost g: Grant)
      requires Valid() && al == Dyadic.Pow2(e) && size + al + TAG + 23 < WORD && other < WORD
      modifies this`half, this`views, this`grants, arenas
      ensures Valid() && (r.Ptr? && al <= 0x10000 ==> Target(half, r.p) == g.ptr)
      ensures r.Ptr? ==> g.arena < |views| && (g.ptr - HDR, g.size) in Live(views[g.arena].start, views[g.arena].cells)
    {
      r, g := MemAlign(size, al, nowait, e);
      ghost var vs, h := views, half;
      var r', at := Malloc(other, nowait);
      if r.Ptr? {
        if r'.Ptr? { StaysLive(vs, views, h, half, at, Align8(other), r'.p, g); }
        StillRecovers(views, half, grants, r.p, g);
      }
    }

    /** The arena whose range holds the payload address `p`; arenas do not overlap. */
    method FindArena(p: nat, ghost i: nat) returns (j: nat)
      requires Valid() && i < |arenas| && arenas[i].start <= p < arenas[i].start + arenas[i].size
      ensures j == i
    {
      forall x | 0 <= x < i
        ensures !(arenas[x].start <= p < arenas[x].start + arenas[x].size)
      {
        assert Apart(views[x], views[i]);
      }
      j := 0;
      while !(arenas[j].start <= p < arenas[j].start + arenas[j].size)
        invariant 0 <= j <= i
        decreases i - j
      {
        j := j + 1;
      }
    }

    /** kfree; the block of `addr` is a block of arena `i` */
    method Free(addr: nat, ghost i: nat) returns (r: Status)
      requires Valid() && i < |arenas| && Target(half, addr) >= HDR
      requires Target(half, addr) - HDR in Starts(views[i].start, views[i].cells)
      modifies this`half, this`views, this`grants, arenas
      ensures Valid()
      ensures Freed(old(views), views, i, Target(old(half), addr) - HDR, r)
      ensures grants == if r == Done then Without(old(grants), Target(old(half), addr)) else old(grants)
    {
      var mb := Target(half, addr) - HDR;
      StartInside(views[i].start, views[i].cells, mb);
      StartHeader(arenas[i].mbSize, views[i].start, views[i].cells, mb);
      var j := FindArena(mb + HDR, i);
      if At(arenas[j].mbSize, mb) >= 0 {
        return Corrupt;
      }
      PoolRelease(views, half, grants, i, mb);
      arenas[j].FreeBlock(mb);
      half := Erased(half, mb);
      grants := Without(grants, mb + HDR);
      views := views[i := View(views[i].start, Release(views[i].start, views[i].cells, mb))];
      return Done;
    }
  }

  /** The block an allocation hands out: in use now, of the size asked for, at a multiple
      of eight, and not the block of any grant. */
  lemma NewBlock(vs: seq<View>, half: map<nat, nat>, grants: map<nat, Grant>, i: nat, req: nat, g: Grant)
    requires PoolOk(vs, half, grants) && i < |vs| && Fits(vs[i].cells, req + HDR) && g.arena == i
    requires g.ptr == FirstFit(vs[i].start, vs[i].cells, req + HDR).0 + HDR
    requires g.size == Given(FirstFit(vs[i].start, vs[i].cells, req + HDR).1, req)
    ensures g.size >= req && g.ptr % 8 == 0
    ensures (g.ptr - HDR, g.size) in Live(vs[i].start, Allocate(vs[i].cells, req))
    ensures forall r :: r in grants ==> grants[r].ptr != g.ptr
  {
    var v := vs[i];
    AllocateLive(v.start, v.cells, req);
    PayloadAligned(vs, half, grants, i, req);
    forall r | r in grants ensures grants[r].ptr != g.ptr { GrantElsewhere(vs, half, grants, i, req, r); }
  }

  lemma PayloadAligned(vs: seq<View>, half: map<nat, nat>, grants: map<nat, Grant>, i: nat, req: nat)
    requires PoolOk(vs, half, grants) && i < |vs| && Fits(vs[i].cells, req + HDR)
    ensures (FirstFit(vs[i].start, vs[i].cells, req + HDR).0 + HDR) % 8 == 0
  {
    assert ViewOk(vs[i], half);
    FitAligned(vs[i].start, vs[i].cells, req + HDR);
    PlusHeader(FirstFit(vs[i].start, vs[i].cells, req + HDR).0);
  }

  lemma PlusHeader(a: nat)
    requires a % 8 == 0
    ensures (a + HDR) % 8 == 0
  {
  }

  /** The block that serves a request is no grant's block. */
  lemma GrantElsewhere(vs: seq<View>, half: map<nat, nat>, grants: map<nat, Grant>, i: nat, req: nat, r: nat)
    requires PoolOk(vs, half, grants) && i < |vs| && Fits(vs[i].cells, req + HDR) && r in grants
    ensures grants[r].ptr != FirstFit(vs[i].start, vs[i].cells, req + HDR).0 + HDR
  {
    var v, h := vs[i], grants[r];
    assert GrantOk(vs, half, r, grants[r]);
    var w := vs[h.arena];
    FirstFitApart(v.start, v.cells, req + HDR);
    LiveWithin(w.start, w.cells);
    assert h.arena != i ==> Apart(vs[h.arena], vs[i]);
  }

  /** What 32-bit arithmetic makes of a request: the bytes find_entry looks for. */
  function Wanted(size: nat): nat {
    (Align8(size) % WORD + HDR) % WORD
  }

  /** A block that find_entry accepts is large enough exactly for requests that, rounded up
      with a header, fit in 32 bits. */
  lemma WantedIsEnough(size: nat)
    requires 0 < size < WORD
    ensures Wanted(size) >= size + HDR <==> size + 23 < WORD
    ensures size + 23 < WORD ==> Wanted(size) == Align8(size) + HDR
  {
  }

  /** The first block of arena `v` that a wrapped request accepts is smaller than the size asked for,
      as every block of an arena in 32-bit memory is. */
  ghost predicate TooSmall(v: View, size: nat) {
    && Fits(v.cells, Wanted(size))
    && (v.start + Span(v.cells) <= WORD && v.start >= ARENA_HDR ==>
          FirstFit(v.start, v.cells, Wanted(size)).1 < size)
  }

  lemma AnyIsTooSmall(v: View, size: nat)
    requires Fits(v.cells, Wanted(size)) && size + 23 >= WORD
    ensures TooSmall(v, size)
  {
    FirstFitApart(v.start, v.cells, Wanted(size));
  }

  /** The header word for the block of a request: minus its size in 32 bits. */
  function HeaderWord(size: nat): nat { (WORD - Align8(size) % WORD) % WORD }

  /** A request that wraps looks for at most a header's worth of bytes, and the header word written
      for its block is not negative: kfree will not take the block for one in use. */
  lemma WrappedRequest(size: nat)
    requires size < WORD <= size + 23
    ensures Wanted(size) <= HDR && HeaderWord(size) <= HDR && Wanted(size) + HeaderWord(size) == HDR
  {
  }

  /** kfree releases a block in use and refuses a free one. */
  ghost predicate Freed(vs: seq<View>, vs': seq<View>, i: nat, mb: nat, r: Status)
    requires i < |vs|
  {
    var v := vs[i];
    if InUse(v.start, v.cells, mb)
    then r == Done && vs' == vs[i := View(v.start, Release(v.start, v.cells, mb))]
    else r == Corrupt && vs' == vs
  }

  lemma {:induction false} StartInside(base: nat, cs: Cells, a: nat)
    requires Good(cs) && a in Starts(base, cs)
    ensures base <= a && a + HDR < base + Span(cs)
    decreases cs
  {
    if a != base { StartInside(base + cs.size + HDR, cs.rest, a); }
  }

  /** A block header is negative exactly for a block in use. */
  lemma {:induction false} StartHeader(m: map<nat, int>, base: nat, cs: Cells, mb: nat)
    requires Headers(m, base, cs) && Good(cs) && mb in Starts(base, cs)
    ensures At(m, mb) < 0 <==> InUse(base, cs, mb)
    decreases cs
  {
    StartsWithin(base + cs.size + HDR, cs.rest);
    if base != mb { StartHeader(m, base + cs.size + HDR, cs.rest, mb); }
  }
}
