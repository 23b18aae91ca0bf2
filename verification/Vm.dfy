/** Address spaces over the frame allocator: vm_map_new, vm_map_add_entry, vm_page_fault,
    vm_map_resize, vm_map_clone and vm_map_delete with the pager, objects and page tables
    below them. Spaces are named by their ASID, which is never given out twice. */
module Vm {
  import opened Basics
  import opened BuddyBlocks
  import opened Held
  import opened PhysMem
  import opened VmSpace
  import M = VmMap
  import P = Pmap

  datatype NewResult = Created(id: nat) | NoAsid | NoRoom

  datatype Access = Read | Write

  datatype Op = NewMap | Add(id: nat, start: nat, end: nat, prot: nat) | Grow(id: nat, i: nat, end: nat)
              | Touch(id: nat, v: nat, access: Access) | Fork(id: nat) | Remove(id: nat)

  datatype FaultResult = Handled(frame: nat) | Segfault | AlreadyMapped | NoFrame

  predicate CanWrite(prot: nat) { prot % 4 >= 2 }

  predicate CanRead(prot: nat) { prot % 2 == 1 }

  /** The checks of vm_page_fault on the entry found. */
  predicate Allowed(prot: nat, access: Access) {
    prot != 0 && (access == Write ==> CanWrite(prot)) && (access == Read ==> CanRead(prot))
  }

  /** An entry covers the page and allows the access. */
  ghost predicate Permitted(es: Entries, v: nat, access: Access) {
    exists i :: 0 <= i < |es| && M.Covers(es[i], v) && Allowed(es[i].prot, access)
  }

  /** The protection has the bit for the access, VM_PROT_WRITE or VM_PROT_READ. */
  predicate HasBit(prot: nat, access: Access) {
    prot < 8 && if access == Write then P.WriteBit(prot) else P.ReadBit(prot)
  }

  lemma AllowedIffBit(prot: nat, access: Access)
    requires prot < 8
    ensures Allowed(prot, access) <==> HasBit(prot, access)
  {
    if prot == 0 || prot == 1 {
    } else if prot == 2 || prot == 3 {
    } else if prot == 4 || prot == 5 {
    } else {
      assert prot == 6 || prot == 7;
    }
  }

  /** An entry that covers the page has the bit for the access. */
  ghost predicate BitSet(es: Entries, v: nat, access: Access) {
    exists i :: 0 <= i < |es| && M.Covers(es[i], v) && HasBit(es[i].prot, access)
  }

  lemma PermittedIffBit(es: Entries, v: nat, access: Access)
    requires EntriesOk(es)
    ensures Permitted(es, v, access) <==> BitSet(es, v, access)
  {
    forall i | 0 <= i < |es| ensures Allowed(es[i].prot, access) <==> HasBit(es[i].prot, access) {
      AllowedIffBit(es[i].prot, access);
    }
  }

  /** The word of a page just faulted in lets the access through: it is valid, and dirty for a write. */
  ghost predicate LetsThrough(t: P.PageTable, v: nat, access: Access) {
    v in t.pte && P.IsValid(t.pte[v]) && (access == Write ==> t.pte[v] & P.PTE_DIRTY != 0)
  }

  lemma FaultedWord(was: map<nat, Space>, now: map<nat, Space>, id: nat, c: nat, v: nat, f: nat, access: Access)
    requires AllOk(now) && Paged(was, now, id, c, v, f) && HasBit(was[id].entries[c].prot, access)
    ensures LetsThrough(now[id].table, v, access)
  {
    assert SpaceOk(now[id]);
    var e, t := now[id].entries[c], now[id].table;
    var o := v - e.start;
    assert o in e.obj && WordMaps(t, e.start + o, e.obj[o], e.prot);
    P.EntryMeans(t, v, P.FrameAddr(f), e.prot, false);
    P.MaskedBits(t.pte[v]);
  }

  /** From `was` to `now` page `v`, in entry `c` of space `id`, got frame `f`. */
  ghost predicate Paged(was: map<nat, Space>, now: map<nat, Space>, id: nat, c: nat, v: nat, f: nat) {
    && id in was && id in now && now == was[id := now[id]] && now[id].dir == was[id].dir
    && c < |was[id].entries| && M.Covers(was[id].entries[c], v)
    && now[id].entries == PagedIn(was[id], c, v - was[id].entries[c].start, f).entries
  }

  /** The page is in the object and in the table. */
  lemma FillDone(was: map<nat, Space>, now: map<nat, Space>, id: nat, c: nat, v: nat, f: nat)
    requires AllOk(was) && id in was && id in now && c < |was[id].entries| && M.Covers(was[id].entries[c], v)
    requires v - was[id].entries[c].start !in was[id].entries[c].obj
    requires now == was[id := PagedIn(was[id], c, v - was[id].entries[c].start, f).(table := now[id].table)]
    requires P.Ok(now[id].table) && WordMaps(now[id].table, v, f, was[id].entries[c].prot)
    requires OnlyWord(was[id].table, now[id].table, v)
    ensures AllOk(now) && Paged(was, now, id, c, v, f)
  {
    FaultEnd(was, id, c, v, f, now[id].table);
  }

  function WithObject(sp: Space, o: VmObject): Space
    requires sp.entries != []
  {
    sp.(entries := sp.entries[0 := sp.entries[0].(obj := o)])
  }

  lemma ObjectFacts(sp: Space, left: VmObject, o: nat)
    requires sp.entries != [] && o in left
    ensures PagedOut(WithObject(sp, left), o) == WithObject(sp, left - {o})
  {
  }

  lemma SameObject(sp: Space)
    requires sp.entries != []
    ensures WithObject(sp, sp.entries[0].obj) == sp
  {
  }

  function WithoutFragment(sp: Space): Space
    requires sp.table.frags != []
  {
    sp.(table := sp.table.(frags := sp.table.frags[1..]))
  }

  lemma AllOkRemove(spaces: map<nat, Space>, id: nat)
    requires AllOk(spaces)
    ensures AllOk(spaces - {id})
  {
    forall x | x in spaces - {id} ensures SpaceOk((spaces - {id})[x]) { assert SpaceOk(spaces[x]); }
  }

  /** All spaces but `id` keep their frames and the contents of these. */
  ghost predicate KeptElsewhere(h: Holder, g: Holder, id: nat, m: seq<int>, m': seq<int>) {
    SameElsewhere(h, g, id) && |m| == |m'| && forall f :: f in h && h[f].id != id && f < |m| ==> m'[f] == m[f]
  }

  /** Why the kernel stops at `op` though frames are free: no ASID is left, the page touched is
      mapped already, or the fork meets a page it cannot write. */
  ghost predicate Stops(op: Op, spaces: map<nat, Space>, asids: nat) {
    || ((op.NewMap? || op.Fork?) && asids >= MAX_ASID)
    || (op.Touch? && op.id in spaces && Backed(spaces[op.id].entries, op.v))
    || (op.Fork? && op.id in spaces
        && exists i :: 0 <= i < |spaces[op.id].entries| && Unwritable(spaces[op.id].entries[i]))
  }

  /** The spaces and the next ASID. */
  datatype Snapshot = Snapshot(spaces: map<nat, Space>, asids: nat)

  /** What operation `op` does to the spaces; one its caller may not ask for does nothing. */
  ghost predicate Did(op: Op, was: Snapshot, now: Snapshot) {
    match op
    case NewMap => Made(was, now) && now.spaces[was.asids].entries == []
    case Add(id, start, end, prot) =>
      && now.asids == was.asids
      && now.spaces == if MayAdd(was.spaces, id, start, end, prot) && start !in M.Starts(was.spaces[id].entries)
                       then was.spaces[id := Entered(was.spaces[id], start, end, prot)] else was.spaces
    case Grow(id, i, end) =>
      && now.asids == was.asids
      && now.spaces == if MayGrow(was.spaces, id, i, end) && M.Fits(was.spaces[id].entries, i, end, USER_END)
                       then was.spaces[id := Resized(was.spaces[id], i, end)] else was.spaces
    case Touch(id, v, access) =>
      && now.asids == was.asids
      && if id in was.spaces && Permitted(was.spaces[id].entries, v, access)
         then exists c, f :: Paged(was.spaces, now.spaces, id, c, v, f) else now.spaces == was.spaces
    case Fork(id) =>
      if id in was.spaces
      then Made(was, now) && SameShape(was.spaces[id].entries, now.spaces[was.asids].entries) else now == was
    case Remove(id) => now == Snapshot(was.spaces - {id}, was.asids)
  }

  /** One space was added, under the next ASID. */
  ghost predicate Made(was: Snapshot, now: Snapshot) {
    && was.asids in now.spaces && now.spaces == was.spaces[was.asids := now.spaces[was.asids]]
    && now.asids == was.asids + 1
  }

  predicate MayAdd(spaces: map<nat, Space>, id: nat, start: nat, end: nat, prot: nat) {
    id in spaces && start <= end <= USER_END && start < USER_END && prot < 8 && M.Clear(spaces[id].entries, start, end)
  }

  predicate MayGrow(spaces: map<nat, Space>, id: nat, i: nat, end: nat) {
    id in spaces && i < |spaces[id].entries| && spaces[id].entries[i].end <= end
  }

  /** The same ranges and protections, with the same pages present. */
  ghost predicate SameShape(es: Entries, ns: Entries) {
    |ns| == |es| && forall i :: 0 <= i < |es| ==> SameEntry(es[i], ns[i])
  }

  ghost predicate SameEntry(e: M.VmEntry<VmObject>, n: M.VmEntry<VmObject>) {
    n.start == e.start && n.end == e.end && n.prot == e.prot && n.obj.Keys == e.obj.Keys
  }

  lemma CopiedShape(es: Entries, ns: Entries, m: seq<int>, m': seq<int>)
    requires |es| == |ns| && Copied(es, ns, m, m')
    ensures SameShape(es, ns)
  {
    forall i | 0 <= i < |es| ensures SameEntry(es[i], ns[i]) { assert CopiedEntry(es[i], ns[i], m, m'); }
  }

  // --------------------------------------------------------------- cloning

  /** An entry with pages whose copies cannot be written. */
  predicate Unwritable(e: M.VmEntry<VmObject>) { e.obj != map[] && !Allowed(e.prot, Write) }

  /** Such an entry has pages and lacks VM_PROT_WRITE. */
  lemma UnwritableIffBit(e: M.VmEntry<VmObject>)
    requires e.prot < 8
    ensures Unwritable(e) <==> e.obj != map[] && !P.WriteBit(e.prot)
  {
    AllowedIffBit(e.prot, Write);
  }

  datatype CloneResult = Cloned(id: nat) | Refused | CloneNoAsid | CloneNoFrame

  /** The pages `done` of entry `e` have copies of their contents in entry `n`. */
  ghost predicate CopiedPages(e: M.VmEntry<VmObject>, n: M.VmEntry<VmObject>, m: seq<int>, m': seq<int>,
          done: set<nat>) {
    && n.obj.Keys == done && done <= e.obj.Keys
    && forall o :: o in done ==> e.obj[o] < |m| && n.obj[o] < |m'| && m'[n.obj[o]] == m[e.obj[o]]
  }

  /** Entry `n` is a copy of `e`: same range and protection, same pages present, equal contents. */
  ghost predicate CopiedEntry(e: M.VmEntry<VmObject>, n: M.VmEntry<VmObject>, m: seq<int>, m': seq<int>) {
    n.start == e.start && n.end == e.end && n.prot == e.prot && CopiedPages(e, n, m, m', e.obj.Keys)
  }

  ghost predicate Copied(es: Entries, ns: Entries, m: seq<int>, m': seq<int>) {
    |ns| <= |es| && forall i :: 0 <= i < |ns| ==> CopiedEntry(es[i], ns[i], m, m')
  }

  /** What was held stays held where it was, with its contents. */
  ghost predicate Extends(h: Holder, g: Holder, m: seq<int>, m': seq<int>) {
    |m| == |m'| && forall f {:trigger f in h} :: f in h ==> f in g && g[f] == h[f] && (f < |m| ==> m'[f] == m[f])
  }

  lemma ExtendsTrans(h: Holder, g: Holder, k: Holder, m: seq<int>, m': seq<int>, m'': seq<int>)
    requires Extends(h, g, m, m') && Extends(g, k, m', m'')
    ensures Extends(h, k, m, m'')
  {
    forall f | f in h ensures f in k && k[f] == h[f] && (f < |m| ==> m''[f] == m[f]) { assert f in g; }
  }

  /** All pages of the entries are held, in frames there are. */
  ghost predicate AllHeld(ns: Entries, h: Holder, n: nat) {
    forall i, o :: 0 <= i < |ns| && o in ns[i].obj ==> ns[i].obj[o] in h && ns[i].obj[o] < n
  }

  lemma HeldPages(spaces: map<nat, Space>, h: Holder, id: nat, n: nat)
    requires Owns(spaces, h) && id in spaces && forall f :: f in h ==> f < n
    ensures AllHeld(spaces[id].entries, h, n)
  {
    assert Local(id, spaces[id], h);
    var ns := spaces[id].entries;
    forall i, o | 0 <= i < |ns| && o in ns[i].obj
      ensures ns[i].obj[o] in h
    {
      assert IsAt(h, ns[i].obj[o], PageOf(id, ns[i].start, o));
    }
  }

  /** No page of the entries is in a frame that `h` has. */
  ghost predicate Unshared(ns: Entries, h: Holder) {
    forall i, o :: 0 <= i < |ns| && o in ns[i].obj ==> ns[i].obj[o] !in h
  }

  /** A space that came later shares no frame with those before. */
  lemma NotShared(was: map<nat, Space>, h: Holder, now: map<nat, Space>, g: Holder, n: nat, m: seq<int>, m': seq<int>)
    requires Owns(was, h) && n !in was && Owns(now, g) && n in now && Extends(h, g, m, m')
    ensures Unshared(now[n].entries, h)
  {
    assert Local(n, now[n], g);
    var ns := now[n].entries;
    forall i, o | 0 <= i < |ns| && o in ns[i].obj ensures ns[i].obj[o] !in h {
      assert IsAt(g, ns[i].obj[o], PageOf(n, ns[i].start, o));
    }
  }

  /** Copies stay copies while other frames are written. */
  lemma CopiedKept(es: Entries, ns: Entries, h: Holder, g: Holder, m: seq<int>, m': seq<int>, m'': seq<int>)
    requires Copied(es, ns, m, m') && AllHeld(ns, h, |m'|) && Extends(h, g, m', m'')
    ensures Copied(es, ns, m, m'')
  {
    forall i | 0 <= i < |ns| ensures CopiedEntry(es[i], ns[i], m, m'') {
      assert CopiedEntry(es[i], ns[i], m, m');
      forall o | o in es[i].obj.Keys
        ensures es[i].obj[o] < |m| && ns[i].obj[o] < |m''| && m''[ns[i].obj[o]] == m[es[i].obj[o]]
      {
        assert o in ns[i].obj.Keys && ns[i].obj[o] in h;
      }
    }
  }

  lemma CopiedNext(e: M.VmEntry<VmObject>, n: M.VmEntry<VmObject>, h: Holder, m: seq<int>, m': seq<int>,
          done: set<nat>, o: nat, f: nat)
    requires CopiedPages(e, n, m, m', done) && o in e.obj && o !in done && e.obj[o] < |m| == |m'|
    requires m'[e.obj[o]] == m[e.obj[o]]
    requires f < |m'| && f !in h && forall x :: x in n.obj ==> n.obj[x] in h
    ensures CopiedPages(e, WithPage(n, o, f), m, m'[f := m'[e.obj[o]]], done + {o})
  {
  }

  /** From `was` to `now` only entry `k` of space `n` changed: it got copies of the pages `done` of `e`. */
  ghost predicate Copying(was: map<nat, Space>, now: map<nat, Space>, n: nat, k: nat, e: M.VmEntry<VmObject>,
          m: seq<int>, m': seq<int>, done: set<nat>) {
    && n in was && n in now && now == was[n := now[n]]
    && k < |now[n].entries| == |was[n].entries| && now[n].entries == was[n].entries[k := now[n].entries[k]]
    && now[n].entries[k] == M.VmEntry(e.start, e.end, e.prot, now[n].entries[k].obj)
    && CopiedPages(e, now[n].entries[k], m, m', done)
  }

  /** The source pages of `e` as they were. */
  ghost predicate Sources(e: M.VmEntry<VmObject>, h: Holder, m: seq<int>) {
    forall o :: o in e.obj ==> e.start + o < e.end && e.obj[o] in h && e.obj[o] < |m|
  }

  lemma CopyingNext(was: map<nat, Space>, now: map<nat, Space>, next: map<nat, Space>, n: nat, k: nat,
          e: M.VmEntry<VmObject>,
                    h0: Holder, h: Holder, m: seq<int>, m': seq<int>, done: set<nat>, o: nat, f: nat)
    requires Copying(was, now, n, k, e, m, m', done) && Sources(e, h0, m) && Extends(h0, h, m, m') && o in e.obj
    requires o !in done
    requires AllHeld(now[n].entries, h, |m'|) && f !in h && f < |m'|
    requires n in next && next == now[n := next[n]] && next[n].entries == PagedIn(now[n], k, o, f).entries
    ensures Copying(was, next, n, k, e, m, m'[f := m'[e.obj[o]]], done + {o})
  {
    CopiedNext(e, now[n].entries[k], h, m, m', done, o, f);
  }

  /** vm_map_insert_entry refuses an address exactly when an entry starts there. */
  lemma StartTaken(spaces: map<nat, Space>, h: Holder, id: nat, start: nat)
    requires StateOk(spaces, h) && id in spaces && start < USER_END
    ensures M.Same(M.Starts(spaces[id].entries), start).Some? <==> start in M.Starts(spaces[id].entries)
  {
    assert SpaceOk(spaces[id]);
    M.SameStart(spaces[id].entries, start, 0, USER_END);
  }

  /** A copied entry goes to the end of the new list. */
  lemma Appended(es: Entries, ns: Entries, k: nat, e: M.VmEntry<VmObject>)
    requires EntriesOk(es) && k == |ns| < |es|
    requires forall i :: 0 <= i < k ==> ns[i].start == es[i].start && ns[i].end == es[i].end
    requires e.start == es[k].start && e.end == es[k].end
    ensures e.start !in M.Starts(ns) && M.Clear(ns, e.start, e.end)
    ensures M.InsertedAt(ns, M.Next(M.Starts(ns), e.start), e) == ns + [e]
  {
    var s := M.Starts(ns);
    forall i | 0 <= i < |s| ensures s[i] < e.start { assert es[i].start < es[k].start; }
    M.NextOrdered(s, e.start, 0);
    assert M.Next(s, e.start) == |s|;
  }

  /** From `was` to `now` space `n` was made and got copies of the first `k` entries of `es`. */
  ghost predicate Cloning(es: Entries, was: map<nat, Space>, now: map<nat, Space>, n: nat, k: nat, m: seq<int>,
          m': seq<int>) {
    n in now && now == was[n := now[n]] && |now[n].entries| == k && Copied(es, now[n].entries, m, m')
  }

  ghost predicate AllSources(es: Entries, h: Holder, m: seq<int>) {
    forall i {:trigger Sources(es[i], h, m)} :: 0 <= i < |es| ==> Sources(es[i], h, m)
  }

  lemma SpaceSources(spaces: map<nat, Space>, h: Holder, id: nat, m: seq<int>)
    requires StateOk(spaces, h) && id in spaces && forall f :: f in h ==> f < |m|
    ensures EntriesOk(spaces[id].entries) && AllSources(spaces[id].entries, h, m)
  {
    HeldPages(spaces, h, id, |m|);
    assert SpaceOk(spaces[id]);
  }

  lemma SourcesKept(e: M.VmEntry<VmObject>, h: Holder, g: Holder, m: seq<int>, m': seq<int>)
    requires Sources(e, h, m) && Extends(h, g, m, m')
    ensures Sources(e, g, m') && forall o :: o in e.obj ==> m'[e.obj[o]] == m[e.obj[o]]
  {
  }

  lemma CloningAdds(es: Entries, ns: Entries, k: nat, m: seq<int>, m': seq<int>)
    requires EntriesOk(es) && k == |ns| < |es| && Copied(es, ns, m, m')
    ensures es[k].start !in M.Starts(ns) && M.Clear(ns, es[k].start, es[k].end) && es[k].start <= es[k].end <= USER_END
    ensures es[k].start < USER_END && es[k].prot < 8
    ensures var e := M.VmEntry(es[k].start, es[k].end, es[k].prot, map[]);
            M.InsertedAt(ns, M.Next(M.Starts(ns), e.start), e) == ns + [e]
  {
    forall i | 0 <= i < k
      ensures ns[i].start == es[i].start && ns[i].end == es[i].end
    {
      assert CopiedEntry(es[i], ns[i], m, m');
    }
    Appended(es, ns, k, M.VmEntry(es[k].start, es[k].end, es[k].prot, map[]));
  }

  lemma CloningNext(es: Entries, ns: Entries, r: Entries, k: nat, h: Holder, g: Holder, m: seq<int>, m': seq<int>,
          m'': seq<int>)
    requires k == |ns| < |es| && Copied(es, ns, m, m') && AllHeld(ns, h, |m'|) && Extends(h, g, m', m'')
    requires |r| == k + 1 && r[..k] == ns && CopiedEntry(es[k], r[k], m', m'') && |m| == |m'|
    requires forall o :: o in es[k].obj ==> es[k].obj[o] < |m| && m'[es[k].obj[o]] == m[es[k].obj[o]]
    ensures Copied(es, r, m, m'')
  {
    CopiedKept(es, ns, h, g, m, m', m'');
    forall i | 0 <= i < |r| ensures CopiedEntry(es[i], r[i], m, m'') {
      if i < k { assert r[i] == ns[i]; }
    }
  }

  /** Every free frame reads zero. */
  ghost predicate ZeroFree(s: Seg, m: seq<int>) {
    forall f: nat {:trigger FreeFrame(s, f)} :: FreeFrame(s, f) && f < |m| ==> m[f] == 0
  }

  lemma TakeZero(s: Seg, m: seq<int>)
    requires Inv(s) && Alloc(s, 0).Some? && ZeroFree(s, m)
    ensures ZeroFree(Alloc(s, 0).value.0, m)
  {
    AllocKeeps(s, 0);
    var t := Alloc(s, 0).value.0;
    forall f: nat | FreeFrame(t, f) ensures FreeFrame(s, f) {}
  }

  lemma GiveZero(s: Seg, m: seq<int>, q: nat)
    requires Inv(s) && IsBlock(s, q, 0, false) && ZeroFree(s, m) && q < |m|
    ensures ZeroFree(Free(s, q), m[q := 0])
  {
    FreeKeeps(s, q);
    var t := Free(s, q);
    forall f: nat | FreeFrame(t, f) ensures f == q || FreeFrame(s, f) {}
  }

  lemma WriteZero(s0: Seg, s: Seg, held: set<nat>, m: seq<int>, q: nat, x: int)
    requires Holding(s0, s, held) && q in held && q < |m| && ZeroFree(s, m)
    ensures ZeroFree(s, m[q := x])
  {
    assert FrameHeld(s0, s, held, q);
  }

  ghost predicate NoneFree(s: Seg) { forall f: nat :: !FreeFrame(s, f) }

  class Vm {
    const phys: Segment
    ghost const s0: Seg
    /** Whether memory was clear at the start wherever it was free. */
    ghost const clear: bool
    var spaces: map<nat, Space>
    var active: Option<nat>
    var asids: nat
    /** The contents of each frame. */
    var mem: seq<int>
    ghost var holder: Holder

    /** Frames taken since the start are exactly those held, each in one place. */
    ghost predicate Owned()
      reads this, phys, phys.pages
    {
      && phys.Valid() && Holding(s0, phys.View(), holder.Keys) && Owns(spaces, holder)
      && |mem| == phys.pages.Length && (clear ==> ZeroFree(phys.View(), mem))
      && forall id :: id in spaces ==> id < asids
    }

    ghost predicate Valid()
      reads this, phys, phys.pages
    {
      Owned() && AllOk(spaces)
    }

    /** No address space yet; the frames `seg` has handed out before stay apart. */
    constructor (seg: Segment, firstAsid: nat, contents: seq<int>)
      requires seg.Valid() && |contents| == seg.pages.Length
      ensures Valid() && phys == seg && s0 == seg.View() && spaces == map[] && active == None && asids == firstAsid
      ensures mem == contents
      ensures clear <==> ZeroFree(s0, contents)
    {
      phys, spaces, active, asids, mem := seg, map[], None, firstAsid, contents;
      s0, holder, clear := seg.View(), map[], ZeroFree(seg.View(), contents);
      new;
      assert holder.Keys == {};
    }

    /** pm_alloc(1) */
    method TakeFrame(ghost held: set<nat>) returns (r: Option<nat>)
      requires phys.Valid() && Holding(s0, phys.View(), held)
      modifies phys`freeq, phys`owner, phys.pages
      ensures phys.Valid()
      ensures r.None? ==> phys.View() == old(phys.View()) && NoneFree(phys.View())
      ensures r.Some? ==>
                && r.value < 0x8000 && r.value < phys.pages.Length && r.value !in held
                && FreeFrame(old(phys.View()), r.value)
      ensures r.Some? ==> Holding(s0, phys.View(), held + {r.value})
      ensures ZeroFree(old(phys.View()), mem) ==> ZeroFree(phys.View(), mem)
    {
      ghost var s := phys.View();
      FramesFit(s);
      NoneLeft(s);
      if Alloc(s, 0).Some? {
        TakeOne(s0, s, held);
        AllocKeeps(s, 0);
        if ZeroFree(s, mem) { TakeZero(s, mem); }
      }
      r := phys.AllocFromSeg(1, 0);
    }

    /** pm_free of a frame, which clears it */
    method GiveFrame(f: nat, ghost held: set<nat>)
      requires phys.Valid() && Holding(s0, phys.View(), held) && f in held && |mem| == phys.pages.Length
      modifies phys`freeq, phys`owner, phys.pages, this`mem
      ensures phys.Valid() && Holding(s0, phys.View(), held - {f})
      ensures f < |old(mem)| && mem == old(mem)[f := 0]
      ensures old(ZeroFree(phys.View(), mem)) ==> ZeroFree(phys.View(), mem)
    {
      GiveOne(s0, phys.View(), held, f);
      if ZeroFree(phys.View(), mem) { GiveZero(phys.View(), mem, f); }
      var status := phys.FreeFromSeg(f);
      mem := mem[f := 0];
    }

    /** vm_map_new */
    method New() returns (r: NewResult)
      requires Valid()
      modifies this`spaces, this`asids, this`holder, phys`freeq, phys`owner, phys.pages
      ensures r.Created? ==> Valid() && old(asids) == r.id < MAX_ASID && r.id !in old(spaces) && asids == r.id + 1
      ensures r.Created? ==> r.id in spaces && spaces == old(spaces)[r.id := spaces[r.id]] && spaces[r.id].entries == []
      ensures r.Created? ==> Extends(old(holder), holder, mem, mem)
      ensures r == NoAsid ==> old(asids) >= MAX_ASID
      ensures r == NoRoom ==> NoneFree(phys.View())
    {
      var dir := TakeFrame(holder.Keys);
      if dir == None {
        return NoRoom;
      }
      if asids >= MAX_ASID {
        return NoAsid;
      }
      var table := P.Setup();
      P.EmptyOk();
      var id, sp := asids, Space([], dir.value, table);
      NewStep(spaces, holder, id, dir.value, table);
      KeysAdd(holder, dir.value, Directory(id));
      spaces, holder, asids := spaces[id := sp], holder[dir.value := Directory(id)], asids + 1;
      return Created(id);
    }

    /** vm_map_activate */
    method Activate(id: Option<nat>) returns (was: Option<nat>)
      modifies this`active
      ensures active == id && was == old(active)
    {
      was := active;
      active := id;
    }

    /** vm_map_add_entry with a fresh object, clear of the other entries */
    method AddEntry(id: nat, start: nat, end: nat, prot: nat) returns (ok: bool)
      requires Valid() && id in spaces && start <= end <= USER_END && start < USER_END && prot < 8
      requires M.Clear(spaces[id].entries, start, end)
      modifies this`spaces
      ensures Valid()
      ensures ok <==> start !in M.Starts(old(spaces)[id].entries)
      ensures !ok ==> spaces == old(spaces)
      ensures ok ==> spaces == old(spaces)[id := Entered(old(spaces)[id], start, end, prot)]
      ensures ok ==> id in spaces && exists i ::
                  M.IsInserted(old(spaces)[id].entries, i, M.VmEntry(start, end, prot, map[]), spaces[id].entries)
    {
      StartTaken(spaces, holder, id, start);
      if M.Same(M.Starts(spaces[id].entries), start).Some? {
        return false;
      }
      AddEntryStep(spaces, holder, id, start, end, prot);
      ghost var es := spaces[id].entries;
      spaces := spaces[id := Entered(spaces[id], start, end, prot)];
      assert M.IsInserted(es, M.Next(M.Starts(es), start), M.VmEntry(start, end, prot, map[]), spaces[id].entries);
      return true;
    }

    /** vm_map_resize */
    method Resize(id: nat, i: nat, end: nat) returns (ok: bool)
      requires Valid() && id in spaces && i < |spaces[id].entries| && spaces[id].entries[i].end <= end
      modifies this`spaces
      ensures Valid()
      ensures ok <==> M.Fits(old(spaces)[id].entries, i, end, USER_END)
      ensures var es := old(spaces)[id].entries;
              ok <==> end <= USER_END && M.Clear(es[..i] + es[i + 1..], es[i].start, end)
      ensures spaces == if ok then old(spaces)[id := Resized(old(spaces)[id], i, end)] else old(spaces)
    {
      var sp := spaces[id];
      assert SpaceOk(spaces[id]);
      M.FitsIff(sp.entries, i, end, 0, USER_END);
      ok := M.Fits(sp.entries, i, end, USER_END);
      if ok {
        ResizeStep(spaces, holder, id, i, end);
        spaces := spaces[id := Resized(sp, i, end)];
      }
    }

    /** default_pager_fault */
    method PagerFault(id: nat, c: nat, o: nat) returns (r: Option<nat>)
      requires Owned() && id in spaces && c < |spaces[id].entries| && o !in spaces[id].entries[c].obj
      modifies this`spaces, this`holder, phys`freeq, phys`owner, phys.pages
      ensures Owned()
      ensures r.None? ==> spaces == old(spaces) && NoneFree(phys.View())
      ensures r.Some? ==>
                r.value < 0x8000 && FreeFrame(old(phys.View()), r.value) && r.value < |mem| && r.value !in old(holder)
      ensures r.Some? ==>
                && spaces == old(spaces)[id := PagedIn(old(spaces)[id], c, o, r.value)] && r.value in holder
                && (clear ==> mem[r.value] == 0)
      ensures Extends(old(holder), holder, mem, mem)
    {
      r := TakeFrame(holder.Keys);
      if r.Some? {
        ghost var p := PageOf(id, spaces[id].entries[c].start, o);
        PageOwns(spaces, holder, id, c, o, r.value);
        KeysAdd(holder, r.value, p);
        spaces, holder := spaces[id := PagedIn(spaces[id], c, o, r.value)], holder[r.value := p];
      }
    }

    /** pmap_set_pte for one user page */
    method EnterPage(id: nat, v: nat, f: nat, prot: nat) returns (ok: bool)
      requires Owned() && id in spaces && P.Ok(spaces[id].table) && v < USER_END && f < PAGES && 0 < prot < 8
      modifies this`spaces, this`holder, phys`freeq, phys`owner, phys.pages
      ensures Owned()
      ensures !ok ==> spaces == old(spaces) && NoneFree(phys.View())
      ensures ok ==> id in spaces && spaces == old(spaces)[id := old(spaces)[id].(table := spaces[id].table)]
      ensures ok ==>
                && P.Ok(spaces[id].table) && WordMaps(spaces[id].table, v, f, prot)
                && OnlyWord(old(spaces)[id].table, spaces[id].table, v)
      ensures Extends(old(holder), holder, mem, mem)
    {
      var sp, g := spaces[id], 0;
      if NeedsFragment(sp.table, v) {
        var r := TakeFrame(holder.Keys);
        if r == None {
          return false;
        }
        g := r.value;
      }
      var u := P.SetPte(sp.table, v, P.FrameAddr(f), prot, g);
      EnterWord(sp.table, v, f, prot, g, u);
      if NeedsFragment(sp.table, v) {
        FragmentOwns(spaces, holder, id, u, g);
        KeysAdd(holder, g, Fragment(id));
        holder := holder[g := Fragment(id)];
      } else {
        TableOwns(spaces, holder, id, u);
      }
      spaces := spaces[id := sp.(table := u)];
      return true;
    }

    /** vm_page_fault on the active map, whose page table is the one in reach */
    method PageFault(id: nat, v: nat, access: Access) returns (r: FaultResult)
      requires Valid() && id in spaces && active == Some(id)
      modifies this`spaces, this`holder, phys`freeq, phys`owner, phys.pages
      ensures r != NoFrame ==> Valid()
      ensures r == Segfault <==> !Permitted(old(spaces)[id].entries, v, access)
      ensures r == Segfault <==> !BitSet(old(spaces)[id].entries, v, access)
      ensures r.Handled? ==> id in spaces && LetsThrough(spaces[id].table, v, access)
      ensures r == AlreadyMapped
         <==> Permitted(old(spaces)[id].entries, v, access) && Backed(old(spaces)[id].entries, v)
      ensures r == Segfault || r == AlreadyMapped ==> spaces == old(spaces) && phys.View() == old(phys.View())
      ensures r == NoFrame ==> NoneFree(phys.View())
      ensures r.Handled? ==> exists c :: Paged(old(spaces), spaces, id, c, v, r.frame)
      ensures r.Handled? ==>
                FreeFrame(old(phys.View()), r.frame) && r.frame < |mem| && r.frame in holder && r.frame !in old(holder)
      ensures r.Handled? && clear ==> mem[r.frame] == 0
      ensures Extends(old(holder), holder, mem, mem)
    {
      var sp := spaces[id];
      assert SpaceOk(spaces[id]);
      PermittedIffBit(sp.entries, v, access);
      var c := M.Covering(sp.entries, v, 0);
      if c == None {
        return Segfault;
      }
      FaultStart(spaces, id, c.value, v);
      if !Allowed(sp.entries[c.value].prot, access) {
        return Segfault;
      }
      AllowedIffBit(sp.entries[c.value].prot, access);
      r := Resolve(id, c.value, v);
      if r.Handled? { FaultedWord(old(spaces), spaces, id, c.value, v, r.frame, access); }
    }

    /** vm_page_fault once the entry is found and allows the access */
    method Resolve(id: nat, c: nat, v: nat) returns (r: FaultResult)
      requires Valid() && id in spaces && c < |spaces[id].entries| && M.Covers(spaces[id].entries[c], v)
      requires spaces[id].entries[c].prot != 0
      modifies this`spaces, this`holder, phys`freeq, phys`owner, phys.pages
      ensures r != Segfault && (r != NoFrame ==> Valid())
      ensures r == AlreadyMapped <==> v - old(spaces)[id].entries[c].start in old(spaces)[id].entries[c].obj
      ensures r == AlreadyMapped ==> spaces == old(spaces) && phys.View() == old(phys.View())
      ensures r == NoFrame ==> NoneFree(phys.View())
      ensures r.Handled? ==> Paged(old(spaces), spaces, id, c, v, r.frame)
      ensures r.Handled? ==>
                FreeFrame(old(phys.View()), r.frame) && r.frame < |mem| && r.frame in holder && r.frame !in old(holder)
      ensures r.Handled? && clear ==> mem[r.frame] == 0
      ensures Extends(old(holder), holder, mem, mem)
    {
      FaultStart(spaces, id, c, v);
      if v - spaces[id].entries[c].start in spaces[id].entries[c].obj {
        assert Live(spaces[id].table, v);  // so pmap_map panics
        return AlreadyMapped;
      }
      var f := Fill(id, c, v);
      return if f.Some? then Handled(f.value) else NoFrame;
    }

    /** vm_page_fault for a page the object does not have: default_pager_fault, then pmap_map */
    method Fill(id: nat, c: nat, v: nat) returns (r: Option<nat>)
      requires Valid() && id in spaces && c < |spaces[id].entries| && M.Covers(spaces[id].entries[c], v)
      requires spaces[id].entries[c].prot != 0
      requires v - spaces[id].entries[c].start !in spaces[id].entries[c].obj
      modifies this`spaces, this`holder, phys`freeq, phys`owner, phys.pages
      ensures r == None ==> NoneFree(phys.View())
      ensures r.Some? ==> Valid() && Paged(old(spaces), spaces, id, c, v, r.value)
      ensures r.Some? ==>
                FreeFrame(old(phys.View()), r.value) && r.value < |mem| && r.value in holder && r.value !in old(holder)
      ensures r.Some? && clear ==> mem[r.value] == 0
      ensures Extends(old(holder), holder, mem, mem)
    {
      FaultStart(spaces, id, c, v);
      var o, prot := v - spaces[id].entries[c].start, spaces[id].entries[c].prot;
      r := PagerFault(id, c, o);
      if r == None {
        return;
      }
      assert !Live(spaces[id].table, v);
      var ok := EnterPage(id, v, r.value, prot);
      if !ok {
        return None;
      }
      FillDone(old(spaces), spaces, id, c, v, r.value);
    }

    /** One turn of vm_object_free on the first entry's object */
    method DropPage(id: nat, o: nat)
      requires Owned() && id in spaces && M.Sorted(spaces[id].entries) && spaces[id].entries != []
      requires o in spaces[id].entries[0].obj
      modifies this`spaces, this`holder, this`mem, phys`freeq, phys`owner, phys.pages
      ensures Owned() && spaces == old(spaces)[id := PagedOut(old(spaces)[id], o)]
      ensures KeptElsewhere(old(holder), holder, id, old(mem), mem)
    {
      var f := spaces[id].entries[0].obj[o];
      DropPageOwns(spaces, holder, id, o);
      KeysDrop(holder, f);
      GiveFrame(f, holder.Keys);
      spaces, holder := spaces[id := PagedOut(spaces[id], o)], holder - {f};
    }

    /** vm_object_free of the first entry's object */
    method Drain(id: nat)
      requires Owned() && id in spaces && M.Sorted(spaces[id].entries) && spaces[id].entries != []
      modifies this`spaces, this`holder, this`mem, phys`freeq, phys`owner, phys.pages
      ensures Owned() && spaces == old(spaces)[id := WithObject(old(spaces)[id], map[])]
      ensures KeptElsewhere(old(holder), holder, id, old(mem), mem)
    {
      var left := spaces[id].entries[0].obj;
      ghost var sp := spaces[id];
      SameObject(sp);
      while left != map[]
        invariant Owned() && id in spaces && spaces == old(spaces)[id := WithObject(sp, left)]
        invariant KeptElsewhere(old(holder), holder, id, old(mem), mem)
        decreases |left|
      {
        var o :| o in left;
        ObjectFacts(sp, left, o);
        DropPage(id, o);
        left := left - {o};
      }
    }

    /** One turn of vm_map_delete's loop */
    method RemoveFirst(id: nat)
      requires Owned() && id in spaces && M.Sorted(spaces[id].entries) && spaces[id].entries != []
      modifies this`spaces, this`holder, this`mem, phys`freeq, phys`owner, phys.pages
      ensures Owned() && spaces == old(spaces)[id := old(spaces)[id].(entries := old(spaces)[id].entries[1..])]
      ensures KeptElsewhere(old(holder), holder, id, old(mem), mem)
    {
      Drain(id);
      DropEntryOwns(spaces, holder, id);
      spaces := spaces[id := spaces[id].(entries := spaces[id].entries[1..])];
    }

    /** pmap_reset */
    method ResetTable(id: nat)
      requires Owned() && id in spaces && spaces[id].entries == []
      modifies this`spaces, this`holder, this`mem, phys`freeq, phys`owner, phys.pages
      ensures Owned() && spaces == old(spaces) - {id}
      ensures KeptElsewhere(old(holder), holder, id, old(mem), mem)
    {
      var t := spaces[id].table;
      while t.frags != []
        invariant Owned() && id in spaces && spaces == old(spaces)[id := old(spaces)[id].(table := t)]
        invariant KeptElsewhere(old(holder), holder, id, old(mem), mem)
        decreases |t.frags|
      {
        DropFragment(id);
        t := t.(frags := t.frags[1..]);
      }
      DropDirectory(id);
    }

    /** The page directory goes last. */
    method DropDirectory(id: nat)
      requires Owned() && id in spaces && spaces[id].entries == [] && spaces[id].table.frags == []
      modifies this`spaces, this`holder, this`mem, phys`freeq, phys`owner, phys.pages
      ensures Owned() && spaces == old(spaces) - {id}
      ensures KeptElsewhere(old(holder), holder, id, old(mem), mem)
    {
      var dir := spaces[id].dir;
      DropSpaceOwns(spaces, holder, id);
      KeysDrop(holder, dir);
      GiveFrame(dir, holder.Keys);
      spaces, holder := spaces - {id}, holder - {dir};
    }

    /** One turn of pmap_reset's loop */
    method DropFragment(id: nat)
      requires Owned() && id in spaces && spaces[id].table.frags != []
      modifies this`spaces, this`holder, this`mem, phys`freeq, phys`owner, phys.pages
      ensures Owned() && KeptElsewhere(old(holder), holder, id, old(mem), mem)
      ensures spaces == old(spaces)[id := WithoutFragment(old(spaces)[id])]
    {
      var f, sp := spaces[id].table.frags[0], WithoutFragment(spaces[id]);
      DropFragmentOwns(spaces, holder, id, sp.table);
      KeysDrop(holder, f);
      GiveFrame(f, holder.Keys);
      spaces, holder := spaces[id := sp], holder - {f};
    }

    /** vm_map_delete */
    method Delete(id: nat)
      requires Valid() && id in spaces
      modifies this`spaces, this`holder, this`mem, phys`freeq, phys`owner, phys.pages
      ensures Valid() && spaces == old(spaces) - {id}
      ensures KeptElsewhere(old(holder), holder, id, old(mem), mem)
    {
      assert SpaceOk(spaces[id]);
      var n := |spaces[id].entries|;
      while n > 0
        invariant Owned() && id in spaces && spaces == old(spaces)[id := spaces[id]] && |spaces[id].entries| == n
        invariant M.Sorted(spaces[id].entries)
        invariant KeptElsewhere(old(holder), holder, id, old(mem), mem)
      {
        RemoveFirst(id);
        n := n - 1;
      }
      ResetTable(id);
      AllOkRemove(old(spaces), id);
    }

    /** The fault and copy that memcpy to a page of the new map makes */
    method CopyPage(n: nat, k: nat, o: nat, src: nat) returns (r: FaultResult)
      requires Valid() && n in spaces && active == Some(n) && k < |spaces[n].entries| && src < |mem|
      requires M.Covers(spaces[n].entries[k], spaces[n].entries[k].start + o) && o !in spaces[n].entries[k].obj
      modifies this`spaces, this`holder, this`mem, phys`freeq, phys`owner, phys.pages
      ensures r != AlreadyMapped && (r == NoFrame ==> NoneFree(phys.View()))
      ensures r == Segfault <==> !Allowed(old(spaces)[n].entries[k].prot, Write)
      ensures r.Handled? ==>
                Valid() && r.frame !in old(holder) && r.frame < |mem| && mem == old(mem)[r.frame := old(mem)[src]]
      ensures r.Handled? ==>
                && n in spaces && spaces == old(spaces)[n := spaces[n]]
                && spaces[n].entries == PagedIn(old(spaces)[n], k, o, r.frame).entries
      ensures r.Handled? ==> Extends(old(holder), holder, old(mem), mem)
    {
      var v := spaces[n].entries[k].start + o;
      FaultStart(spaces, n, k, v);
      r := PageFault(n, v, Write);
      if r.Handled? {
        if clear { WriteZero(s0, phys.View(), holder.Keys, mem, r.frame, mem[src]); }
        mem := mem[r.frame := mem[src]];
      }
    }

    /** One turn of the inner loop of vm_map_clone */
    method CopyNext(n: nat, k: nat, e: M.VmEntry<VmObject>, o: nat, ghost was: map<nat, Space>, ghost h: Holder,
            ghost m: seq<int>, ghost done: set<nat>)
      returns (r: FaultResult)
      requires Valid() && active == Some(n) && Copying(was, spaces, n, k, e, m, mem, done) && Extends(h, holder, m, mem)
      requires Sources(e, h, m) && o in e.obj && o !in done
      modifies this`spaces, this`holder, this`mem, phys`freeq, phys`owner, phys.pages
      ensures r != AlreadyMapped && (r == NoFrame ==> NoneFree(phys.View()))
      ensures r == Segfault <==> !Allowed(e.prot, Write)
      ensures r.Handled? ==> Valid() && Copying(was, spaces, n, k, e, m, mem, done + {o}) && Extends(h, holder, m, mem)
    {
      HeldPages(spaces, holder, n, |mem|);
      ghost var now, g, m' := spaces, holder, mem;
      r := CopyPage(n, k, o, e.obj[o]);
      if r.Handled? {
        CopyingNext(was, now, spaces, n, k, e, h, g, m, m', done, o, r.frame);
        ExtendsTrans(h, g, holder, m, m', mem);
      }
    }

    /** The inner loop of vm_map_clone: the pages of `e` are copied to entry `k` of space `n`. */
    method CopyObject(n: nat, k: nat, e: M.VmEntry<VmObject>) returns (r: FaultResult)
      requires Valid() && n in spaces && active == Some(n) && k < |spaces[n].entries|
      requires spaces[n].entries[k] == M.VmEntry(e.start, e.end, e.prot, map[]) && Sources(e, holder, mem)
      modifies this`spaces, this`holder, this`mem, phys`freeq, phys`owner, phys.pages
      ensures r != AlreadyMapped && (r == NoFrame ==> NoneFree(phys.View()))
      ensures r == Segfault <==> Unwritable(e)
      ensures r.Handled? ==> Valid() && Extends(old(holder), holder, old(mem), mem)
      ensures r.Handled? ==> Copying(old(spaces), spaces, n, k, e, old(mem), mem, e.obj.Keys)
    {
      var done: set<nat> := {};
      while e.obj.Keys - done != {}
        invariant Valid() && Extends(old(holder), holder, old(mem), mem)
        invariant done != {} ==> Allowed(e.prot, Write)
        invariant done <= e.obj.Keys && Copying(old(spaces), spaces, n, k, e, old(mem), mem, done)
        decreases e.obj.Keys - done
      {
        var o :| o in e.obj.Keys - done;
        r := CopyNext(n, k, e, o, old(spaces), old(holder), old(mem), done);
        if !r.Handled? {
          return;
        }
        done := done + {o};
      }
      assert done == e.obj.Keys;
      r := Handled(0);
    }

    /** The entry of vm_map_clone, still without pages */
    method CloneRange(es: Entries, n: nat, k: nat, ghost m: seq<int>)
      requires Valid() && n in spaces && k == |spaces[n].entries| < |es| && EntriesOk(es)
      requires Copied(es, spaces[n].entries, m, mem)
      modifies this`spaces
      ensures Valid() && n in spaces && spaces == old(spaces)[n := spaces[n]]
      ensures spaces[n].entries == old(spaces)[n].entries + [M.VmEntry(es[k].start, es[k].end, es[k].prot, map[])]
    {
      CloningAdds(es, spaces[n].entries, k, m, mem);
      var ok := AddEntry(n, es[k].start, es[k].end, es[k].prot);
    }

    /** One turn of the outer loop of vm_map_clone */
    method CloneEntry(es: Entries, n: nat, k: nat, ghost was: map<nat, Space>, ghost h: Holder, ghost m: seq<int>)
      returns (r: FaultResult)
      requires Valid() && active == Some(n) && k < |es| && EntriesOk(es) && AllSources(es, h, m)
      requires Cloning(es, was, spaces, n, k, m, mem) && Extends(h, holder, m, mem)
      modifies this`spaces, this`holder, this`mem, phys`freeq, phys`owner, phys.pages
      ensures r != AlreadyMapped && (r == NoFrame ==> NoneFree(phys.View()))
      ensures r == Segfault <==> Unwritable(es[k])
      ensures r.Handled? ==> Valid() && Cloning(es, was, spaces, n, k + 1, m, mem) && Extends(h, holder, m, mem)
    {
      var e := es[k];
      ghost var ns, g, m' := spaces[n].entries, holder, mem;
      assert Sources(es[k], h, m);
      SourcesKept(e, h, g, m, m');
      HeldPages(spaces, holder, n, |mem|);
      CloneRange(es, n, k, m);
      r := CopyObject(n, k, e);
      if r.Handled? {
        ExtendsTrans(h, g, holder, m, m', mem);
        CloningNext(es, ns, spaces[n].entries, k, g, holder, m, m', mem);
      }
    }

    /** vm_map_clone */
    method Clone(id: nat) returns (r: CloneResult)
      requires Valid() && id in spaces
      modifies this`spaces, this`active, this`asids, this`holder, this`mem, phys`freeq, phys`owner, phys.pages
      ensures r.Cloned? ==>
                Valid() && active == old(active) && r.id == old(asids) && asids == r.id + 1 && r.id !in old(spaces)
      ensures r.Cloned? ==>
                && r.id in spaces && spaces == old(spaces)[r.id := spaces[r.id]]
                && Extends(old(holder), holder, old(mem), mem)
      ensures r.Cloned? ==>
                && |spaces[r.id].entries| == |old(spaces)[id].entries|
                && Copied(old(spaces)[id].entries, spaces[r.id].entries, old(mem), mem)
      ensures r.Cloned? ==> Unshared(spaces[r.id].entries, old(holder))
      ensures r == Refused ==> exists i :: 0 <= i < |old(spaces)[id].entries| && Unwritable(old(spaces)[id].entries[i])
      ensures r.Cloned? ==> forall i :: 0 <= i < |old(spaces)[id].entries| ==> !Unwritable(old(spaces)[id].entries[i])
      ensures r == CloneNoAsid ==> old(asids) >= MAX_ASID
      ensures r == CloneNoFrame ==> NoneFree(phys.View())
    {
      var es := spaces[id].entries;
      SpaceSources(spaces, holder, id, mem);
      var c := New();
      if c == NoRoom {
        return CloneNoFrame;
      }
      if c == NoAsid {
        return CloneNoAsid;
      }
      var n := c.id;
      var was := Activate(Some(n));
      var k := 0;
      while k < |es|
        invariant 0 <= k <= |es| && Valid() && active == Some(n) && asids == n + 1
        invariant Cloning(es, old(spaces), spaces, n, k, old(mem), mem)
        invariant Extends(old(holder), holder, old(mem), mem)
        invariant forall i :: 0 <= i < k ==> !Unwritable(es[i])
      {
        var f := CloneEntry(es, n, k, old(spaces), old(holder), old(mem));
        if f == Segfault {
          return Refused;
        }
        if f == NoFrame {
          return CloneNoFrame;
        }
        k := k + 1;
      }
      NotShared(old(spaces), old(holder), spaces, holder, n, old(mem), mem);
      was := Activate(was);
      return Cloned(n);
    }

    /** Delete every space: then the free blocks are those of the start. */
    method DeleteAll()
      requires Valid()
      modifies this`spaces, this`holder, this`mem, phys`freeq, phys`owner, phys.pages
      ensures Valid() && spaces == map[]
      ensures SameFreeBlocks(s0, phys.View()) && phys.owner == s0.owner
    {
      while spaces != map[]
        invariant Valid()
        decreases |spaces|
      {
        var id :| id in spaces;
        Delete(id);
      }
      NothingHeld(holder);
      AllGivenBack(s0, phys.View());
    }

    /** Carry out one operation if its caller may ask for it; `ok` is false when the kernel stops. */
    method Do(op: Op) returns (ok: bool)
      requires Valid()
      modifies this`spaces, this`active, this`asids, this`holder, this`mem, phys`freeq, phys`owner, phys.pages
      ensures ok ==> Valid() && Did(op, Snapshot(old(spaces), old(asids)), Snapshot(spaces, asids))
      ensures !ok ==> NoneFree(phys.View()) || Stops(op, old(spaces), old(asids))
    {
      ok := true;
      match op
      case NewMap =>
        var r := New();
        ok := r.Created?;
      case Add(id, start, end, prot) =>
        if MayAdd(spaces, id, start, end, prot) {
          var r := AddEntry(id, start, end, prot);
        }
      case Grow(id, i, end) =>
        if MayGrow(spaces, id, i, end) {
          var r := Resize(id, i, end);
        }
      case Touch(id, v, access) =>
        if id in spaces {
          var was := Activate(Some(id));
          var r := PageFault(id, v, access);
          ok := r.Handled? || r == Segfault;
        }
      case Fork(id) =>
        if id in spaces {
          var r := Clone(id);
          ok := r.Cloned?;
          if ok { CopiedShape(old(spaces)[id].entries, spaces[r.id].entries, old(mem), mem); }
        }
      case Remove(id) =>
        if id in spaces {
          Delete(id);
        }
    }
  }

  /** No leak over whole runs: after any run of operations and the deletion of all its maps, the
      allocator has the free blocks it had before. `trace` is the run. */
  method RunAndTearDown(seg: Segment, firstAsid: nat, contents: seq<int>, ops: seq<Op>)
    returns (ok: bool, ghost trace: seq<Snapshot>)
    requires seg.Valid() && |contents| == seg.pages.Length
    modifies seg`freeq, seg`owner, seg.pages
    ensures ok ==> seg.Valid() && SameFreeBlocks(old(seg.View()), seg.View()) && seg.owner == old(seg.owner)
    ensures ok ==> |trace| == |ops| + 1 && trace[0] == Snapshot(map[], firstAsid)
    ensures ok ==> forall i :: 0 <= i < |ops| ==> Did(ops[i], trace[i], trace[i + 1])
  {
    var vm := new Vm(seg, firstAsid, contents);
    trace := [Snapshot(vm.spaces, vm.asids)];
    var i := 0;
    while i < |ops|
      invariant 0 <= i <= |ops| && vm.Valid() && fresh(vm) && vm.phys == seg && vm.s0 == old(seg.View())
      invariant |trace| == i + 1 && trace[0] == Snapshot(map[], firstAsid) && trace[i] == Snapshot(vm.spaces, vm.asids)
      invariant forall k :: 0 <= k < i ==> Did(ops[k], trace[k], trace[k + 1])
    {
      ok := vm.Do(ops[i]);
      if !ok {
        return;
      }
      trace := trace + [Snapshot(vm.spaces, vm.asids)];
      i := i + 1;
    }
    vm.DeleteAll();
    ok := true;
  }
}
