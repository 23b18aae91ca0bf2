/** Address spaces as values: the entries of vm_map.c with the objects of vm_object.c, the page
    table of pmap.c, and who holds which frame. Addresses are page numbers. */
module VmSpace {
  import opened Basics
  import opened VmMap
  import P = Pmap

  const USER_END: nat := 0x8_0000

  /** vm_object: the frame of each page present, by offset in pages */
  type VmObject = map<nat, nat>

  type Entries = seq<VmEntry<VmObject>>

  /** A vm_map with its pmap: `dir` is the frame of the page directory. */
  datatype Space = Space(entries: Entries, dir: nat, table: P.PageTable)

  // ------------------------------------------------------------ ownership

  datatype Place = Directory(id: nat) | Fragment(id: nat) | PageOf(id: nat, start: nat, offset: nat)

  type Holder = map<nat, Place>

  predicate IsAt(h: Holder, f: nat, p: Place) { f in h && h[f] == p }

  /** Some entry that starts at `start` has frame `f` at `offset`. */
  ghost predicate HasPage(es: Entries, start: nat, offset: nat, f: nat) {
    exists i :: 0 <= i < |es| && PageIs(es[i], start, offset, f)
  }

  predicate PageIs(e: VmEntry<VmObject>, start: nat, offset: nat, f: nat) {
    e.start == start && offset in e.obj && e.obj[offset] == f
  }

  /** Every frame of the space is recorded as held in its place, */
  ghost predicate Recorded(id: nat, sp: Space, h: Holder) {
    && IsAt(h, sp.dir, Directory(id))
    && NoDup(sp.table.frags) && (forall f :: f in sp.table.frags ==> IsAt(h, f, Fragment(id)))
    && (forall i, o :: 0 <= i < |sp.entries| && o in sp.entries[i].obj
          ==> IsAt(h, sp.entries[i].obj[o], PageOf(id, sp.entries[i].start, o)))
  }

  /** and what is recorded of the space is there. */
  ghost predicate Present(id: nat, sp: Space, h: Holder) {
    forall f :: f in h && h[f].id == id ==> InPlace(sp, f, h[f])
  }

  ghost predicate InPlace(sp: Space, f: nat, p: Place) {
    match p
    case Directory(_) => f == sp.dir
    case Fragment(_) => f in sp.table.frags
    case PageOf(_, start, offset) => HasPage(sp.entries, start, offset, f)
  }

  ghost predicate Local(id: nat, sp: Space, h: Holder) { Recorded(id, sp, h) && Present(id, sp, h) }

  /** Each held frame is in exactly one place: the directory, the fragment list or the object
      of an entry of exactly one space. */
  ghost predicate Owns(spaces: map<nat, Space>, h: Holder) {
    && (forall id {:trigger Local(id, spaces[id], h)} :: id in spaces ==> Local(id, spaces[id], h))
    && forall f :: f in h ==> h[f].id in spaces
  }

  /** `h` and `g` agree on the places of all spaces but `id`. */
  ghost predicate SameElsewhere(h: Holder, g: Holder, id: nat) {
    && (forall f :: f in h && h[f].id != id ==> f in g && g[f] == h[f])
    && (forall f :: f in g && g[f].id != id ==> f in h && g[f] == h[f])
  }

  lemma LocalElsewhere(h: Holder, g: Holder, id: nat, other: nat, sp: Space)
    requires SameElsewhere(h, g, id) && other != id && Local(other, sp, h)
    ensures Local(other, sp, g)
  {
  }

  /** A change of one space keeps the others' frames in place. */
  lemma OwnsUpdate(spaces: map<nat, Space>, h: Holder, id: nat, sp: Space, g: Holder)
    requires Owns(spaces, h) && SameElsewhere(h, g, id) && Local(id, sp, g)
    ensures Owns(spaces[id := sp], g)
  {
    forall x | x in spaces && x != id ensures Local(x, spaces[x], g) { LocalElsewhere(h, g, id, x, spaces[x]); }
  }

  lemma OwnsRemove(spaces: map<nat, Space>, h: Holder, id: nat, g: Holder)
    requires Owns(spaces, h) && SameElsewhere(h, g, id) && forall f :: f in g ==> g[f].id != id
    ensures Owns(spaces - {id}, g)
  {
    forall x | x in spaces && x != id ensures Local(x, spaces[x], g) { LocalElsewhere(h, g, id, x, spaces[x]); }
  }

  /** Frame `f` lies in place `p`. */
  ghost predicate Lies(spaces: map<nat, Space>, f: nat, p: Place) {
    p.id in spaces && InPlace(spaces[p.id], f, p)
  }

  /** The held frames are those that lie somewhere, and none lies in two places. */
  lemma ExactlyOnePlace(spaces: map<nat, Space>, h: Holder, f: nat)
    requires Owns(spaces, h)
    ensures f in h ==> Lies(spaces, f, h[f])
    ensures forall p :: Lies(spaces, f, p) ==> IsAt(h, f, p)
  {
    if f in h { assert Local(h[f].id, spaces[h[f].id], h); }
    forall p | Lies(spaces, f, p) ensures IsAt(h, f, p) {
      var sp := spaces[p.id];
      assert Local(p.id, spaces[p.id], h);
      if p.PageOf? {
        var i :| 0 <= i < |sp.entries| && PageIs(sp.entries[i], p.start, p.offset, f);
        assert IsAt(h, sp.entries[i].obj[p.offset], PageOf(p.id, sp.entries[i].start, p.offset));
      }
    }
  }

  // ------------------------------------------------- steps inside one space

  lemma NewLocal(id: nat, dir: nat, table: P.PageTable, h: Holder)
    requires dir !in h && table.frags == [] && forall f :: f in h ==> h[f].id != id
    ensures Local(id, Space([], dir, table), h[dir := Directory(id)])
  {
  }

  lemma InsertedFrom<T>(s: seq<T>, i: nat, x: T, r: seq<T>, j: nat)
    requires IsInserted(s, i, x, r) && j < |r| && j != i
    ensures exists y :: 0 <= y < |s| && s[y] == r[j]
  {
    assert r[j] == s[if j < i then j else j - 1];
  }

  lemma InsertedTo<T>(s: seq<T>, i: nat, x: T, r: seq<T>, j: nat)
    requires IsInserted(s, i, x, r) && j < |s|
    ensures exists y :: 0 <= y < |r| && r[y] == s[j]
  {
    assert r[if j < i then j else j + 1] == s[j];
  }

  /** A new entry with an empty object. */
  lemma EntryLocal(id: nat, sp: Space, h: Holder, i: nat, e: VmEntry<VmObject>, r: Entries)
    requires Local(id, sp, h) && e.obj == map[] && IsInserted(sp.entries, i, e, r)
    ensures Local(id, sp.(entries := r), h)
  {
    forall x, o | 0 <= x < |r| && o in r[x].obj ensures IsAt(h, r[x].obj[o], PageOf(id, r[x].start, o)) {
      InsertedFrom(sp.entries, i, e, r, x);
    }
    forall f | f in h && h[f].id == id ensures InPlace(sp.(entries := r), f, h[f]) {
      assert InPlace(sp, f, h[f]);
      if h[f].PageOf? { InsertedHas(sp.entries, i, e, r, h[f].start, h[f].offset, f); }
    }
  }

  lemma InsertedHas(es: Entries, i: nat, e: VmEntry<VmObject>, r: Entries, start: nat, offset: nat, f: nat)
    requires IsInserted(es, i, e, r) && HasPage(es, start, offset, f)
    ensures HasPage(r, start, offset, f)
  {
    var y :| 0 <= y < |es| && PageIs(es[y], start, offset, f);
    InsertedTo(es, i, e, r, y);
  }

  /** The entries with entry `i` changed to `e`. */
  lemma ChangeLocal(id: nat, sp: Space, h: Holder, i: nat, e: VmEntry<VmObject>)
    requires Local(id, sp, h) && i < |sp.entries| && e.start == sp.entries[i].start && e.obj == sp.entries[i].obj
    ensures Local(id, sp.(entries := sp.entries[i := e]), h)
  {
    var r := sp.entries[i := e];
    forall f | f in h && h[f].id == id ensures InPlace(sp.(entries := r), f, h[f]) {
      assert InPlace(sp, f, h[f]);
      if h[f].PageOf? { ChangeHas(sp.entries, i, e, h[f].start, h[f].offset, f); }
    }
  }

  lemma ChangeHas(es: Entries, i: nat, e: VmEntry<VmObject>, start: nat, offset: nat, f: nat)
    requires i < |es| && e.start == es[i].start && e.obj == es[i].obj && HasPage(es, start, offset, f)
    ensures HasPage(es[i := e], start, offset, f)
  {
    var y :| 0 <= y < |es| && PageIs(es[y], start, offset, f);
    assert PageIs(es[i := e][y], start, offset, f);
  }

  function WithPage(e: VmEntry<VmObject>, o: nat, f: nat): VmEntry<VmObject> { e.(obj := e.obj[o := f]) }

  lemma PageHas(es: Entries, i: nat, o: nat, q: nat, start: nat, offset: nat, f: nat)
    requires i < |es| && o !in es[i].obj && HasPage(es, start, offset, f)
    ensures HasPage(es[i := WithPage(es[i], o, q)], start, offset, f)
  {
    var y :| 0 <= y < |es| && PageIs(es[y], start, offset, f);
    assert PageIs(es[i := WithPage(es[i], o, q)][y], start, offset, f);
  }

  /** vm_object_add_page of a frame nobody holds. */
  lemma PageLocal(id: nat, sp: Space, h: Holder, i: nat, o: nat, q: nat)
    requires Local(id, sp, h) && i < |sp.entries| && o !in sp.entries[i].obj && q !in h
    ensures Local(id, sp.(entries := sp.entries[i := WithPage(sp.entries[i], o, q)]),
                  h[q := PageOf(id, sp.entries[i].start, o)])
  {
    PageRecorded(id, sp, h, i, o, q);
    PagePresent(id, sp, h, i, o, q);
  }

  lemma PageRecorded(id: nat, sp: Space, h: Holder, i: nat, o: nat, q: nat)
    requires Recorded(id, sp, h) && i < |sp.entries| && o !in sp.entries[i].obj && q !in h
    ensures Recorded(id, sp.(entries := sp.entries[i := WithPage(sp.entries[i], o, q)]),
                     h[q := PageOf(id, sp.entries[i].start, o)])
  {
    var es := sp.entries;
    var r, g := es[i := WithPage(es[i], o, q)], h[q := PageOf(id, es[i].start, o)];
    forall x, y | 0 <= x < |r| && y in r[x].obj ensures IsAt(g, r[x].obj[y], PageOf(id, r[x].start, y)) {
      if x != i || y != o { assert y in es[x].obj && IsAt(h, es[x].obj[y], PageOf(id, es[x].start, y)); }
    }
  }

  lemma PagePresent(id: nat, sp: Space, h: Holder, i: nat, o: nat, q: nat)
    requires Present(id, sp, h) && i < |sp.entries| && o !in sp.entries[i].obj && q !in h
    ensures Present(id, sp.(entries := sp.entries[i := WithPage(sp.entries[i], o, q)]),
                    h[q := PageOf(id, sp.entries[i].start, o)])
  {
    var es := sp.entries;
    var r, g := es[i := WithPage(es[i], o, q)], h[q := PageOf(id, es[i].start, o)];
    forall f | f in g && g[f].id == id ensures InPlace(sp.(entries := r), f, g[f]) {
      if f == q {
        assert PageIs(r[i], es[i].start, o, q);
      } else {
        assert InPlace(sp, f, h[f]);
        if h[f].PageOf? { PageHas(es, i, o, q, h[f].start, h[f].offset, f); }
      }
    }
  }

  lemma FragmentsMore(frags: seq<nat>, q: nat)
    requires NoDup(frags) && q !in frags
    ensures NoDup(frags + [q]) && forall f :: f in frags + [q] <==> f in frags || f == q
  {
    var r := frags + [q];
    assert r[|frags|] == q;
    forall x, y | 0 <= x < y < |r| ensures r[x] != r[y] { assert r[x] == frags[x]; }
  }

  /** pmap_add_pde with a frame nobody holds. */
  lemma FragmentLocal(id: nat, sp: Space, h: Holder, t: P.PageTable, q: nat)
    requires Local(id, sp, h) && t.frags == sp.table.frags + [q] && q !in h
    ensures Local(id, sp.(table := t), h[q := Fragment(id)])
  {
    var g, frags := h[q := Fragment(id)], sp.table.frags;
    assert q !in frags by { assert q in frags ==> IsAt(h, q, Fragment(id)); }
    FragmentsMore(frags, q);
    forall f | f in t.frags ensures IsAt(g, f, Fragment(id)) { assert f in frags ==> IsAt(h, f, Fragment(id)); }
    forall f | f in g && g[f].id == id ensures InPlace(sp.(table := t), f, g[f]) {
      if f != q { assert InPlace(sp, f, h[f]); }
    }
  }

  lemma TableLocal(id: nat, sp: Space, h: Holder, t: P.PageTable)
    requires Local(id, sp, h) && t.frags == sp.table.frags
    ensures Local(id, sp.(table := t), h)
  {
    forall f | f in h && h[f].id == id ensures InPlace(sp.(table := t), f, h[f]) { assert InPlace(sp, f, h[f]); }
  }

  function WithoutPage(e: VmEntry<VmObject>, o: nat): VmEntry<VmObject> { e.(obj := e.obj - {o}) }

  lemma DropHas(es: Entries, i: nat, o: nat, start: nat, offset: nat, f: nat)
    requires i < |es| && o in es[i].obj && HasPage(es, start, offset, f) && f != es[i].obj[o]
    ensures HasPage(es[i := WithoutPage(es[i], o)], start, offset, f)
  {
    var y :| 0 <= y < |es| && PageIs(es[y], start, offset, f);
    assert PageIs(es[i := WithoutPage(es[i], o)][y], start, offset, f);
  }

  /** One turn of vm_object_free. */
  lemma DropPageLocal(id: nat, sp: Space, h: Holder, i: nat, o: nat)
    requires Local(id, sp, h) && Sorted(sp.entries) && i < |sp.entries| && o in sp.entries[i].obj
    ensures Local(id, sp.(entries := sp.entries[i := WithoutPage(sp.entries[i], o)]), h - {sp.entries[i].obj[o]})
  {
    var es := sp.entries;
    var q := es[i].obj[o];
    var r, g := es[i := WithoutPage(es[i], o)], h - {q};
    DropPageRecorded(id, sp, h, i, o);
    forall f | f in g && g[f].id == id ensures InPlace(sp.(entries := r), f, g[f]) {
      assert InPlace(sp, f, h[f]);
      if h[f].PageOf? { DropHas(es, i, o, h[f].start, h[f].offset, f); }
    }
  }

  lemma DropPageRecorded(id: nat, sp: Space, h: Holder, i: nat, o: nat)
    requires Recorded(id, sp, h) && Sorted(sp.entries) && i < |sp.entries| && o in sp.entries[i].obj
    ensures Recorded(id, sp.(entries := sp.entries[i := WithoutPage(sp.entries[i], o)]), h - {sp.entries[i].obj[o]})
  {
    var es := sp.entries;
    var q := es[i].obj[o];
    assert IsAt(h, q, PageOf(id, es[i].start, o));
    var r, g := es[i := WithoutPage(es[i], o)], h - {q};
    forall x, y | 0 <= x < |r| && y in r[x].obj ensures IsAt(g, r[x].obj[y], PageOf(id, r[x].start, y)) {
      assert y in es[x].obj && IsAt(h, es[x].obj[y], PageOf(id, es[x].start, y));
    }
  }

  /** vm_map_remove_entry of the first entry, its object drained. */
  lemma DropEntryLocal(id: nat, sp: Space, h: Holder)
    requires Local(id, sp, h) && sp.entries != [] && sp.entries[0].obj == map[]
    ensures Local(id, sp.(entries := sp.entries[1..]), h)
  {
    var es, r := sp.entries, sp.entries[1..];
    forall f | f in h && h[f].id == id ensures InPlace(sp.(entries := r), f, h[f]) {
      assert InPlace(sp, f, h[f]);
      if h[f].PageOf? {
        var y :| 0 <= y < |es| && PageIs(es[y], h[f].start, h[f].offset, f);
        assert r[y - 1] == es[y];
      }
    }
  }

  lemma FragmentsLeft(frags: seq<nat>, f: nat)
    requires NoDup(frags) && frags != []
    ensures NoDup(frags[1..]) && (f in frags[1..] <==> f in frags && f != frags[0])
  {
    if f in frags[1..] {
      var y :| 0 <= y < |frags| - 1 && frags[1..][y] == f;
      assert frags[0] != frags[y + 1];
    }
  }

  /** One turn of pmap_reset. */
  lemma DropFragmentLocal(id: nat, sp: Space, h: Holder, t: P.PageTable)
    requires Local(id, sp, h) && sp.table.frags != [] && t.frags == sp.table.frags[1..]
    ensures Local(id, sp.(table := t), h - {sp.table.frags[0]})
  {
    DropFragmentRecorded(id, sp, h, t);
    var q := sp.table.frags[0];
    forall f | f in h - {q} && h[f].id == id ensures InPlace(sp.(table := t), f, h[f]) {
      assert InPlace(sp, f, h[f]);
      FragmentsLeft(sp.table.frags, f);
    }
  }

  lemma DropFragmentRecorded(id: nat, sp: Space, h: Holder, t: P.PageTable)
    requires Recorded(id, sp, h) && sp.table.frags != [] && t.frags == sp.table.frags[1..]
    ensures Recorded(id, sp.(table := t), h - {sp.table.frags[0]})
  {
    var frags, q := sp.table.frags, sp.table.frags[0];
    assert q in frags && IsAt(h, q, Fragment(id));
    FragmentsLeft(frags, q);
    forall f | f in t.frags ensures IsAt(h - {q}, f, Fragment(id)) {
      FragmentsLeft(frags, f);
      assert IsAt(h, f, Fragment(id));
    }
  }

  /** A space without entries and fragments holds its directory only. */
  lemma LastFrame(id: nat, sp: Space, h: Holder)
    requires Local(id, sp, h) && sp.entries == [] && sp.table.frags == []
    ensures sp.dir in h && h[sp.dir].id == id && forall f :: f in h - {sp.dir} ==> h[f].id != id
  {
    forall f | f in h && h[f].id == id ensures f == sp.dir { assert InPlace(sp, f, h[f]); }
  }

  // ------------------------------------- the page table agrees with the objects

  predicate IsProt(p: nat) { 0 < p < 8 }

  /** The word of page `v` maps frame `f` with protection `prot`. */
  predicate WordMaps(t: P.PageTable, v: nat, f: nat, prot: nat) {
    f < PAGES && IsProt(prot) && v in t.pte && t.pte[v] == P.Entry(P.FrameAddr(f), prot, false)
  }

  /** An entry covers page `v` and its object has the page. */
  ghost predicate Backed(es: Entries, v: nat) {
    exists i :: 0 <= i < |es| && Covers(es[i], v) && v - es[i].start in es[i].obj
  }

  /** Every page of an object is mapped in the table as its entry says, */
  ghost predicate PagesMapped(es: Entries, t: P.PageTable) {
    forall i, o :: 0 <= i < |es| && o in es[i].obj
      ==> es[i].start + o < es[i].end && WordMaps(t, es[i].start + o, es[i].obj[o], es[i].prot)
  }

  predicate Live(t: P.PageTable, v: nat) { v in t.pte && P.IsValid(t.pte[v]) }

  /** and no other user page is. */
  ghost predicate OnlyPages(es: Entries, t: P.PageTable) {
    forall v: nat :: v < USER_END && Live(t, v) ==> Backed(es, v)
  }

  ghost predicate Agrees(sp: Space) { PagesMapped(sp.entries, sp.table) && OnlyPages(sp.entries, sp.table) }

  ghost predicate EntriesOk(es: Entries) {
    Sorted(es) && Disjoint(es, 0, USER_END) && forall i :: 0 <= i < |es| ==> es[i].prot < 8
  }

  ghost predicate SpaceOk(sp: Space) { EntriesOk(sp.entries) && P.Ok(sp.table) && Agrees(sp) }

  lemma WordTranslates(t: P.PageTable, v: nat, f: nat, prot: nat)
    requires WordMaps(t, v, f, prot) && v < USER_END
    ensures P.Translate(t, v) == P.Target(P.FrameAddr(f), prot)
  {
    P.FrameAddrAligned(f);
    P.EntryTranslates(t, v, P.FrameAddr(f), prot);
  }

  /** A page of an object is mapped to its frame, with the protection of the entry. */
  lemma MappedTo(es: Entries, t: P.PageTable, i: nat, o: nat)
    requires PagesMapped(es, t) && EntriesOk(es) && i < |es| && o in es[i].obj
    ensures es[i].obj[o] < PAGES && es[i].prot < 8
    ensures P.Translate(t, es[i].start + o) == P.Target(P.FrameAddr(es[i].obj[o]), es[i].prot)
  {
    WordTranslates(t, es[i].start + o, es[i].obj[o], es[i].prot);
  }

  /** A user page is mapped iff the object of its covering entry holds it. */
  lemma MappedIffBacked(es: Entries, t: P.PageTable, v: nat)
    requires EntriesOk(es) && PagesMapped(es, t) && OnlyPages(es, t) && v < USER_END
    ensures P.Translate(t, v).Some? <==> Backed(es, v)
  {
    if Backed(es, v) {
      var i :| 0 <= i < |es| && Covers(es[i], v) && v - es[i].start in es[i].obj;
      WordTranslates(t, v, es[i].obj[v - es[i].start], es[i].prot) by {
        assert WordMaps(t, es[i].start + (v - es[i].start), es[i].obj[v - es[i].start], es[i].prot);
      }
    }
  }

  // The operations keep the agreement.

  lemma InsertedBacked(es: Entries, i: nat, e: VmEntry<VmObject>, r: Entries, v: nat)
    requires IsInserted(es, i, e, r) && Backed(es, v)
    ensures Backed(r, v)
  {
    var y :| 0 <= y < |es| && Covers(es[y], v) && v - es[y].start in es[y].obj;
    InsertedTo(es, i, e, r, y);
  }

  lemma EntryAgrees(es: Entries, t: P.PageTable, i: nat, e: VmEntry<VmObject>, r: Entries)
    requires PagesMapped(es, t) && OnlyPages(es, t) && e.obj == map[] && IsInserted(es, i, e, r)
    ensures PagesMapped(r, t) && OnlyPages(r, t)
  {
    forall x, o | 0 <= x < |r| && o in r[x].obj
      ensures r[x].start + o < r[x].end && WordMaps(t, r[x].start + o, r[x].obj[o], r[x].prot)
    {
      InsertedFrom(es, i, e, r, x);
    }
    forall v: nat | v < USER_END && Live(t, v) ensures Backed(r, v) {
      InsertedBacked(es, i, e, r, v);
    }
  }

  lemma ResizeAgrees(es: Entries, t: P.PageTable, i: nat, end: nat)
    requires PagesMapped(es, t) && OnlyPages(es, t) && i < |es| && es[i].end <= end
    ensures PagesMapped(es[i := es[i].(end := end)], t) && OnlyPages(es[i := es[i].(end := end)], t)
  {
    var r := es[i := es[i].(end := end)];
    forall v: nat | v < USER_END && Live(t, v) ensures Backed(r, v) {
      var y :| 0 <= y < |es| && Covers(es[y], v) && v - es[y].start in es[y].obj;
      assert Covers(r[y], v) && v - r[y].start in r[y].obj;
    }
  }

  /** From `t` to `u` only the word of page `v` changes. */
  ghost predicate OnlyWord(t: P.PageTable, u: P.PageTable, v: nat) {
    forall q: nat :: q != v ==> P.SameWord(t, u, q)
  }

  lemma FaultMapped(es: Entries, t: P.PageTable, c: nat, o: nat, f: nat, u: P.PageTable)
    requires EntriesOk(es) && PagesMapped(es, t) && c < |es| && Covers(es[c], es[c].start + o) && o !in es[c].obj
    requires WordMaps(u, es[c].start + o, f, es[c].prot) && OnlyWord(t, u, es[c].start + o)
    ensures PagesMapped(es[c := WithPage(es[c], o, f)], u)
  {
    var r := es[c := WithPage(es[c], o, f)];
    forall i, x | 0 <= i < |r| && x in r[i].obj
      ensures r[i].start + x < r[i].end && WordMaps(u, r[i].start + x, r[i].obj[x], r[i].prot)
    {
      if i != c || x != o {
        assert WordMaps(t, es[i].start + x, es[i].obj[x], es[i].prot);
        assert es[i].start + x != es[c].start + o;
        assert P.SameWord(t, u, es[i].start + x);
      }
    }
  }

  lemma NotValid(t: P.PageTable, u: P.PageTable, v: nat)
    requires P.SameWord(t, u, v) && Live(u, v)
    ensures Live(t, v)
  {
    assert !P.IsValid(P.PTE_GLOBAL);
  }

  lemma FaultBacked(es: Entries, c: nat, o: nat, f: nat, v: nat)
    requires c < |es| && Covers(es[c], es[c].start + o) && (v == es[c].start + o || Backed(es, v))
    ensures Backed(es[c := WithPage(es[c], o, f)], v)
  {
    var r := es[c := WithPage(es[c], o, f)];
    if v == es[c].start + o {
      assert Covers(r[c], v) && v - r[c].start in r[c].obj;
    } else {
      var y :| 0 <= y < |es| && Covers(es[y], v) && v - es[y].start in es[y].obj;
      assert Covers(r[y], v) && v - r[y].start in r[y].obj;
    }
  }

  /** vm_page_fault adds a page to the object and its word to the table. */
  lemma FaultOnly(es: Entries, t: P.PageTable, c: nat, o: nat, f: nat, u: P.PageTable)
    requires OnlyPages(es, t) && c < |es| && Covers(es[c], es[c].start + o) && OnlyWord(t, u, es[c].start + o)
    ensures OnlyPages(es[c := WithPage(es[c], o, f)], u)
  {
    forall v: nat | v < USER_END && Live(u, v) ensures Backed(es[c := WithPage(es[c], o, f)], v) {
      if v != es[c].start + o { NotValid(t, u, v); }
      FaultBacked(es, c, o, f, v);
    }
  }

  lemma EntriesOkPage(es: Entries, c: nat, o: nat, f: nat)
    requires EntriesOk(es) && c < |es|
    ensures EntriesOk(es[c := WithPage(es[c], o, f)])
  {
  }

  // -------------------------------------------------- steps on all spaces

  ghost predicate AllOk(spaces: map<nat, Space>) {
    forall id {:trigger SpaceOk(spaces[id])} :: id in spaces ==> SpaceOk(spaces[id])
  }

  /** vm_map_new */
  lemma NewOwns(spaces: map<nat, Space>, h: Holder, id: nat, dir: nat, t: P.PageTable)
    requires Owns(spaces, h) && id !in spaces && dir !in h && t.frags == [] && t.pte == map[] && P.Ok(t)
    ensures Owns(spaces[id := Space([], dir, t)], h[dir := Directory(id)]) && SpaceOk(Space([], dir, t))
  {
    NewLocal(id, dir, t, h);
    OwnsUpdate(spaces, h, id, Space([], dir, t), h[dir := Directory(id)]);
  }

  lemma EntryOwns(spaces: map<nat, Space>, h: Holder, id: nat, i: nat, e: VmEntry<VmObject>, r: Entries)
    requires Owns(spaces, h) && id in spaces && e.obj == map[] && IsInserted(spaces[id].entries, i, e, r)
    ensures Owns(spaces[id := spaces[id].(entries := r)], h)
  {
    EntryLocal(id, spaces[id], h, i, e, r);
    OwnsUpdate(spaces, h, id, spaces[id].(entries := r), h);
  }

  lemma ChangeOwns(spaces: map<nat, Space>, h: Holder, id: nat, i: nat, e: VmEntry<VmObject>)
    requires Owns(spaces, h) && id in spaces && i < |spaces[id].entries|
    requires e.start == spaces[id].entries[i].start && e.obj == spaces[id].entries[i].obj
    ensures Owns(spaces[id := spaces[id].(entries := spaces[id].entries[i := e])], h)
  {
    ChangeLocal(id, spaces[id], h, i, e);
    OwnsUpdate(spaces, h, id, spaces[id].(entries := spaces[id].entries[i := e]), h);
  }

  function PagedIn(sp: Space, c: nat, o: nat, q: nat): Space
    requires c < |sp.entries|
  {
    sp.(entries := sp.entries[c := WithPage(sp.entries[c], o, q)])
  }

  /** default_pager_fault */
  lemma PageOwns(spaces: map<nat, Space>, h: Holder, id: nat, c: nat, o: nat, q: nat)
    requires Owns(spaces, h) && id in spaces && c < |spaces[id].entries| && o !in spaces[id].entries[c].obj && q !in h
    ensures Owns(spaces[id := PagedIn(spaces[id], c, o, q)], h[q := PageOf(id, spaces[id].entries[c].start, o)])
  {
    PageLocal(id, spaces[id], h, c, o, q);
    OwnsUpdate(spaces, h, id, PagedIn(spaces[id], c, o, q), h[q := PageOf(id, spaces[id].entries[c].start, o)]);
  }

  /** pmap_add_pde */
  lemma FragmentOwns(spaces: map<nat, Space>, h: Holder, id: nat, t: P.PageTable, q: nat)
    requires Owns(spaces, h) && id in spaces && t.frags == spaces[id].table.frags + [q] && q !in h
    ensures Owns(spaces[id := spaces[id].(table := t)], h[q := Fragment(id)])
  {
    FragmentLocal(id, spaces[id], h, t, q);
    OwnsUpdate(spaces, h, id, spaces[id].(table := t), h[q := Fragment(id)]);
  }

  lemma TableOwns(spaces: map<nat, Space>, h: Holder, id: nat, t: P.PageTable)
    requires Owns(spaces, h) && id in spaces && t.frags == spaces[id].table.frags
    ensures Owns(spaces[id := spaces[id].(table := t)], h)
  {
    TableLocal(id, spaces[id], h, t);
    OwnsUpdate(spaces, h, id, spaces[id].(table := t), h);
  }

  function PagedOut(sp: Space, o: nat): Space
    requires sp.entries != []
  {
    sp.(entries := sp.entries[0 := WithoutPage(sp.entries[0], o)])
  }

  lemma DropPageOwns(spaces: map<nat, Space>, h: Holder, id: nat, o: nat)
    requires Owns(spaces, h) && id in spaces && Sorted(spaces[id].entries) && spaces[id].entries != []
    requires o in spaces[id].entries[0].obj
    ensures spaces[id].entries[0].obj[o] in h && h[spaces[id].entries[0].obj[o]].id == id
    ensures Owns(spaces[id := PagedOut(spaces[id], o)], h - {spaces[id].entries[0].obj[o]})
  {
    var sp, q := spaces[id], spaces[id].entries[0].obj[o];
    assert Local(id, spaces[id], h) && IsAt(h, q, PageOf(id, sp.entries[0].start, o));
    DropPageLocal(id, sp, h, 0, o);
    OwnsUpdate(spaces, h, id, PagedOut(sp, o), h - {q});
  }

  lemma DropEntryOwns(spaces: map<nat, Space>, h: Holder, id: nat)
    requires Owns(spaces, h) && id in spaces && spaces[id].entries != [] && spaces[id].entries[0].obj == map[]
    ensures Owns(spaces[id := spaces[id].(entries := spaces[id].entries[1..])], h)
  {
    DropEntryLocal(id, spaces[id], h);
    OwnsUpdate(spaces, h, id, spaces[id].(entries := spaces[id].entries[1..]), h);
  }

  lemma DropFragmentOwns(spaces: map<nat, Space>, h: Holder, id: nat, t: P.PageTable)
    requires Owns(spaces, h) && id in spaces && spaces[id].table.frags != [] && t.frags == spaces[id].table.frags[1..]
    ensures spaces[id].table.frags[0] in h && h[spaces[id].table.frags[0]].id == id
    ensures Owns(spaces[id := spaces[id].(table := t)], h - {spaces[id].table.frags[0]})
  {
    var q := spaces[id].table.frags[0];
    assert Local(id, spaces[id], h) && q in spaces[id].table.frags && IsAt(h, q, Fragment(id));
    DropFragmentLocal(id, spaces[id], h, t);
    OwnsUpdate(spaces, h, id, spaces[id].(table := t), h - {q});
  }

  lemma DropSpaceOwns(spaces: map<nat, Space>, h: Holder, id: nat)
    requires Owns(spaces, h) && id in spaces && spaces[id].entries == [] && spaces[id].table.frags == []
    ensures spaces[id].dir in h && h[spaces[id].dir].id == id && Owns(spaces - {id}, h - {spaces[id].dir})
  {
    LastFrame(id, spaces[id], h);
    OwnsRemove(spaces, h, id, h - {spaces[id].dir});
  }

  /** vm_page_fault keeps the space in order. */
  lemma FaultOk(sp: Space, c: nat, o: nat, f: nat, u: P.PageTable)
    requires SpaceOk(sp) && c < |sp.entries| && Covers(sp.entries[c], sp.entries[c].start + o)
    requires o !in sp.entries[c].obj
    requires P.Ok(u) && WordMaps(u, sp.entries[c].start + o, f, sp.entries[c].prot)
    requires OnlyWord(sp.table, u, sp.entries[c].start + o)
    ensures SpaceOk(PagedIn(sp, c, o, f).(table := u))
  {
    EntriesOkPage(sp.entries, c, o, f);
    FaultMapped(sp.entries, sp.table, c, o, f, u);
    FaultOnly(sp.entries, sp.table, c, o, f, u);
  }

  lemma AddEntryOk(sp: Space, i: nat, e: VmEntry<VmObject>, r: Entries)
    requires SpaceOk(sp) && e.start !in Starts(sp.entries) && i == Next(Starts(sp.entries), e.start)
    requires e.start <= e.end <= USER_END && e.start < USER_END && e.prot < 8 && e.obj == map[]
    requires Clear(sp.entries, e.start, e.end)
    requires IsInserted(sp.entries, i, e, r)
    ensures SpaceOk(sp.(entries := r))
  {
    NextSplits(sp.entries, e.start, 0, USER_END);
    InsertSorted(sp.entries, e, i, r);
    InsertDisjoint(sp.entries, e, 0, USER_END, i, r);
    EntryAgrees(sp.entries, sp.table, i, e, r);
    forall x | 0 <= x < |r| ensures r[x].prot < 8 {
      if x != i { InsertedFrom(sp.entries, i, e, r, x); }
    }
  }

  function Resized(sp: Space, i: nat, end: nat): Space
    requires i < |sp.entries|
  {
    sp.(entries := sp.entries[i := sp.entries[i].(end := end)])
  }

  lemma ResizeOk(sp: Space, i: nat, end: nat)
    requires SpaceOk(sp) && i < |sp.entries| && sp.entries[i].end <= end && Fits(sp.entries, i, end, USER_END)
    ensures SpaceOk(Resized(sp, i, end))
  {
    ResizeKeeps(sp.entries, i, end, 0, USER_END);
    ResizeAgrees(sp.entries, sp.table, i, end);
  }

  // ------------------------------------------------------ whole operations

  ghost predicate StateOk(spaces: map<nat, Space>, h: Holder) { Owns(spaces, h) && AllOk(spaces) }

  lemma AllOkUpdate(spaces: map<nat, Space>, id: nat, sp: Space)
    requires AllOk(spaces) && SpaceOk(sp)
    ensures AllOk(spaces[id := sp])
  {
  }

  /** vm_map_insert_entry with an empty object */
  function Entered(sp: Space, start: nat, end: nat, prot: nat): Space {
    sp.(entries := InsertedAt(sp.entries, Next(Starts(sp.entries), start), VmEntry(start, end, prot, map[])))
  }

  lemma AddEntryStep(spaces: map<nat, Space>, h: Holder, id: nat, start: nat, end: nat, prot: nat)
    requires StateOk(spaces, h) && id in spaces && start !in Starts(spaces[id].entries)
    requires start <= end <= USER_END && start < USER_END && prot < 8 && Clear(spaces[id].entries, start, end)
    ensures StateOk(spaces[id := Entered(spaces[id], start, end, prot)], h)
  {
    var sp, e := spaces[id], VmEntry(start, end, prot, map[]);
    var i := Next(Starts(sp.entries), start);
    var r := InsertedAt(sp.entries, i, e);
    AddEntryOk(sp, i, e, r);
    EntryOwns(spaces, h, id, i, e, r);
    AllOkUpdate(spaces, id, sp.(entries := r));
  }

  lemma ResizeStep(spaces: map<nat, Space>, h: Holder, id: nat, i: nat, end: nat)
    requires StateOk(spaces, h) && id in spaces && i < |spaces[id].entries|
    requires spaces[id].entries[i].end <= end && Fits(spaces[id].entries, i, end, USER_END)
    ensures StateOk(spaces[id := Resized(spaces[id], i, end)], h)
  {
    ResizeOk(spaces[id], i, end);
    ChangeOwns(spaces, h, id, i, spaces[id].entries[i].(end := end));
    AllOkUpdate(spaces, id, Resized(spaces[id], i, end));
  }

  lemma NewStep(spaces: map<nat, Space>, h: Holder, id: nat, dir: nat, t: P.PageTable)
    requires StateOk(spaces, h) && id !in spaces && dir !in h && t.frags == [] && t.pte == map[] && P.Ok(t)
    ensures StateOk(spaces[id := Space([], dir, t)], h[dir := Directory(id)])
  {
    NewOwns(spaces, h, id, dir, t);
    AllOkUpdate(spaces, id, Space([], dir, t));
  }

  lemma KeysAdd(h: Holder, f: nat, p: Place)
    ensures h[f := p].Keys == h.Keys + {f}
  {
  }

  lemma KeysDrop(h: Holder, f: nat)
    ensures (h - {f}).Keys == h.Keys - {f}
  {
  }

  /** Whether pmap_set_pte needs a frame for a new fragment. */
  predicate NeedsFragment(t: P.PageTable, v: nat)
    requires P.Dir(v) < |t.pde|
  {
    !P.IsValid(t.pde[P.Dir(v)])
  }

  /** pmap_set_pte of a user page */
  lemma EnterWord(t: P.PageTable, v: nat, f: nat, prot: nat, g: nat, u: P.PageTable)
    requires P.Ok(t) && v < USER_END && f < PAGES && IsProt(prot) && g < PAGES
    requires u == P.SetPte(t, v, P.FrameAddr(f), prot, g)
    ensures P.Ok(u) && WordMaps(u, v, f, prot) && OnlyWord(t, u, v)
    ensures u.frags == if NeedsFragment(t, v) then t.frags + [g] else t.frags
  {
    P.SetPteKeeps(t, v, P.FrameAddr(f), prot, g);
  }

  /** With entry `c` covering page `v`: the page is mapped iff the object of `c` has it. */
  lemma LiveIff(es: Entries, t: P.PageTable, c: nat, v: nat)
    requires EntriesOk(es) && PagesMapped(es, t) && OnlyPages(es, t) && c < |es| && Covers(es[c], v)
    ensures Live(t, v) <==> v - es[c].start in es[c].obj
    ensures Backed(es, v) <==> v - es[c].start in es[c].obj
  {
    if Backed(es, v) {
      var i :| 0 <= i < |es| && Covers(es[i], v) && v - es[i].start in es[i].obj;
      assert i == c;
    }
    if v - es[c].start in es[c].obj {
      MappedTo(es, t, c, v - es[c].start);
      MappedIffBacked(es, t, v);
    }
  }

  lemma FaultStart(spaces: map<nat, Space>, id: nat, c: nat, v: nat)
    requires AllOk(spaces) && id in spaces && c < |spaces[id].entries| && Covers(spaces[id].entries[c], v)
    ensures P.Ok(spaces[id].table) && v < USER_END && spaces[id].entries[c].prot < 8
    ensures Live(spaces[id].table, v) <==> v - spaces[id].entries[c].start in spaces[id].entries[c].obj
    ensures Backed(spaces[id].entries, v) <==> v - spaces[id].entries[c].start in spaces[id].entries[c].obj
    ensures forall i :: 0 <= i < |spaces[id].entries| && i != c ==> !Covers(spaces[id].entries[i], v)
  {
    assert SpaceOk(spaces[id]);
    LiveIff(spaces[id].entries, spaces[id].table, c, v);
  }

  lemma FaultEnd(spaces: map<nat, Space>, id: nat, c: nat, v: nat, f: nat, u: P.PageTable)
    requires AllOk(spaces) && id in spaces && c < |spaces[id].entries| && Covers(spaces[id].entries[c], v)
    requires v - spaces[id].entries[c].start !in spaces[id].entries[c].obj
    requires P.Ok(u) && WordMaps(u, v, f, spaces[id].entries[c].prot) && OnlyWord(spaces[id].table, u, v)
    ensures AllOk(spaces[id := PagedIn(spaces[id], c, v - spaces[id].entries[c].start, f).(table := u)])
  {
    assert SpaceOk(spaces[id]);
    var sp := spaces[id];
    var o := v - sp.entries[c].start;
    FaultOk(sp, c, o, f, u);
    AllOkUpdate(spaces, id, PagedIn(sp, c, o, f).(table := u));
  }

  /** With no space left nothing is held. */
  lemma NothingHeld(h: Holder)
    requires Owns(map[], h)
    ensures h.Keys == {}
  {
    var none: map<nat, Space> := map[];
    assert forall f :: f in h ==> h[f].id in none;
  }
}
