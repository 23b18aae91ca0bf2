/** The pages of vm_object.c: a list in offset order and a tree over the same pages. What they
    hold is a map from offset in pages to frame, which is what `VmSpace` works with. The tree is
    searched with the comparator of `VmMap`. */
module VmObject {
  import opened Basics
  import M = VmMap

  datatype ObjPage = ObjPage(offset: nat, frame: nat)

  predicate Increasing(keys: seq<nat>) {
    forall i, j :: 0 <= i < j < |keys| ==> keys[i] < keys[j]
  }

  function Frames(list: seq<ObjPage>): (r: seq<nat>)
    ensures |r| == |list| && forall i :: 0 <= i < |r| ==> r[i] == list[i].frame
  {
    if list == [] then [] else [list[0].frame] + Frames(list[1..])
  }

  /** The tree has the offsets of the list, in the same order. */
  ghost predicate Keyed(tree: seq<nat>, list: seq<ObjPage>) {
    |tree| == |list| && forall i :: 0 <= i < |list| ==> tree[i] == list[i].offset
  }

  ghost predicate HasOffset(list: seq<ObjPage>, o: nat) {
    exists i :: 0 <= i < |list| && list[i].offset == o
  }

  /** The list has exactly the pages of the map. */
  ghost predicate Holds(list: seq<ObjPage>, pages: map<nat, nat>) {
    && (forall i :: 0 <= i < |list| ==> list[i].offset in pages && pages[list[i].offset] == list[i].frame)
    && (forall o {:trigger HasOffset(list, o)} :: o in pages ==> HasOffset(list, o))
  }

  lemma InsertIncreasing(keys: seq<nat>, key: nat, i: nat, r: seq<nat>)
    requires Increasing(keys) && M.Near(keys, 0) && key < M.SPAN && key !in keys && i == M.Next(keys, key)
    requires M.IsInserted(keys, i, key, r)
    ensures Increasing(r) && M.Near(r, 0)
  {
    M.NextOrdered(keys, key, 0);
    OrderedIncreasing(keys, key, i, r);
  }

  lemma OrderedIncreasing(keys: seq<nat>, key: nat, i: nat, r: seq<nat>)
    requires Increasing(keys) && M.Near(keys, 0) && key < M.SPAN && key !in keys && M.IsInserted(keys, i, key, r)
    requires (i < |keys| ==> keys[i] > key) && forall j :: 0 <= j < i ==> keys[j] <= key
    ensures Increasing(r) && M.Near(r, 0)
  {
    forall j | 0 <= j < i ensures keys[j] < key { assert keys[j] in keys; }
    forall j | i <= j < |keys| ensures key < keys[j] { assert keys[i] <= keys[j]; }
    forall x, y | 0 <= x < y < |r| ensures r[x] < r[y] {
      var x', y' := if x < i then x else x - 1, if y < i then y else y - 1;
      if x == i { assert r[y] == keys[y']; }
      else if y == i { assert r[x] == keys[x']; }
      else { assert r[x] == keys[x'] && r[y] == keys[y']; }
    }
  }

  lemma InsertKeyed(list: seq<ObjPage>, tree: seq<nat>, pg: ObjPage, i: nat, r: seq<ObjPage>, t: seq<nat>)
    requires Keyed(tree, list) && M.IsInserted(list, i, pg, r) && M.IsInserted(tree, i, pg.offset, t)
    ensures Keyed(t, r)
  {
    forall j | 0 <= j < |r| ensures t[j] == r[j].offset {
      if j != i { assert r[j] == list[if j < i then j else j - 1] && t[j] == tree[if j < i then j else j - 1]; }
    }
  }

  lemma InsertHolds(list: seq<ObjPage>, pages: map<nat, nat>, pg: ObjPage, i: nat, r: seq<ObjPage>)
    requires Holds(list, pages) && pg.offset !in pages && M.IsInserted(list, i, pg, r)
    ensures Holds(r, pages[pg.offset := pg.frame])
  {
    var m := pages[pg.offset := pg.frame];
    forall j | 0 <= j < |r| ensures r[j].offset in m && m[r[j].offset] == r[j].frame {
      if j != i { assert r[j] == list[if j < i then j else j - 1]; }
    }
    forall o | o in m ensures HasOffset(r, o) {
      if o == pg.offset {
        assert r[i].offset == o;
      } else {
        assert HasOffset(list, o);
        var j :| 0 <= j < |list| && list[j].offset == o;
        assert r[if j < i then j else j + 1] == list[j];
      }
    }
  }

  /** `s` without the element at position `i`. */
  function Without<T>(s: seq<T>, i: nat): (r: seq<T>)
    requires i < |s|
    ensures |r| == |s| - 1 && forall j :: 0 <= j < |r| ==> r[j] == s[if j < i then j else j + 1]
  {
    s[..i] + s[i + 1..]
  }

  lemma WithoutIncreasing(keys: seq<nat>, i: nat)
    requires Increasing(keys) && M.Near(keys, 0) && i < |keys|
    ensures Increasing(Without(keys, i)) && M.Near(Without(keys, i), 0)
  {
  }

  lemma WithoutHolds(list: seq<ObjPage>, tree: seq<nat>, pages: map<nat, nat>, i: nat)
    requires Keyed(tree, list) && Increasing(tree) && Holds(list, pages) && i < |list|
    ensures Holds(Without(list, i), pages - {list[i].offset})
  {
    var r, m := Without(list, i), pages - {list[i].offset};
    forall j | 0 <= j < |r| ensures r[j].offset in m && m[r[j].offset] == r[j].frame {
      var j' := if j < i then j else j + 1;
      assert r[j] == list[j'] && tree[j'] != tree[i];
    }
    forall o | o in m ensures HasOffset(r, o) {
      assert HasOffset(list, o);
      var j :| 0 <= j < |list| && list[j].offset == o;
      assert r[if j < i then j else j - 1] == list[j];
    }
  }

  class PageList {
    var list: seq<ObjPage>
    var tree: seq<nat>
    var npages: nat
    ghost var pages: map<nat, nat>

    ghost predicate Valid()
      reads this
    {
      Keyed(tree, list) && Increasing(tree) && M.Near(tree, 0) && npages == |list| && Holds(list, pages)
    }

    /** vm_object_alloc */
    constructor ()
      ensures Valid() && pages == map[]
    {
      list, tree, npages, pages := [], [], 0, map[];
    }

    /** vm_object_find_page */
    method FindPage(offset: nat) returns (r: Option<nat>)
      requires Valid() && offset < PAGES
      ensures r == if offset in pages then Some(pages[offset]) else None
    {
      M.SameIs(tree, offset);
      var i := M.Same(tree, offset);
      if i == None {
        assert offset in pages ==> HasOffset(list, offset);
        return None;
      }
      return Some(list[i.value].frame);
    }

    /** vm_object_add_page of a page less than 2^31 bytes into the object */
    method AddPage(pg: ObjPage) returns (ok: bool)
      requires Valid() && pg.offset < M.SPAN
      modifies this
      ensures Valid() && (ok <==> pg.offset !in old(pages))
      ensures pages == if ok then old(pages)[pg.offset := pg.frame] else old(pages)
      ensures list == if ok then M.InsertedAt(old(list), M.Next(old(tree), pg.offset), pg) else old(list)
    {
      M.SameIs(tree, pg.offset);
      if M.Same(tree, pg.offset).Some? {
        assert list[M.Same(tree, pg.offset).value].offset == pg.offset;
        return false;
      }
      assert pg.offset in pages ==> HasOffset(list, pg.offset);
      var i := M.Next(tree, pg.offset);
      var r, t := M.InsertedAt(list, i, pg), M.InsertedAt(tree, i, pg.offset);
      InsertIncreasing(tree, pg.offset, i, t);
      InsertKeyed(list, tree, pg, i, r, t);
      InsertHolds(list, pages, pg, i, r);
      list, tree, npages, pages := r, t, npages + 1, pages[pg.offset := pg.frame];
      return true;
    }

    /** vm_object_remove_page of the page at position `i`; its frame is for pm_free */
    method RemovePage(i: nat) returns (frame: nat)
      requires Valid() && i < |list|
      modifies this
      ensures Valid() && list == Without(old(list), i) && frame == old(list)[i].frame
      ensures pages == old(pages) - {old(list)[i].offset}
    {
      frame := list[i].frame;
      WithoutIncreasing(tree, i);
      WithoutHolds(list, tree, pages, i);
      pages := pages - {list[i].offset};
      list, tree, npages := Without(list, i), Without(tree, i), npages - 1;
    }

    /** vm_object_free: every frame goes to pm_free once, in offset order */
    method Free() returns (frames: seq<nat>)
      requires Valid()
      modifies this
      ensures frames == Frames(old(list)) && list == [] && Valid()
    {
      frames := [];
      ghost var n := 0;
      while list != []
        invariant n <= |old(list)| && list == old(list)[n..] && frames == Frames(old(list))[..n]
        decreases |list|
      {
        frames := frames + [list[0].frame];
        list, n := list[1..], n + 1;
      }
      tree, npages, pages := [], 0, map[];
    }
  }
}
