/** The entries of an address space, vm_map.c: a list in address order and a tree over the
    same entries. The splay tree is the sequence of its keys in order, with insertion and
    successor by the comparator. The source asserts that addresses and lengths are multiples of
    the page size, so they are page numbers here. */
module VmMap {
  import opened Basics

  /** 2^31 bytes, in pages */
  const SPAN: nat := 0x8_0000

  // -------------------------------------------------------- the comparator

  /** vm_map_entry_cmp and vm_page_cmp: a difference of unsigned words read as signed */
  function Cmp(a: nat, b: nat): int { if a < b then -1 else if a - b < HALF then a - b else a - b - WORD }

  /** The comparator orders two addresses right exactly when they are less than 2^31 apart. */
  lemma CmpRight(a: nat, b: nat)
    requires a < WORD && b < WORD
    ensures (Cmp(a, b) < 0 <==> a < b) && (Cmp(a, b) == 0 <==> a == b) && (Cmp(b, a) < 0 <==> b < a)
       <==> a < b + HALF && b < a + HALF
  {
  }

  /** The comparator on the addresses of pages `p` and `q` */
  function PageCmp(p: nat, q: nat): int { Cmp(PAGESIZE * p, PAGESIZE * q) }

  lemma PageCmpRight(p: nat, q: nat)
    requires p < PAGES && q < PAGES && p < q + SPAN && q < p + SPAN
    ensures (PageCmp(p, q) < 0 <==> p < q) && (PageCmp(p, q) == 0 <==> p == q) && (PageCmp(q, p) < 0 <==> q < p)
  {
    CmpRight(PAGESIZE * p, PAGESIZE * q);
  }

  /** It never takes two different pages for equal. */
  lemma PageCmpEqual(p: nat, q: nat)
    requires p < PAGES && q < PAGES
    ensures PageCmp(p, q) == 0 <==> p == q
  {
  }

  /** All keys lie within 2^31 bytes from `lo` on. */
  ghost predicate Near(keys: seq<nat>, lo: nat) {
    forall i :: 0 <= i < |keys| ==> lo <= keys[i] < lo + SPAN && keys[i] < PAGES
  }

  // ------------------------------------------------------------- entries

  datatype VmEntry<O> = VmEntry(start: nat, end: nat, prot: nat, obj: O)

  /** Strictly by start address. */
  predicate Sorted<O>(list: seq<VmEntry<O>>) {
    forall i, j :: 0 <= i < j < |list| ==> list[i].start < list[j].start
  }

  /** No entry reaches past the start of a later one, and all lie in `[lo, hi)` and start less
      than 2^31 bytes above `lo`. */
  predicate Disjoint<O>(list: seq<VmEntry<O>>, lo: nat, hi: nat) {
    && (forall i :: 0 <= i < |list| ==> lo <= list[i].start <= list[i].end <= hi && list[i].start < lo + SPAN)
    && (forall i, j :: 0 <= i < j < |list| ==> list[i].end <= list[j].start)
  }

  function Starts<O>(list: seq<VmEntry<O>>): (r: seq<nat>)
    ensures |r| == |list| && forall i :: 0 <= i < |r| ==> r[i] == list[i].start
  {
    if list == [] then [] else [list[0].start] + Starts(list[1..])
  }

  /** Position of the successor of `key` among the keys of the tree: the first that the
      comparator puts after `key`. */
  function Next(tree: seq<nat>, key: nat): (i: nat)
    ensures i <= |tree|
  {
    if tree == [] || PageCmp(key, tree[0]) < 0 then 0 else 1 + Next(tree[1..], key)
  }

  /** Where the comparator finds `key` itself. */
  function Same(tree: seq<nat>, key: nat): (r: Option<nat>)
    ensures r.Some? ==> r.value < |tree|
  {
    if tree == [] then None
    else if PageCmp(key, tree[0]) == 0 then Some(0)
    else
      var rest := Same(tree[1..], key);
      if rest.Some? then Some(rest.value + 1) else None
  }

  lemma {:induction false} SameIs(tree: seq<nat>, key: nat)
    requires key < PAGES && forall i :: 0 <= i < |tree| ==> tree[i] < PAGES
    ensures Same(tree, key).Some? <==> key in tree
    ensures Same(tree, key).Some? ==> tree[Same(tree, key).value] == key
  {
    if tree != [] {
      PageCmpEqual(key, tree[0]);
      SameIs(tree[1..], key);
      assert tree == [tree[0]] + tree[1..];
    }
  }

  /** Among keys within 2^31 bytes the comparator's successor is the one by address. */
  lemma {:induction false} NextOrdered(tree: seq<nat>, key: nat, lo: nat)
    requires Near(tree, lo) && lo <= key < lo + SPAN && key < PAGES
    ensures Next(tree, key) < |tree| ==> tree[Next(tree, key)] > key
    ensures forall j :: 0 <= j < Next(tree, key) ==> tree[j] <= key
  {
    if tree != [] {
      PageCmpRight(key, tree[0]);
      NextOrdered(tree[1..], key, lo);
    }
  }

  function InsertedAt<T>(s: seq<T>, i: nat, x: T): (r: seq<T>)
    requires i <= |s|
    ensures |r| == |s| + 1 && r[i] == x
    ensures forall j :: 0 <= j < i ==> r[j] == s[j]
    ensures forall j :: i < j < |r| ==> r[j] == s[j - 1]
  {
    s[..i] + [x] + s[i..]
  }

  /** Nothing of `[x, y)` lies in an entry. */
  predicate Clear<O>(list: seq<VmEntry<O>>, x: nat, y: nat) {
    forall i :: 0 <= i < |list| ==> y <= list[i].start || list[i].end <= x
  }

  /** The `length` pages from `x` on touch no entry. */
  predicate FreeAt<O>(list: seq<VmEntry<O>>, x: nat, length: nat) {
    Clear(list, x, x + length)
  }

  predicate Covers<O>(e: VmEntry<O>, addr: nat) { e.start <= addr < e.end }

  /** The first entry from position `i` on that covers `addr`. */
  function Covering<O>(list: seq<VmEntry<O>>, addr: nat, i: nat): (r: Option<nat>)
    requires i <= |list|
    ensures r.Some? ==> i <= r.value < |list| && Covers(list[r.value], addr)
    ensures forall j :: i <= j < (if r.Some? then r.value else |list|) ==> !Covers(list[j], addr)
    decreases |list| - i
  {
    if i == |list| then None else if Covers(list[i], addr) then Some(i) else Covering(list, addr, i + 1)
  }

  /** The tree refuses a key exactly when an entry starts there. */
  lemma SameStart<O>(list: seq<VmEntry<O>>, key: nat, lo: nat, hi: nat)
    requires Disjoint(list, lo, hi) && hi < PAGES && key < PAGES
    ensures Same(Starts(list), key) == None <==> forall i :: 0 <= i < |list| ==> list[i].start != key
    ensures Same(Starts(list), key) == None <==> key !in Starts(list)
  {
    var s := Starts(list);
    SameIs(s, key);
    forall i | 0 <= i < |list| ensures list[i].start == s[i] {}
    if key in s {
      var k :| 0 <= k < |s| && s[k] == key;
      assert list[k].start == key;
    }
  }

  /** Where a new key goes: after the smaller and before the larger starts. */
  lemma NextSplits<O>(list: seq<VmEntry<O>>, key: nat, lo: nat, hi: nat)
    requires Sorted(list) && Disjoint(list, lo, hi) && hi < PAGES && key !in Starts(list) && lo <= key < lo + SPAN
    requires key < PAGES
    ensures Splits(list, Next(Starts(list), key), key)
  {
    NextOrdered(Starts(list), key, lo);
    OrderedSplits(list, Starts(list), Next(Starts(list), key), key);
  }

  lemma OrderedSplits<O>(list: seq<VmEntry<O>>, s: seq<nat>, i: nat, key: nat)
    requires Sorted(list) && s == Starts(list) && key !in s && i <= |s|
    requires (i < |s| ==> s[i] > key) && forall j :: 0 <= j < i ==> s[j] <= key
    ensures Splits(list, i, key)
  {
    forall j | 0 <= j < i ensures list[j].start < key { assert s[j] in s && s[j] <= key; }
    forall j | i <= j < |list| ensures key < list[j].start {
      assert s[i] > key && s[i] == list[i].start && list[i].start <= list[j].start;
    }
  }

  /** `r` is `s` with `x` put in at position `i`. */
  ghost predicate IsInserted<T>(s: seq<T>, i: nat, x: T, r: seq<T>) {
    && i <= |s| && |r| == |s| + 1 && r[i] == x
    && (forall j :: 0 <= j < i ==> r[j] == s[j])
    && (forall j :: i < j < |r| ==> r[j] == s[j - 1])
  }

  /** Entries before position `i` start before `key`, the others after it. */
  ghost predicate Splits<O>(list: seq<VmEntry<O>>, i: nat, key: nat) {
    && i <= |list| && (forall j :: 0 <= j < i ==> list[j].start < key)
    && (forall j :: i <= j < |list| ==> key < list[j].start)
  }

  /** vm_map_insert_entry keeps the list sorted, */
  lemma InsertSorted<O>(list: seq<VmEntry<O>>, e: VmEntry<O>, i: nat, r: seq<VmEntry<O>>)
    requires Sorted(list) && Splits(list, i, e.start) && IsInserted(list, i, e, r)
    ensures Sorted(r)
  {
    forall x, y | 0 <= x < y < |r| ensures r[x].start < r[y].start {
      var x', y' := if x < i then x else x - 1, if y < i then y else y - 1;
      if x == i { assert r[y] == list[y']; }
      else if y == i { assert r[x] == list[x']; }
      else { assert r[x] == list[x'] && r[y] == list[y']; }
    }
  }

  /** equal to the tree's order, */
  lemma InsertStarts<O>(list: seq<VmEntry<O>>, e: VmEntry<O>, i: nat, r: seq<VmEntry<O>>, t: seq<nat>)
    requires IsInserted(list, i, e, r) && IsInserted(Starts(list), i, e.start, t)
    ensures Starts(r) == t
  {
    var s := Starts(r);
    forall j | 0 <= j < |s| ensures s[j] == t[j] {}
  }

  /** and free of overlap when the new entry is clear of the others. */
  lemma InsertDisjoint<O>(list: seq<VmEntry<O>>, e: VmEntry<O>, lo: nat, hi: nat, i: nat, r: seq<VmEntry<O>>)
    requires Splits(list, i, e.start) && IsInserted(list, i, e, r)
    requires Disjoint(list, lo, hi) && lo <= e.start <= e.end <= hi && e.start < lo + SPAN
    requires Clear(list, e.start, e.end)
    ensures Disjoint(r, lo, hi)
  {
    forall x | 0 <= x < |r| ensures lo <= r[x].start <= r[x].end <= hi && r[x].start < lo + SPAN {
      if x > i { assert r[x] == list[x - 1]; }
    }
    forall x, y | 0 <= x < y < |r| ensures r[x].end <= r[y].start {
      var x', y' := if x < i then x else x - 1, if y < i then y else y - 1;
      if x == i { assert r[y] == list[y']; }
      else if y == i { assert r[x] == list[x']; }
      else { assert r[x] == list[x'] && r[y] == list[y']; }
    }
  }

  lemma InsertKeeps<O>(list: seq<VmEntry<O>>, e: VmEntry<O>, lo: nat, hi: nat, i: nat, r: seq<VmEntry<O>>, t: seq<nat>)
    requires Sorted(list) && Disjoint(list, lo, hi) && hi < PAGES && e.start !in Starts(list)
    requires lo <= e.start <= e.end <= hi && e.start < lo + SPAN && Clear(list, e.start, e.end)
    requires i == Next(Starts(list), e.start) && IsInserted(list, i, e, r) && IsInserted(Starts(list), i, e.start, t)
    ensures Sorted(r) && Disjoint(r, lo, hi) && Starts(r) == t
  {
    NextSplits(list, e.start, lo, hi);
    InsertSorted(list, e, i, r);
    InsertStarts(list, e, i, r, t);
    InsertDisjoint(list, e, lo, hi, i, r);
  }

  /** The end of entry `i` can move to `end`: it stays, or the gap after the entry is enough. */
  predicate Fits<O>(list: seq<VmEntry<O>>, i: nat, end: nat, hi: nat)
    requires i < |list|
  {
    end == list[i].end || end <= if i + 1 < |list| then list[i + 1].start else hi
  }

  /** It can exactly when the entry then ends in the space and meets no other entry. */
  lemma FitsIff<O>(list: seq<VmEntry<O>>, i: nat, end: nat, lo: nat, hi: nat)
    requires Sorted(list) && Disjoint(list, lo, hi) && i < |list| && list[i].end <= end
    ensures Fits(list, i, end, hi) <==> end <= hi && Clear(list[..i] + list[i + 1..], list[i].start, end)
  {
    var others := list[..i] + list[i + 1..];
    forall k | 0 <= k < |others| ensures others[k] == list[if k < i then k else k + 1] {}
    if i + 1 < |list| { assert others[i] == list[i + 1]; }
    if Fits(list, i, end, hi) {
      forall k | 0 <= k < |others| ensures end <= others[k].start || others[k].end <= list[i].start {
        if k > i { assert list[i + 1].start <= list[k + 1].start; }
      }
    }
  }

  lemma ResizeKeeps<O>(list: seq<VmEntry<O>>, i: nat, end: nat, lo: nat, hi: nat)
    requires Sorted(list) && Disjoint(list, lo, hi) && i < |list| && list[i].end <= end <= hi
    requires i + 1 < |list| && end > list[i].end ==> end <= list[i + 1].start
    ensures Sorted(list[i := list[i].(end := end)]) && Disjoint(list[i := list[i].(end := end)], lo, hi)
  {
    var r := list[i := list[i].(end := end)];
    forall x, y | 0 <= x < y < |r| ensures r[x].end <= r[y].start {
      if x == i && i + 1 < y { assert list[i + 1].start < list[y].start; }
    }
  }

  lemma SameStarts<O>(list: seq<VmEntry<O>>, i: nat, end: nat)
    requires i < |list|
    ensures Starts(list[i := list[i].(end := end)]) == Starts(list)
  {
    var a, b := Starts(list[i := list[i].(end := end)]), Starts(list);
    forall j | 0 <= j < |a| ensures a[j] == b[j] {}
  }

  /** The sum of an address and a length in a 32-bit word */
  function Sum32(start: nat, length: nat): nat {
    if start + length < PAGES then start + length else start + length - PAGES
  }

  /** `r` is the least address from `from` on with `length` free pages in `[lo, hi)`. */
  ghost predicate IsLeast<O>(list: seq<VmEntry<O>>, lo: nat, hi: nat, from: nat, length: nat, r: Option<nat>) {
    && (r.Some? ==> from <= r.value && lo <= r.value && r.value + length <= hi && FreeAt(list, r.value, length))
    && forall x: nat :: from <= x && lo <= x && x + length <= hi && FreeAt(list, x, length) ==> r.Some? && r.value <= x
  }

  /** A sum that is looked at overflows: the first one, or, with nothing free, the sum at the end
      of an entry. */
  ghost predicate Overflows<O>(list: seq<VmEntry<O>>, lo: nat, hi: nat, from: nat, length: nat) {
    var first := if from < lo then lo else from;
    || PAGES <= first + length <= hi + PAGES
    || (first + length <= hi && NothingFree(list, hi, first, length)
        && exists i :: 0 <= i < |list| && list[i].end > first && list[i].end + length >= PAGES)
  }

  ghost predicate NothingFree<O>(list: seq<VmEntry<O>>, hi: nat, first: nat, length: nat) {
    forall x: nat :: first <= x && x + length <= hi ==> !FreeAt(list, x, length)
  }

  /** Nothing from `first` on and before `start` is free. */
  ghost predicate Passed<O>(list: seq<VmEntry<O>>, first: nat, length: nat, start: nat) {
    forall x: nat {:trigger FreeAt(list, x, length)} :: first <= x && FreeAt(list, x, length) ==> start <= x
  }

  lemma PassedEntry<O>(list: seq<VmEntry<O>>, first: nat, length: nat, start: nat, i: nat)
    requires Passed(list, first, length, start) && i < |list| && start + length > list[i].start
    ensures Passed(list, first, length, list[i].end)
  {
  }

  /** `start` is free when it lies in the gap before entry `i`. */
  lemma Found<O>(list: seq<VmEntry<O>>, lo: nat, hi: nat, from: nat, length: nat, first: nat, start: nat, i: nat)
    requires Sorted(list) && Passed(list, first, length, start) && first == (if from < lo then lo else from)
    requires first <= start && i <= |list|
    requires (forall j :: 0 <= j < i ==> list[j].end <= start) && (i < |list| ==> start + length <= list[i].start)
    requires start + length <= hi
    requires hi < PAGES
    ensures IsLeast(list, lo, hi, from, length, Some(start)) && !Overflows(list, lo, hi, from, length)
  {
    forall j | i <= j < |list| ensures start + length <= list[j].start { assert list[i].start <= list[j].start; }
    assert FreeAt(list, start, length);
  }

  lemma NotFound<O>(list: seq<VmEntry<O>>, lo: nat, hi: nat, from: nat, length: nat, first: nat, start: nat)
    requires Passed(list, first, length, start) && first == (if from < lo then lo else from) && first <= start
    requires hi < start + length < PAGES
    requires forall j :: 0 <= j < |list| ==> list[j].end <= start
    ensures IsLeast(list, lo, hi, from, length, None) && !Overflows(list, lo, hi, from, length)
  {
  }

  lemma FoundWrapped<O>(list: seq<VmEntry<O>>, lo: nat, hi: nat, from: nat, length: nat, first: nat, start: nat, i: nat)
    requires Passed(list, first, length, start) && first == (if from < lo then lo else from)
    requires first + length <= hi < PAGES
    requires i < |list| && start == list[i].end > first && start + length >= PAGES
    ensures !IsLeast(list, lo, hi, from, length, Some(start)) && Overflows(list, lo, hi, from, length)
  {
  }

  lemma NoneFits<O>(list: seq<VmEntry<O>>, lo: nat, hi: nat, from: nat, length: nat, first: nat)
    requires first == (if from < lo then lo else from) && Sum32(first, length) > hi
    ensures IsLeast(list, lo, hi, from, length, None) && !Overflows(list, lo, hi, from, length)
  {
  }

  /** It happens in every full space that ends less than `length` below 2^32. The kernel's ends at
      0xfffff000, so that there any length will do. */
  lemma FullSpaceOverflows<O>(e: VmEntry<O>, lo: nat, hi: nat, length: nat)
    requires e.start == lo && e.end == hi && 0 < length && lo + length <= hi && hi + length >= PAGES
    ensures Overflows([e], lo, hi, lo, length)
  {
    var list := [e];
    assert list[0].end + length >= PAGES;
    forall x: nat | lo <= x && x + length <= hi ensures !FreeAt(list, x, length) {
      assert !(x + length <= list[0].start || list[0].end <= x);
    }
  }

  class Entries<O> {
    const lo: nat
    const hi: nat
    var list: seq<VmEntry<O>>
    var tree: seq<nat>
    var nentries: nat

    ghost predicate Valid()
      reads this
    {
      lo <= hi < PAGES && Sorted(list) && Disjoint(list, lo, hi) && tree == Starts(list) && nentries == |list|
    }

    /** vm_map_setup */
    constructor (lo: nat, hi: nat)
      requires lo <= hi < PAGES
      ensures Valid() && list == [] && this.lo == lo && this.hi == hi
    {
      this.lo, this.hi, list, tree, nentries := lo, hi, [], [], 0;
    }

    /** vm_map_insert_entry */
    method Insert(e: VmEntry<O>) returns (ok: bool)
      requires Valid() && lo <= e.start <= e.end <= hi && e.start < lo + SPAN && Clear(list, e.start, e.end)
      modifies this`list, this`tree, this`nentries
      ensures Valid() && (ok <==> forall i :: 0 <= i < |old(list)| ==> old(list)[i].start != e.start)
      ensures list == if ok then InsertedAt(old(list), Next(Starts(old(list)), e.start), e) else old(list)
    {
      SameStart(list, e.start, lo, hi);
      if Same(tree, e.start).Some? {
        return false;
      }
      var i := Next(tree, e.start);
      var r, t := InsertedAt(list, i, e), InsertedAt(tree, i, e.start);
      InsertKeeps(list, e, lo, hi, i, r, t);
      tree := t;
      list := r;
      nentries := nentries + 1;
      return true;
    }

    /** vm_map_find_entry: the entry found is the only one that covers the address */
    method Find(addr: nat) returns (r: Option<nat>)
      requires Valid()
      ensures r == Covering(list, addr, 0)
      ensures r.Some? ==> r.value < |list| && Covers(list[r.value], addr)
      ensures forall i :: 0 <= i < |list| && r != Some(i) ==> !Covers(list[i], addr)
    {
      var i := 0;
      while i < |list|
        invariant 0 <= i <= |list| && Covering(list, addr, i) == Covering(list, addr, 0)
        invariant forall j :: 0 <= j < i ==> !Covers(list[j], addr)
      {
        if Covers(list[i], addr) {
          return Some(i);
        }
        i := i + 1;
      }
      return None;
    }

    /** vm_map_findspace. The answer is the least free address from `from` on, and none exactly
        when there is none, unless a 32-bit sum overflows. */
    method FindSpace(from: nat, length: nat) returns (r: Option<nat>)
      requires Valid() && from < PAGES && length < PAGES
      ensures IsLeast(list, lo, hi, from, length, r) <==> !Overflows(list, lo, hi, from, length)
      ensures Overflows(list, lo, hi, from, length) ==> r.Some? && r.value + length >= PAGES
    {
      var start := if from < lo then lo else from;
      if Sum32(start, length) > hi {
        NoneFits(list, lo, hi, from, length, start);
        return None;
      }
      if start + length >= PAGES {
        r := WrappedSearch(list, lo, hi, from, length, start);
        return;
      }
      r := Search(list, lo, hi, from, length, start);
    }

    /** The search when the first sum does not overflow */
    static method Search(list: seq<VmEntry<O>>, lo: nat, hi: nat, from: nat, length: nat, first: nat)
      returns (r: Option<nat>)
      requires hi < PAGES && Sorted(list) && Disjoint(list, lo, hi) && length < PAGES
      requires first == (if from < lo then lo else from) && first + length <= hi
      ensures IsLeast(list, lo, hi, from, length, r) <==> !Overflows(list, lo, hi, from, length)
      ensures Overflows(list, lo, hi, from, length) ==> r.Some? && r.value + length >= PAGES
    {
      var start := first;
      if list == [] || start + length <= list[0].start {
        Found(list, lo, hi, from, length, first, start, 0);
        return Some(start);
      }
      var i := 0;
      while i < |list|
        invariant 0 <= i <= |list| && first <= start <= hi && start + length < PAGES
        invariant forall j :: 0 <= j < i ==> list[j].end <= start
        invariant Passed(list, first, length, start)
        invariant i < |list| ==> start + length > list[i].start
        invariant i == |list| ==> start + length > hi
      {
        var gapEnd := if i + 1 < |list| then list[i + 1].start else hi;
        if start < list[i].end {
          PassedEntry(list, first, length, start, i);
          start := list[i].end;
        }
        if Sum32(start, length) <= gapEnd {
          if start + length >= PAGES {
            FoundWrapped(list, lo, hi, from, length, first, start, i);
          } else {
            Found(list, lo, hi, from, length, first, start, i + 1);
          }
          return Some(start);
        }
        i := i + 1;
      }
      NotFound(list, lo, hi, from, length, first, start);
      return None;
    }

    /** The search when it does */
    static method WrappedSearch(list: seq<VmEntry<O>>, lo: nat, hi: nat, from: nat, length: nat, first: nat)
      returns (r: Option<nat>)
      requires hi < PAGES && Sorted(list) && Disjoint(list, lo, hi) && length < PAGES
      requires first == (if from < lo then lo else from) && first < PAGES
      requires PAGES <= first + length <= hi + PAGES
      ensures Overflows(list, lo, hi, from, length) && r.Some? && r.value + length >= PAGES
      ensures !IsLeast(list, lo, hi, from, length, r)
    {
      var start := first;
      if list == [] || Sum32(start, length) <= list[0].start {
        return Some(start);
      }
      var i := 0;
      while i < |list|
        invariant 0 <= i <= |list| && start == first && forall j :: 0 <= j < i ==> list[j].end <= start
        invariant i == |list| ==> Sum32(start, length) > hi
      {
        var gapEnd := if i + 1 < |list| then list[i + 1].start else hi;
        if start < list[i].end {
          start := list[i].end;
        }
        if Sum32(start, length) <= gapEnd {
          return Some(start);
        }
        i := i + 1;
      }
      assert false;
      return None;
    }

    /** vm_map_resize of entry `i` */
    method Resize(i: nat, newEnd: nat) returns (ok: bool)
      requires Valid() && i < |list| && list[i].end <= newEnd
      modifies this`list
      ensures Valid()
      ensures ok <==> newEnd <= hi && Clear(old(list)[..i] + old(list)[i + 1..], old(list)[i].start, newEnd)
      ensures list == if ok then old(list)[i := old(list)[i].(end := newEnd)] else old(list)
    {
      FitsIff(list, i, newEnd, lo, hi);
      if newEnd > list[i].end {
        var gapEnd := if i + 1 < |list| then list[i + 1].start else hi;
        if newEnd > gapEnd {
          return false;
        }
      }
      SameStarts(list, i, newEnd);
      ResizeKeeps(list, i, newEnd, lo, hi);
      list := list[i := list[i].(end := newEnd)];
      return true;
    }
  }
}
