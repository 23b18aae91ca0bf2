/** The page tables of malta/pmap.c with the one TLB that all address spaces share. A TLB entry
    is tagged with an ASID and answers in every space when both its words have the G bit. */
module Mmu {
  import opened Basics
  import opened Pmap

  /** The kernel's pmap is set up first. */
  const KERNEL: nat := 0

  type Words = (bv32, bv32)

  /** What an entry is for: two pages, or, in the window at PT_BASE, two fragments */
  datatype Slot = PagePair(x: nat) | DirPair(y: nat)

  datatype TlbEntry = TlbEntry(slot: Slot, asid: nat, lo: Words)

  datatype Load = Load(slot: Slot, asid: nat)

  type Tables = map<nat, PageTable>

  predicate BothGlobal(lo: Words) { IsGlobal(lo.0) && IsGlobal(lo.1) }

  predicate Answers(e: TlbEntry, slot: Slot, asid: nat) { e.slot == slot && (e.asid == asid || BothGlobal(e.lo)) }

  /** The word of `lo` for page or fragment `n` */
  function Half(lo: Words, n: nat): bv32 { if n % 2 == 1 then lo.1 else lo.0 }

  // --------------------------------------------------------------- spaces

  function First(u: nat): nat { if u == KERNEL then 0xc_0400 else 0 }

  function Last(u: nat): nat { if u == KERNEL then 0xf_ffff else 0x8_0000 }

  predicate InRange(u: nat, page: nat) { First(u) <= page < Last(u) }

  /** A directory entry is unused, or it is valid and global and of the space's own range. */
  predicate DirOk(u: nat, t: PageTable, d: nat)
    requires d < |t.pde|
  {
    t.pde[d] == UnusedPde(d) || (IsValid(t.pde[d]) && IsGlobal(t.pde[d]) && if u == KERNEL then d > 768 else d < 512)
  }

  ghost predicate TableOk(u: nat, t: PageTable) {
    Ok(t) && forall d {:trigger DirOk(u, t, d)} :: 0 <= d < 1024 ==> DirOk(u, t, d)
  }

  /** Whose table the words come from when ASID `asid` runs: the kernel's for its own addresses */
  function Source(slot: Slot, asid: nat): nat {
    match slot
    case PagePair(x) => if InKernelSpace(2 * x) then KERNEL else asid
    case DirPair(y) => if InKernelSpace(2 * y * FRAGMENT) then KERNEL else asid
  }

  lemma SourceOf(u: nat, page: nat)
    requires InRange(u, page)
    ensures page < PAGES && (InKernelSpace(2 * (page / 2)) <==> u == KERNEL) && Source(PagePair(page / 2), u) == u
  {
  }

  /** The kernel's fragments are those of the upper quarter of the directory. */
  lemma DirSource(asid: nat, d: nat)
    requires d < 1024
    ensures Source(DirPair(d / 2), asid) == if d >= 768 then KERNEL else asid
  {
  }

  // -------------------------------------------------------------- the TLB

  /** The words a refill loads for `slot` from table `t`, if there are any: the words of two
      pages, or two directory entries of which one is valid */
  function WordsAt(t: PageTable, slot: Slot): Option<Words> {
    match slot
    case PagePair(x) => if 2 * x in t.pte && 2 * x + 1 in t.pte then Some((t.pte[2 * x], t.pte[2 * x + 1])) else None
    case DirPair(y) =>
      if 2 * y + 1 < |t.pde| && (IsValid(t.pde[2 * y]) || IsValid(t.pde[2 * y + 1]))
      then Some((t.pde[2 * y], t.pde[2 * y + 1])) else None
  }

  /** The handler for the window tags its entry with the ASID of the table. */
  predicate MayLoad(tables: Tables, l: Load) {
    var s := Source(l.slot, l.asid);
    s in tables && WordsAt(tables[s], l.slot).Some? && (l.slot.DirPair? ==> l.asid == s)
  }

  function Loaded(tables: Tables, l: Load): TlbEntry
    requires MayLoad(tables, l)
  {
    TlbEntry(l.slot, l.asid, WordsAt(tables[Source(l.slot, l.asid)], l.slot).value)
  }

  /** Refills, in order */
  function Filled(tables: Tables, tlb: set<TlbEntry>, loads: seq<Load>): set<TlbEntry> {
    if loads == [] then tlb
    else
      var r, l := Filled(tables, tlb, loads[..|loads| - 1]), loads[|loads| - 1];
      if MayLoad(tables, l) then r + {Loaded(tables, l)} else r
  }

  /** tlb_invalidate */
  function Without(tlb: set<TlbEntry>, slot: Slot, asid: nat): set<TlbEntry> {
    set e | e in tlb && !Answers(e, slot, asid)
  }

  /** A window entry may be older than the table: a fragment added since is then still unused in it. */
  predicate HalfOk(t: PageTable, d: nat, word: bv32)
    requires d < |t.pde|
  {
    word == t.pde[d] || word == UnusedPde(d)
  }

  predicate Current(t: PageTable, slot: Slot, lo: Words) {
    match slot
    case PagePair(x) => 2 * x in t.pte && 2 * x + 1 in t.pte && lo == (t.pte[2 * x], t.pte[2 * x + 1])
    case DirPair(y) => 2 * y + 1 < |t.pde| && HalfOk(t, 2 * y, lo.0) && HalfOk(t, 2 * y + 1, lo.1)
  }

  /** An entry that its own table's space would be answered by agrees with that table. */
  predicate EntryOk(tables: Tables, e: TlbEntry) {
    var s := Source(e.slot, e.asid);
    && s in tables && (Answers(e, e.slot, s) ==> Current(tables[s], e.slot, e.lo))
    && (e.slot.DirPair? ==> e.asid == s)
  }

  datatype Mem = Mem(tables: Tables, tlb: set<TlbEntry>)

  ghost predicate Good(m: Mem) {
    && (forall u {:trigger TableOk(u, m.tables[u])} :: u in m.tables ==> TableOk(u, m.tables[u]))
    && forall e {:trigger EntryOk(m.tables, e)} :: e in m.tlb ==> EntryOk(m.tables, e)
  }

  // ---------------------------------------------------------------- steps

  /** What the kernel and the hardware do to tables and TLB: refills and replacements at any time
      and from any table, pmap_setup, pmap_add_pde, a word stored and its pair invalidated, with
      refills between the two, and pmap_reset. A step that cannot be asked for does nothing. */
  datatype Step =
    | Hardware(evict: set<TlbEntry>, loads: seq<Load>)
    | Create(u: nat)
    | Fragment(u: nat, page: nat, frame: Frame)
    | Write(u: nat, page: nat, word: bv32, loads: seq<Load>)
    | Reset(u: nat)

  predicate HasPage(tables: Tables, u: nat, page: nat) { u in tables && InRange(u, page) && page in tables[u].pte }

  predicate MayAdd(tables: Tables, u: nat, page: nat) {
    u in tables && InRange(u, page) && Dir(page) < |tables[u].pde| && !IsValid(tables[u].pde[Dir(page)])
  }

  function Next(m: Mem, s: Step): Mem {
    match s
    case Hardware(evict, loads) => m.(tlb := Filled(m.tables, m.tlb - evict, loads))
    case Create(u) => if u in m.tables then m else m.(tables := m.tables[u := Empty()])
    case Fragment(u, page, frame) =>
      if MayAdd(m.tables, u, page) then m.(tables := m.tables[u := AddPde(m.tables[u], page, frame)]) else m
    case Write(u, page, word, loads) => if HasPage(m.tables, u, page) then Written(m, u, page, word, loads) else m
    case Reset(u) => Mem(m.tables - {u}, {})
  }

  function Written(m: Mem, u: nat, page: nat, word: bv32, loads: seq<Load>): Mem
    requires u in m.tables
  {
    var tables := m.tables[u := SetWord(m.tables[u], page, word)];
    Mem(tables, Without(Filled(tables, m.tlb, loads), PagePair(page / 2), u))
  }

  function Run(m: Mem, steps: seq<Step>): Mem {
    if steps == [] then m else Next(Run(m, steps[..|steps| - 1]), steps[|steps| - 1])
  }

  /** pmap_init and tlb_init */
  function Start(): Mem { Mem(map[KERNEL := Empty()], {}) }

  lemma EmptyTableOk(u: nat)
    ensures TableOk(u, Empty())
  {
    EmptyOk();
    forall d | 0 <= d < 1024 ensures DirOk(u, Empty(), d) {}
  }

  lemma LoadedOk(tables: Tables, l: Load)
    requires MayLoad(tables, l)
    ensures EntryOk(tables, Loaded(tables, l))
  {
  }

  /** A TLB entry was there before or is a fresh copy. */
  lemma {:induction false} FilledFrom(tables: Tables, tlb: set<TlbEntry>, loads: seq<Load>)
    ensures forall e :: e in Filled(tables, tlb, loads) && e !in tlb ==> EntryOk(tables, e)
  {
    if loads != [] {
      FilledFrom(tables, tlb, loads[..|loads| - 1]);
      if MayLoad(tables, loads[|loads| - 1]) { LoadedOk(tables, loads[|loads| - 1]); }
    }
  }

  lemma HardwareGood(m: Mem, evict: set<TlbEntry>, loads: seq<Load>)
    requires Good(m)
    ensures Good(Next(m, Hardware(evict, loads)))
  {
    FilledFrom(m.tables, m.tlb - evict, loads);
  }

  lemma CreateGood(m: Mem, u: nat)
    requires Good(m)
    ensures Good(Next(m, Create(u)))
  {
    EmptyTableOk(u);
    var m' := Next(m, Create(u));
    forall e | e in m'.tlb ensures EntryOk(m'.tables, e) { assert EntryOk(m.tables, e); }
  }

  /** A fragment is added where no word was, so that no page entry goes out of date. */
  lemma FragmentCurrent(t: PageTable, page: nat, frame: nat, slot: Slot, lo: Words)
    requires Ok(t) && page < PAGES && frame < PAGES && !IsValid(t.pde[Dir(page)])
    requires t.pde[Dir(page)] == UnusedPde(Dir(page))
    requires Current(t, slot, lo)
    ensures Current(AddPde(t, page, frame), slot, lo)
  {
    AddPdeKeeps(t, page, frame);
    if slot.PagePair? {
      assert SameWord(t, AddPde(t, page, frame), 2 * slot.x) && SameWord(t, AddPde(t, page, frame), 2 * slot.x + 1);
    }
  }

  lemma FragmentTable(u: nat, t: PageTable, page: nat, frame: nat)
    requires TableOk(u, t) && InRange(u, page) && frame < PAGES && !IsValid(t.pde[Dir(page)])
    ensures TableOk(u, AddPde(t, page, frame)) && t.pde[Dir(page)] == UnusedPde(Dir(page))
  {
    AddPdeKeeps(t, page, frame);
    DirWordValid(frame);
    assert DirOk(u, t, Dir(page));
    OwnDir(u, page);
    var t' := AddPde(t, page, frame);
    forall d | 0 <= d < 1024 ensures DirOk(u, t', d) { assert DirOk(u, t, d); }
  }

  lemma OwnDir(u: nat, page: nat)
    requires InRange(u, page)
    ensures if u == KERNEL then 768 < Dir(page) < 1024 else Dir(page) < 512
  {
  }

  lemma FragmentGood(m: Mem, u: nat, page: nat, frame: Frame)
    requires Good(m)
    ensures Good(Next(m, Fragment(u, page, frame)))
  {
    if MayAdd(m.tables, u, page) {
      var t, m' := m.tables[u], Next(m, Fragment(u, page, frame));
      assert TableOk(u, m.tables[u]);
      FragmentTable(u, t, page, frame);
      forall e | e in m'.tlb ensures EntryOk(m'.tables, e) {
        assert EntryOk(m.tables, e);
        if Source(e.slot, e.asid) == u && Answers(e, e.slot, u) { FragmentCurrent(t, page, frame, e.slot, e.lo); }
      }
      forall v | v in m'.tables ensures TableOk(v, m'.tables[v]) { assert v != u ==> TableOk(v, m.tables[v]); }
    }
  }

  lemma WrittenTable(u: nat, t: PageTable, page: nat, word: bv32)
    requires TableOk(u, t) && page in t.pte
    ensures TableOk(u, SetWord(t, page, word))
  {
    SetWordKeeps(t, page, word);
    forall d | 0 <= d < 1024 ensures DirOk(u, SetWord(t, page, word), d) { assert DirOk(u, t, d); }
  }

  /** Other pairs do not see the word. */
  lemma WrittenCurrent(t: PageTable, page: nat, word: bv32, slot: Slot, lo: Words)
    requires Current(t, slot, lo) && slot != PagePair(page / 2)
    ensures Current(SetWord(t, page, word), slot, lo)
  {
  }

  /** What the invalidation leaves agrees with the new table. */
  lemma WrittenEntry(m: Mem, u: nat, page: nat, word: bv32, e: TlbEntry)
    requires EntryOk(m.tables, e) && HasPage(m.tables, u, page) && !Answers(e, PagePair(page / 2), u)
    ensures EntryOk(m.tables[u := SetWord(m.tables[u], page, word)], e)
  {
    SourceOf(u, page);
    if Source(e.slot, e.asid) == u && Answers(e, e.slot, u) {
      WrittenCurrent(m.tables[u], page, word, e.slot, e.lo);
    }
  }

  lemma WriteGood(m: Mem, u: nat, page: nat, word: bv32, loads: seq<Load>)
    requires Good(m) && HasPage(m.tables, u, page)
    ensures Good(Written(m, u, page, word, loads))
  {
    var m' := Written(m, u, page, word, loads);
    assert TableOk(u, m.tables[u]);
    WrittenTable(u, m.tables[u], page, word);
    FilledFrom(m'.tables, m.tlb, loads);
    forall e | e in m'.tlb ensures EntryOk(m'.tables, e) {
      if e in m.tlb { WrittenEntry(m, u, page, word, e); }
    }
    forall v | v in m'.tables ensures TableOk(v, m'.tables[v]) { assert v != u ==> TableOk(v, m.tables[v]); }
  }

  lemma ResetGood(m: Mem, u: nat)
    requires Good(m)
    ensures Good(Next(m, Reset(u)))
  {
    var m' := Next(m, Reset(u));
    forall v | v in m'.tables ensures TableOk(v, m'.tables[v]) { assert TableOk(v, m.tables[v]); }
  }

  /** Over every run the entries agree with the tables they were loaded from. */
  lemma {:induction false} RunGood(m: Mem, steps: seq<Step>)
    requires Good(m)
    ensures Good(Run(m, steps))
  {
    if steps != [] {
      RunGood(m, steps[..|steps| - 1]);
      var n := Run(m, steps[..|steps| - 1]);
      match steps[|steps| - 1]
      case Hardware(evict, loads) => HardwareGood(n, evict, loads);
      case Create(u) => CreateGood(n, u);
      case Fragment(u, page, frame) => FragmentGood(n, u, page, frame);
      case Write(u, page, word, loads) => if HasPage(n.tables, u, page) { WriteGood(n, u, page, word, loads); }
      case Reset(u) => ResetGood(n, u);
    }
  }

  lemma StartGood()
    ensures Good(Start())
  {
    EmptyTableOk(KERNEL);
  }

  // ------------------------------------------- the kernel's pages elsewhere

  /** The entry has the words that its table has now, whoever runs. */
  predicate SeenOk(tables: Tables, e: TlbEntry) {
    var s := Source(e.slot, e.asid);
    s in tables && Current(tables[s], e.slot, e.lo)
  }

  /** Every space that runs sees the current words, those of the kernel included. */
  ghost predicate Seen(m: Mem) {
    forall e {:trigger SeenOk(m.tables, e)} :: e in m.tlb ==> SeenOk(m.tables, e)
  }

  lemma {:induction false} FilledSeen(tables: Tables, tlb: set<TlbEntry>, loads: seq<Load>)
    ensures forall e :: e in Filled(tables, tlb, loads) && e !in tlb ==> SeenOk(tables, e)
  {
    if loads != [] { FilledSeen(tables, tlb, loads[..|loads| - 1]); }
  }

  /** The store of `word` does no harm elsewhere: the page is not the kernel's, both words of its pair are
      global, or nothing changes. */
  predicate Safe(tables: Tables, u: nat, page: nat, word: bv32)
    requires u in tables
  {
    var w := WordsAt(tables[u], PagePair(page / 2));
    u != KERNEL || (w.Some? && BothGlobal(w.value)) || WordOf(tables[u], page) == word
  }

  lemma WrittenSeen(m: Mem, u: nat, page: nat, word: bv32, e: TlbEntry)
    requires SeenOk(m.tables, e) && HasPage(m.tables, u, page) && !Answers(e, PagePair(page / 2), u)
    requires Safe(m.tables, u, page, word)
    ensures SeenOk(m.tables[u := SetWord(m.tables[u], page, word)], e)
  {
    SourceOf(u, page);
    var t := m.tables[u];
    if WordOf(t, page) == word {
      assert t.pte[page := word] == t.pte;
    } else if Source(e.slot, e.asid) == u {
      WrittenCurrent(t, page, word, e.slot, e.lo);
    }
  }

  lemma WriteSeen(m: Mem, u: nat, page: nat, word: bv32, loads: seq<Load>)
    requires Seen(m) && HasPage(m.tables, u, page) && Safe(m.tables, u, page, word)
    ensures Seen(Written(m, u, page, word, loads))
  {
    var m' := Written(m, u, page, word, loads);
    FilledSeen(m'.tables, m.tlb, loads);
    forall e | e in m'.tlb ensures SeenOk(m'.tables, e) {
      if e in m.tlb { WrittenSeen(m, u, page, word, e); }
    }
  }

  lemma HardwareSeen(m: Mem, evict: set<TlbEntry>, loads: seq<Load>)
    requires Seen(m)
    ensures Seen(Next(m, Hardware(evict, loads)))
  {
    FilledSeen(m.tables, m.tlb - evict, loads);
  }

  /** The pair of a page of the kernel is loaded whole. */
  lemma PairPresent(t: PageTable, page: nat)
    requires Ok(t) && page in t.pte
    ensures WordsAt(t, PagePair(page / 2)).Some?
  {
    var x := page / 2;
    assert page == 2 * x + page % 2 && Dir(2 * x) == Dir(page) && Dir(2 * x + 1) == Dir(page);
  }

  /** A store to a page of the kernel after a word of its pair has lost the G bit: a refill before it by
      another space survives the invalidation and is out of date. */
  lemma StaleElsewhere(m: Mem, page: nat, word: bv32)
    requires Good(m) && HasPage(m.tables, KERNEL, page) && !Safe(m.tables, KERNEL, page, word)
    ensures !Seen(Written(Next(m, Hardware({}, [Load(PagePair(page / 2), 1)])), KERNEL, page, word, []))
  {
    var l, t := Load(PagePair(page / 2), 1), m.tables[KERNEL];
    assert TableOk(KERNEL, m.tables[KERNEL]);
    PairPresent(t, page);
    SourceOf(KERNEL, page);
    var m1, e := Next(m, Hardware({}, [l])), Loaded(m.tables, l);
    assert Filled(m.tables, m.tlb - {}, [l][..0]) == m.tlb - {};
    var m2 := Written(m1, KERNEL, page, word, []);
    assert e in m1.tlb && e in m2.tlb;
    StaleWords(t, page, word, e.lo);
    assert !SeenOk(m2.tables, e);
  }

  lemma StaleWords(t: PageTable, page: nat, word: bv32, lo: Words)
    requires page in t.pte && t.pte[page] != word && WordsAt(t, PagePair(page / 2)) == Some(lo)
    ensures !Current(SetWord(t, page, word), PagePair(page / 2), lo)
  {
    assert page == 2 * (page / 2) + page % 2;
  }

  /** After a store every space sees the current words, whatever refills come around it, exactly when the
      store is safe. */
  lemma SeenIffSafe(m: Mem, u: nat, page: nat, word: bv32)
    requires Good(m) && Seen(m) && HasPage(m.tables, u, page)
    ensures (forall h: Step, loads :: h.Hardware? ==> Seen(Written(Next(m, h), u, page, word, loads)))
       <==> Safe(m.tables, u, page, word)
  {
    if Safe(m.tables, u, page, word) {
      forall h: Step, loads | h.Hardware? ensures Seen(Written(Next(m, h), u, page, word, loads)) {
        HardwareSeen(m, h.evict, h.loads);
        WriteSeen(Next(m, h), u, page, word, loads);
      }
    } else {
      StaleElsewhere(m, page, word);
    }
  }

  /** So the next store after pmap_unmap has cleared a word is never safe. */
  lemma ClearedUnsafe(m: Mem, page: nat, word: bv32, loads: seq<Load>)
    requires HasPage(m.tables, KERNEL, page) && word != 0
    ensures !Safe(Written(m, KERNEL, page, 0, loads).tables, KERNEL, page, word)
  {
    assert !IsGlobal(0) && page == 2 * (page / 2) + page % 2;
  }

  predicate SafeStep(m: Mem, s: Step) {
    s.Write? && HasPage(m.tables, s.u, s.page) ==> Safe(m.tables, s.u, s.page, s.word)
  }

  ghost predicate SafeRun(m: Mem, steps: seq<Step>) {
    if steps == [] then true
    else SafeRun(m, steps[..|steps| - 1]) && SafeStep(Run(m, steps[..|steps| - 1]), steps[|steps| - 1])
  }

  lemma FragmentSeen(m: Mem, u: nat, page: nat, frame: Frame)
    requires Good(m) && Seen(m) && MayAdd(m.tables, u, page)
    ensures Seen(Next(m, Fragment(u, page, frame)))
  {
    var t, m' := m.tables[u], Next(m, Fragment(u, page, frame));
    assert TableOk(u, m.tables[u]);
    FragmentTable(u, t, page, frame);
    forall e | e in m'.tlb ensures SeenOk(m'.tables, e) {
      assert SeenOk(m.tables, e);
      if Source(e.slot, e.asid) == u { FragmentCurrent(t, page, frame, e.slot, e.lo); }
    }
  }

  lemma StepSeen(m: Mem, s: Step)
    requires Good(m) && Seen(m) && SafeStep(m, s)
    ensures Seen(Next(m, s))
  {
    match s
    case Hardware(evict, loads) => HardwareSeen(m, evict, loads);
    case Create(u) =>
      forall e | e in Next(m, s).tlb ensures SeenOk(Next(m, s).tables, e) { assert SeenOk(m.tables, e); }
    case Fragment(u, page, frame) => if MayAdd(m.tables, u, page) { FragmentSeen(m, u, page, frame); }
    case Write(u, page, word, loads) => if HasPage(m.tables, u, page) { WriteSeen(m, u, page, word, loads); }
    case Reset(u) =>
  }

  /** Over every run whose stores are safe, every space sees the current words. */
  lemma {:induction false} RunSeen(m: Mem, steps: seq<Step>)
    requires Good(m) && Seen(m) && SafeRun(m, steps)
    ensures Seen(Run(m, steps))
  {
    if steps != [] {
      RunSeen(m, steps[..|steps| - 1]);
      RunGood(m, steps[..|steps| - 1]);
      StepSeen(Run(m, steps[..|steps| - 1]), steps[|steps| - 1]);
    }
  }

  // --------------------------------------------------- the mismatch panic

  /** An entry that answers for page `p` of space `u` has another word than the table. */
  predicate Differs(m: Mem, u: nat, p: nat, e: TlbEntry)
    requires u in m.tables
  {
    Answers(e, PagePair(p / 2), u) && Half(e.lo, p) != WordOf(m.tables[u], p)
  }

  predicate Mismatched(m: Mem, u: nat, p: nat)
    requires u in m.tables
  {
    exists e :: e in m.tlb && Differs(m, u, p, e)
  }

  /** Another space has two global words for the pair of `p`, and not the word of `u`. */
  predicate Contradicts(tables: Tables, u: nat, p: nat, a: nat)
    requires u in tables && a in tables
  {
    var w := WordsAt(tables[a], PagePair(p / 2));
    && a != u && Source(PagePair(p / 2), a) == a && w.Some? && BothGlobal(w.value)
    && Half(w.value, p) != WordOf(tables[u], p)
  }

  predicate Contradicted(tables: Tables, u: nat, p: nat)
    requires u in tables
  {
    exists a :: a in tables && Contradicts(tables, u, p, a)
  }

  lemma CurrentHalf(t: PageTable, p: nat, lo: Words)
    requires Current(t, PagePair(p / 2), lo)
    ensures WordsAt(t, PagePair(p / 2)) == Some(lo) && Half(lo, p) == WordOf(t, p)
  {
    assert p == 2 * (p / 2) + p % 2;
  }

  /** An entry that differs was loaded by such a space. */
  lemma DiffersFrom(m: Mem, u: nat, p: nat, e: TlbEntry)
    requires Good(m) && u in m.tables && InRange(u, p) && e in m.tlb && Differs(m, u, p, e)
    ensures e.asid in m.tables && Contradicts(m.tables, u, p, e.asid)
  {
    assert EntryOk(m.tables, e);
    SourceOf(u, p);
    var s := Source(e.slot, e.asid);
    CurrentHalf(m.tables[s], p, e.lo);
  }

  lemma MismatchedFrom(m: Mem, u: nat, p: nat)
    requires Good(m) && u in m.tables && InRange(u, p) && Mismatched(m, u, p)
    ensures Contradicted(m.tables, u, p)
  {
    var e :| e in m.tlb && Differs(m, u, p, e);
    DiffersFrom(m, u, p, e);
  }

  /** One refill by such a space suffices. */
  lemma MismatchComes(m: Mem, u: nat, p: nat, a: nat)
    requires u in m.tables && a in m.tables && Contradicts(m.tables, u, p, a)
    ensures Mismatched(Next(m, Hardware({}, [Load(PagePair(p / 2), a)])), u, p)
  {
    var l := Load(PagePair(p / 2), a);
    var m', e := Next(m, Hardware({}, [l])), Loaded(m.tables, l);
    assert Filled(m.tables, m.tlb - {}, [l][..0]) == m.tlb - {};
    assert e in m'.tlb && Differs(m', u, p, e);
  }

  /** In every state a run reaches: refills can lead to a TLB that contradicts the table of `u` at
      page `p` exactly when another space has both words of the pair global and another word
      there than `u`. */
  lemma MismatchIff(steps: seq<Step>, u: nat, p: nat)
    requires u in Run(Start(), steps).tables && InRange(u, p)
    ensures var m := Run(Start(), steps);
            (exists h: Step :: h.Hardware? && Mismatched(Next(m, h), u, p)) <==> Contradicted(m.tables, u, p)
  {
    StartGood();
    RunGood(Start(), steps);
    var m := Run(Start(), steps);
    if Contradicted(m.tables, u, p) {
      var a :| a in m.tables && Contradicts(m.tables, u, p, a);
      MismatchComes(m, u, p, a);
    } else {
      forall h: Step | h.Hardware? ensures !Mismatched(Next(m, h), u, p) {
        HardwareGood(m, h.evict, h.loads);
        if Mismatched(Next(m, h), u, p) { MismatchedFrom(Next(m, h), u, p); }
      }
    }
  }

  // ----------------------------------------------------------- the window

  /** Through the window, space `u` reaches another frame than that of its own fragment `d`. */
  predicate Astray(m: Mem, u: nat, d: nat, e: TlbEntry)
    requires u in m.tables && d < |m.tables[u].pde|
  {
    Answers(e, DirPair(d / 2), u) && IsValid(Half(e.lo, d)) && Half(e.lo, d) != m.tables[u].pde[d]
  }

  predicate WindowAstray(m: Mem, u: nat, d: nat)
    requires u in m.tables && d < |m.tables[u].pde|
  {
    exists e :: e in m.tlb && Astray(m, u, d, e)
  }

  /** Another space has fragment `d` and the one beside it in the pair, and `u` not the same. */
  predicate Overlays(tables: Tables, u: nat, d: nat, a: nat)
    requires u in tables && a in tables && d < |tables[u].pde| == |tables[a].pde| == 1024
  {
    var y := d / 2;
    a != u && IsValid(tables[a].pde[2 * y]) && IsValid(tables[a].pde[2 * y + 1]) && tables[a].pde[d] != tables[u].pde[d]
  }

  predicate Overlaid(tables: Tables, u: nat, d: nat)
    requires u in tables && d < 1024 && forall a :: a in tables ==> |tables[a].pde| == 1024
  {
    exists a :: a in tables && Overlays(tables, u, d, a)
  }

  /** The directories of `u`'s own range */
  predicate OwnDirs(u: nat, d: nat) { if u == KERNEL then 768 < d < 1024 else d < 512 }

  lemma SourceOfDir(u: nat, d: nat)
    requires OwnDirs(u, d)
    ensures InKernelSpace(2 * (d / 2) * FRAGMENT) <==> u == KERNEL
    ensures u != KERNEL ==> !IsGlobal(UnusedPde(2 * (d / 2))) && !IsGlobal(UnusedPde(2 * (d / 2) + 1))
  {
    assert !IsGlobal(0);
  }

  lemma AstrayFrom(m: Mem, u: nat, d: nat, e: TlbEntry)
    requires Good(m) && u in m.tables && OwnDirs(u, d) && |m.tables[u].pde| == 1024 && e in m.tlb && Astray(m, u, d, e)
    ensures e.asid in m.tables && |m.tables[e.asid].pde| == 1024 && Overlays(m.tables, u, d, e.asid)
  {
    assert EntryOk(m.tables, e);
    SourceOfDir(u, d);
    var y := d / 2;
    assert d == 2 * y + d % 2;
    UnusedNotValid(d);
    assert TableOk(e.asid, m.tables[e.asid]);
    assert DirOk(e.asid, m.tables[e.asid], 2 * y) && DirOk(e.asid, m.tables[e.asid], 2 * y + 1);
  }

  lemma AstrayComes(m: Mem, u: nat, d: nat, a: nat)
    requires Good(m) && u in m.tables && OwnDirs(u, d) && a in m.tables
    requires |m.tables[u].pde| == |m.tables[a].pde| == 1024 && Overlays(m.tables, u, d, a)
    ensures WindowAstray(Next(m, Hardware({}, [Load(DirPair(d / 2), a)])), u, d)
  {
    var l, y := Load(DirPair(d / 2), a), d / 2;
    SourceOfDir(u, d);
    assert d == 2 * y + d % 2;
    UnusedNotValid(2 * y);
    UnusedNotValid(2 * y + 1);
    assert TableOk(a, m.tables[a]);
    assert DirOk(a, m.tables[a], 2 * y) && DirOk(a, m.tables[a], 2 * y + 1);
    var m', e := Next(m, Hardware({}, [l])), Loaded(m.tables, l);
    assert Filled(m.tables, m.tlb - {}, [l][..0]) == m.tlb - {};
    assert e in m'.tlb && Astray(m', u, d, e);
  }

  lemma Directories(m: Mem)
    requires Good(m)
    ensures forall a :: a in m.tables ==> |m.tables[a].pde| == 1024
  {
    forall a | a in m.tables ensures |m.tables[a].pde| == 1024 { assert TableOk(a, m.tables[a]); }
  }

  /** In every state a run reaches: refills can lead the window of `u` at fragment `d` to a frame
      that is not `u`'s exactly when another space has both fragments of the pair. */
  lemma WindowIff(steps: seq<Step>, u: nat, d: nat)
    requires u in Run(Start(), steps).tables && OwnDirs(u, d)
    ensures var m := Run(Start(), steps);
            && (forall a :: a in m.tables ==> |m.tables[a].pde| == 1024)
            && ((exists h: Step :: h.Hardware? && WindowAstray(Next(m, h), u, d)) <==> Overlaid(m.tables, u, d))
  {
    StartGood();
    RunGood(Start(), steps);
    var m := Run(Start(), steps);
    Directories(m);
    if Overlaid(m.tables, u, d) {
      var a :| a in m.tables && Overlays(m.tables, u, d, a);
      AstrayComes(m, u, d, a);
    } else {
      forall h: Step | h.Hardware? ensures !WindowAstray(Next(m, h), u, d) {
        HardwareGood(m, h.evict, h.loads);
        if WindowAstray(Next(m, h), u, d) {
          var e :| e in Next(m, h).tlb && Astray(Next(m, h), u, d, e);
          AstrayFrom(Next(m, h), u, d, e);
        }
      }
    }
  }

  // ------------------------------------------------------------ the calls

  /** `AlreadyMapped` is the panic of pmap_map, `NoFrame` the crash without a frame for a fragment. */
  datatype MapResult = Mapped | AlreadyMapped | NoFrame

  /** pmap_unmap and pmap_protect: an assertion fails first, or the window faults at a page whose
      fragment is missing. */
  datatype RangeResult = Done | NotMapped | Fault(page: nat)

  datatype ProbeResult = Yes | No | Mismatch

  /** What pmap_unmap (`prot` none) or pmap_protect leaves for a word */
  function Edited(word: bv32, prot: Option<Prot>): bv32 { if prot == None then 0 else Changed(word, prot.value) }

  /** From `t0` to `t` the words of `[a, b)` were edited and no others. */
  ghost predicate EditsRange(t0: PageTable, t: PageTable, a: nat, b: nat, prot: Option<Prot>) {
    && t.pte.Keys == t0.pte.Keys
    && (forall q: nat {:trigger q in t.pte} ::
          a <= q < b ==> q in t0.pte && q in t.pte && t.pte[q] == Edited(t0.pte[q], prot))
    && (forall q: nat {:trigger SameWord(t0, t, q)} :: !(a <= q < b) ==> SameWord(t0, t, q))
  }

  lemma EditsNext(t0: PageTable, t: PageTable, a: nat, p: nat, prot: Option<Prot>)
    requires a <= p && EditsRange(t0, t, a, p, prot) && p in t.pte
    ensures EditsRange(t0, SetWord(t, p, Edited(t.pte[p], prot)), a, p + 1, prot)
  {
    var t' := SetWord(t, p, Edited(t.pte[p], prot));
    assert SameWord(t0, t, p);
    forall q: nat | !(a <= q < p + 1) ensures SameWord(t0, t', q) { assert SameWord(t0, t, q); }
  }

  /** The pages of `[a, b)` have the protection `prot`. */
  ghost predicate AllMappedAs(t: PageTable, a: nat, b: nat, prot: Prot) {
    forall q: nat {:trigger MappedAs(t, q, prot)} :: a <= q < b ==> MappedAs(t, q, prot)
  }

  lemma WritesRangeMeans(t0: PageTable, t: PageTable, a: nat, b: nat, paddr: bv32, prot: Prot)
    requires WritesRange(t0, t, a, b, paddr, prot)
    ensures AllMappedAs(t, a, b, prot)
    ensures paddr & 0xfff == 0 ==> MapsRange(t0, t, a, b, paddr, prot)
  {
    forall q: nat | a <= q < b ensures MappedAs(t, q, prot) {
      EntryMeans(t, q, PhysAt(paddr, q - a), prot, InKernelSpace(q));
    }
    if paddr & 0xfff == 0 { WritesRangeMaps(t0, t, a, b, paddr, prot); }
  }

  /** After pmap_protect the pages have the new protection; after pmap_unmap they do not translate. */
  /** The words of `[a, b)` are zero. */
  ghost predicate AllZero(t: PageTable, a: nat, b: nat) {
    forall q: nat {:trigger q in t.pte} :: a <= q < b ==> q in t.pte && t.pte[q] == 0
  }

  lemma EditsRangeMeans(t0: PageTable, t: PageTable, a: nat, b: nat, prot: Option<Prot>)
    requires EditsRange(t0, t, a, b, prot)
    ensures prot == None ==> AllZero(t, a, b)
    ensures AllMappedAs(t, a, b, if prot == None then 0 else prot.value)
  {
    var p: Prot := if prot == None then 0 else prot.value;
    if prot == None {
      forall q: nat | a <= q < b ensures q in t.pte && t.pte[q] == 0 { assert q in t.pte; }
    }
    forall q: nat | a <= q < b ensures MappedAs(t, q, p) {
      assert q in t.pte;
      if prot.Some? {
        ChangesTranslate(t0, t, q, prot.value);
        TargetMeans(t, q, PfnOf(t0.pte[q]), prot.value);
      } else {
        assert !IsValid(0);
      }
    }
  }

  /** pmap_protect maps no page that was not mapped exactly when it takes all access away or every page of
      the range was mapped. Otherwise a page that was never touched comes to be mapped to frame 0, and
      `Pmap.RangeCheckIff` says when the check lets this pass. */
  lemma ProtectMapsNoneIff(t0: PageTable, t: PageTable, a: nat, b: nat, prot: Prot)
    requires EditsRange(t0, t, a, b, Some(prot))
    ensures (forall q: nat :: Translate(t, q).Some? ==> Translate(t0, q).Some?) <==> prot == 0 || AllMapped(t0, a, b)
  {
    forall q: nat ensures a <= q < b ==> Translate(t, q).Some? == (prot != 0) {
      if a <= q < b {
        assert q in t.pte;
        ChangesTranslate(t0, t, q, prot);
      }
    }
    forall q: nat ensures !(a <= q < b) ==> Translate(t, q) == Translate(t0, q) {
      if !(a <= q < b) { SameWordTranslates(t0, t, q); }
    }
  }

  /** pmap_is_range_mapped ends on the tables of both kinds of space. */
  lemma RangeCheckable(u: nat, t: PageTable, a: nat, b: nat)
    requires TableOk(u, t) && First(u) <= a < b <= Last(u)
    ensures Checkable(t, a, b)
  {
    if Wraps(a, b) {
      assert DirOk(u, t, 0);
      UnusedNotValid(0);
    }
  }

  lemma WordAt(u: nat, t: PageTable, p: nat)
    requires Ok(t) && InRange(u, p)
    ensures FragmentPresent(t, p) <==> p in t.pte
  {
    SourceOf(u, p);
  }

  /** The protection test of pmap_probe */
  method HasBits(t: PageTable, p: nat, word: bv32, prot: Prot) returns (r: ProbeResult)
    requires word == WordOf(t, p)
    ensures r == if HasProt(t, p, prot) then Yes else No
  {
    r := if word & PTE_PROT_MASK == ProtBits(prot) then Yes else No;
  }

  class Mmu {
    var tables: Tables
    var tlb: set<TlbEntry>
    var asids: nat

    ghost predicate Valid()
      reads this
    {
      Good(Mem(tables, tlb)) && forall u :: u in tables ==> u < asids
    }

    /** pmap_init after tlb_init */
    constructor ()
      ensures Valid() && Mem(tables, tlb) == Start() && asids == 1
    {
      var t := Setup();
      StartGood();
      tables, tlb, asids := map[KERNEL := t], {}, 1;
    }

    /** pmap_new; without an ASID it panics */
    method New() returns (r: Option<nat>)
      requires Valid()
      modifies this`tables, this`asids
      ensures Valid() && (r.Some? <==> old(asids) < MAX_ASID)
      ensures r.Some? ==> r.value == old(asids) && r.value !in old(tables) && asids == r.value + 1
      ensures Mem(tables, tlb)
           == if r.Some? then Next(old(Mem(tables, tlb)), Create(r.value)) else old(Mem(tables, tlb))
    {
      if asids >= MAX_ASID {
        return None;
      }
      var t := Setup();
      CreateGood(Mem(tables, tlb), asids);
      tables, asids := tables[asids := t], asids + 1;
      return Some(asids - 1);
    }

    /** pmap_reset */
    method Delete(u: nat)
      requires Valid()
      modifies this`tables, this`tlb
      ensures Valid() && Mem(tables, tlb) == Next(old(Mem(tables, tlb)), Reset(u))
    {
      ResetGood(Mem(tables, tlb), u);
      tables, tlb := tables - {u}, {};
    }

    /** The hardware may load and replace TLB entries between any two operations. */
    method Hardware(evict: set<TlbEntry>, loads: seq<Load>)
      requires Valid()
      modifies this`tlb
      ensures Valid() && Mem(tables, tlb) == Next(old(Mem(tables, tlb)), Step.Hardware(evict, loads))
    {
      HardwareGood(Mem(tables, tlb), evict, loads);
      tlb := Filled(tables, tlb - evict, loads);
    }

    /** Store a word, let the hardware refill meanwhile, then invalidate the pair. */
    method Store(u: nat, page: nat, word: bv32, meanwhile: seq<Load>)
      requires Valid() && HasPage(tables, u, page)
      modifies this`tables, this`tlb
      ensures Valid() && Mem(tables, tlb) == Written(old(Mem(tables, tlb)), u, page, word, meanwhile)
      ensures tables == old(tables)[u := SetWord(old(tables)[u], page, word)]
    {
      WriteGood(Mem(tables, tlb), u, page, word, meanwhile);
      tables := tables[u := SetWord(tables[u], page, word)];
      tlb := Filled(tables, tlb, meanwhile);
      tlb := Without(tlb, PagePair(page / 2), u);
    }

    /** pmap_set_pte; no frame for a missing fragment is a crash */
    method SetPteAt(u: nat, page: nat, paddr: bv32, prot: Prot, frame: Option<Frame>, meanwhile: seq<Load>)
      returns (ok: bool, took: bool)
      requires Valid() && u in tables && InRange(u, page)
      modifies this`tables, this`tlb
      ensures Valid() && Ok(old(tables)[u])
      ensures took == (ok && !IsValid(old(tables)[u].pde[Dir(page)]))
      ensures ok == (IsValid(old(tables)[u].pde[Dir(page)]) || frame.Some?)
      ensures !ok ==> tables == old(tables)
      ensures ok ==> var f: Frame := if frame.Some? then frame.value else 0;
                     tables == old(tables)[u := SetPte(old(tables)[u], page, paddr, prot, f)]
    {
      assert TableOk(u, tables[u]);
      SourceOf(u, page);
      took := false;
      if !IsValid(tables[u].pde[Dir(page)]) {
        if frame == None {
          return false, false;
        }
        AddPdeKeeps(tables[u], page, frame.value);
        FragmentGood(Mem(tables, tlb), u, page, frame.value);
        tables := tables[u := AddPde(tables[u], page, frame.value)];
        took := true;
      }
      Store(u, page, Entry(paddr, prot, InKernelSpace(page)), meanwhile);
      ok := true;
    }

    /** One page of pmap_map. */
    method MapNext(u: nat, p: nat, pa: bv32, prot: Prot, frame: Option<Frame>, meanwhile: seq<Load>,
            ghost t0: PageTable, ghost a: nat, ghost paddr: bv32)
      returns (ok: bool, took: bool)
      requires Valid() && u in tables && InRange(u, p) && a <= p && pa == PhysAt(paddr, p - a)
      requires WritesRange(t0, tables[u], a, p, paddr, prot)
      modifies this`tables, this`tlb
      ensures Valid() && u in tables && tables == old(tables)[u := tables[u]]
      ensures (!ok ==> frame == None && p !in old(tables)[u].pte) && (took ==> frame.Some?)
      ensures tables[u].frags == if took then old(tables)[u].frags + [frame.value] else old(tables)[u].frags
      ensures ok ==> WritesRange(t0, tables[u], a, p + 1, paddr, prot)
    {
      assert TableOk(u, tables[u]);
      SourceOf(u, p);
      ghost var f: Frame := if frame.Some? then frame.value else 0;
      SetPteKeeps(tables[u], p, pa, prot, f);
      WritesNext(t0, tables[u], SetPte(tables[u], p, pa, prot, f), a, p, paddr, prot);
      ok, took := SetPteAt(u, p, pa, prot, frame, meanwhile);
    }

    /** The loop of pmap_map. */
    method MapLoop(u: nat, a: nat, b: nat, paddr: bv32, prot: Prot, supply: seq<Frame>, meanwhile: seq<Load>)
      returns (ok: bool)
      requires Valid() && u in tables && First(u) <= a < b <= Last(u)
      modifies this`tables, this`tlb
      ensures Valid() && u in tables && tables == old(tables)[u := tables[u]]
      ensures |supply| >= b - a || (forall p: nat :: a <= p < b ==> p in old(tables)[u].pte) ==> ok
      ensures Listed(old(tables)[u], tables[u], supply)
      ensures ok ==> WritesRange(old(tables)[u], tables[u], a, b, paddr, prot)
    {
      var p, pa, used := a, paddr, 0;
      ghost var t0 := tables[u];
      while p < b
        invariant a <= p <= b && Valid() && pa == PhysAt(paddr, p - a) && 0 <= used <= p - a && used <= |supply|
        invariant u in tables && tables == old(tables)[u := tables[u]]
        invariant WritesRange(t0, tables[u], a, p, paddr, prot) && tables[u].frags == t0.frags + supply[..used]
      {
        assert SameWord(t0, tables[u], p);
        var frame := if used < |supply| then Some(supply[used]) else None;
        var took;
        ok, took := MapNext(u, p, pa, prot, frame, meanwhile, t0, a, paddr);
        if !ok {
          return;
        }
        used := if took then used + 1 else used;
        p := p + 1;
        pa := NextPage(pa);
      }
      ok := true;
    }

    /** pmap_map; `supply` are the frames pm_alloc hands out for missing fragments */
    method Map(u: nat, a: nat, b: nat, paddr: bv32, prot: Prot, supply: seq<Frame>, meanwhile: seq<Load>)
      returns (r: MapResult)
      requires Valid() && u in tables && First(u) <= a < b <= Last(u)
      modifies this`tables, this`tlb
      ensures Valid() && u in tables && tables == old(tables)[u := tables[u]]
      ensures r == AlreadyMapped <==> RangeMapped(old(tables)[u], a, b)
      ensures r == AlreadyMapped ==> tables == old(tables)
      ensures r == Mapped ==> WritesRange(old(tables)[u], tables[u], a, b, paddr, prot)
      ensures r == Mapped ==> AllMappedAs(tables[u], a, b, prot)
      ensures r == Mapped && paddr & 0xfff == 0 ==> MapsRange(old(tables)[u], tables[u], a, b, paddr, prot)
      ensures |supply| >= b - a || (forall p: nat :: a <= p < b ==> p in old(tables)[u].pte) ==> r != NoFrame
      ensures Listed(old(tables)[u], tables[u], supply)
    {
      assert TableOk(u, tables[u]);
      RangeCheckable(u, tables[u], a, b);
      var mapped := IsRangeMapped(tables[u], a, b);
      if mapped {
        assert tables[u].frags == old(tables)[u].frags + supply[..0];
        return AlreadyMapped;
      }
      var ok := MapLoop(u, a, b, paddr, prot, supply, meanwhile);
      if ok { WritesRangeMeans(old(tables)[u], tables[u], a, b, paddr, prot); }
      return if ok then Mapped else NoFrame;
    }

    /** pmap_unmap, and pmap_protect when there is a protection */
    method Edit(u: nat, a: nat, b: nat, prot: Option<Prot>, meanwhile: seq<Load>) returns (r: RangeResult)
      requires Valid() && u in tables && First(u) <= a < b <= Last(u)
      modifies this`tables, this`tlb
      ensures Valid() && u in tables && tables == old(tables)[u := tables[u]]
      ensures r == NotMapped <==> !RangeMapped(old(tables)[u], a, b)
      ensures r.Fault? ==> a < r.page < b && r.page !in old(tables)[u].pte
      ensures EditsRange(old(tables)[u], tables[u], a, if r.Done? then b else if r.Fault? then r.page else a, prot)
      ensures prot.Some? ==>
                AllMappedAs(tables[u], a, if r.Done? then b else if r.Fault? then r.page else a, prot.value)
      ensures prot == None ==>
                var end := if r.Done? then b else if r.Fault? then r.page else a;
                AllMappedAs(tables[u], a, end, 0) && AllZero(tables[u], a, end)
    {
      assert TableOk(u, tables[u]);
      RangeCheckable(u, tables[u], a, b);
      var mapped := IsRangeMapped(tables[u], a, b);
      if !mapped {
        return NotMapped;
      }
      assert Stride(a, 0) == a;
      ghost var t0 := tables[u];
      var p := a;
      while p < b
        invariant a <= p <= b && Valid() && u in tables && tables == old(tables)[u := tables[u]]
        invariant EditsRange(t0, tables[u], a, p, prot)
      {
        if p !in tables[u].pte {
          EditsRangeMeans(t0, tables[u], a, p, prot);
          return Fault(p);
        }
        EditsNext(t0, tables[u], a, p, prot);
        Store(u, p, Edited(tables[u].pte[p], prot), meanwhile);
        p := p + 1;
      }
      EditsRangeMeans(t0, tables[u], a, b, prot);
      return Done;
    }

    /** tlb_probe: the words of an entry that answers */
    method ProbeTlb(slot: Slot, asid: nat) returns (r: Option<Words>)
      ensures r == None ==> forall e :: e in tlb ==> !Answers(e, slot, asid)
      ensures r.Some? ==> exists e :: e in tlb && Answers(e, slot, asid) && e.lo == r.value
    {
      if e :| e in tlb && Answers(e, slot, asid) {
        return Some(e.lo);
      }
      return None;
    }

    /** The comparison of pmap_probe: does the TLB entry of page `p`, if there is one, agree? */
    method Agrees(u: nat, p: nat, word: bv32) returns (r: bool)
      requires u in tables && word == WordOf(tables[u], p)
      ensures !r ==> Mismatched(Mem(tables, tlb), u, p)
      ensures r ==> !AllDiffer(Mem(tables, tlb), u, p)
    {
      var lo := ProbeTlb(PagePair(p / 2), u);
      r := lo == None || Half(lo.value, p) == word;
      if lo.Some? {
        ghost var e :| e in tlb && Answers(e, PagePair(p / 2), u) && e.lo == lo.value;
        assert Differs(Mem(tables, tlb), u, p, e) <==> !r;
      }
    }

    /** One page of pmap_probe */
    method ProbePage(u: nat, p: nat, prot: Prot) returns (r: ProbeResult)
      requires Valid() && u in tables && InRange(u, p)
      ensures r == Mismatch ==> Mismatched(Mem(tables, tlb), u, p) && Contradicted(tables, u, p)
      ensures AllDiffer(Mem(tables, tlb), u, p) ==> r == Mismatch
      ensures r == Yes ==> HasProt(tables[u], p, prot)
      ensures r == No ==> !HasProt(tables[u], p, prot)
    {
      assert TableOk(u, tables[u]);
      WordAt(u, tables[u], p);
      var word := if FragmentPresent(tables[u], p) then tables[u].pte[p] else 0;
      var agrees := Agrees(u, p, word);
      if !agrees {
        MismatchedFrom(Mem(tables, tlb), u, p);
        return Mismatch;
      }
      r := HasBits(tables[u], p, word, prot);
    }

    /** pmap_probe; `Mismatch` is the panic over TLB and table */
    method Probe(u: nat, a: nat, b: nat, prot: Prot) returns (r: ProbeResult)
      requires Valid() && u in tables && a < b
      ensures r == Mismatch ==>
                exists p: nat :: a <= p < b && Mismatched(Mem(tables, tlb), u, p) && Contradicted(tables, u, p)
      ensures First(u) <= a && b <= Last(u) && SurelyPanics(Mem(tables, tlb), u, a, b, prot) ==> r == Mismatch
      ensures r == Yes ==> First(u) <= a && b <= Last(u) && AllHave(tables[u], a, b, prot)
      ensures r == No ==> !(First(u) <= a && b <= Last(u) && AllHave(tables[u], a, b, prot))
    {
      if a < First(u) || b > Last(u) {
        return No;
      }
      var p := a;
      while p < b
        invariant a <= p <= b && AllHave(tables[u], a, p, prot) && NoneDiffers(Mem(tables, tlb), u, a, p)
      {
        r := ProbePage(u, p, prot);
        if r != Yes {
          return;
        }
        p := p + 1;
      }
      return Yes;
    }
  }

  /** The page has TLB entries, and all of them have another word than the table. */
  ghost predicate AllDiffer(m: Mem, u: nat, p: nat)
    requires u in m.tables
  {
    && (exists e :: e in m.tlb && Answers(e, PagePair(p / 2), u))
    && forall e :: e in m.tlb && Answers(e, PagePair(p / 2), u) ==> Differs(m, u, p, e)
  }

  ghost predicate NoneDiffers(m: Mem, u: nat, a: nat, b: nat)
    requires u in m.tables
  {
    forall p: nat {:trigger AllDiffer(m, u, p)} :: a <= p < b ==> !AllDiffer(m, u, p)
  }

  ghost predicate AllHave(t: PageTable, a: nat, b: nat, prot: Prot) {
    forall p: nat {:trigger HasProt(t, p, prot)} :: a <= p < b ==> HasProt(t, p, prot)
  }

  /** pmap_probe comes to a page whose TLB entries all differ from the table. */
  ghost predicate SurelyPanics(m: Mem, u: nat, a: nat, b: nat, prot: Prot)
    requires u in m.tables
  {
    exists p: nat {:trigger AllDiffer(m, u, p)} :: a <= p < b && AllDiffer(m, u, p) && AllHave(m.tables[u], a, p, prot)
  }

  /** pmap_set_pte is one or two of these steps, so what holds of all runs holds of a kernel that
      writes its tables with it. */
  lemma SetPteIsSteps(m: Mem, u: nat, page: nat, paddr: bv32, prot: Prot, frame: Frame, loads: seq<Load>)
    requires Good(m) && u in m.tables && InRange(u, page)
    ensures var n := Next(m, Fragment(u, page, frame));
            && |m.tables[u].pde| == 1024
            && Next(n, Write(u, page, Entry(paddr, prot, InKernelSpace(page)), loads)).tables
               == m.tables[u := SetPte(m.tables[u], page, paddr, prot, frame)]
  {
    assert TableOk(u, m.tables[u]);
    SourceOf(u, page);
    if !IsValid(m.tables[u].pde[Dir(page)]) { AddPdeKeeps(m.tables[u], page, frame); }
  }

  // ------------------------------------------------------------- examples

  /** Space 1 maps page 2 only. Its words for pages 0 and 1 are the untouched, global ones. */
  lemma NeighboursGlobal(t: PageTable, paddr: bv32, prot: Prot)
    requires Ok(t) && WritesRange(Empty(), t, 2, 3, paddr, prot)
    ensures WordsAt(t, PagePair(0)) == Some((PTE_GLOBAL, PTE_GLOBAL))
  {
    assert 2 in t.pte && Dir(0) == Dir(1) == Dir(2);
    assert SameWord(Empty(), t, 0) && SameWord(Empty(), t, 1);
  }

  lemma OnlyEntry(m: Mem, word: bv32)
    requires 2 in m.tables && m.tlb == {TlbEntry(PagePair(0), 1, (PTE_GLOBAL, PTE_GLOBAL))}
    requires 0 in m.tables[2].pte && m.tables[2].pte[0] == word != PTE_GLOBAL
    ensures AllDiffer(m, 2, 0)
  {
    assert IsGlobal(PTE_GLOBAL);
    var e := TlbEntry(PagePair(0), 1, (PTE_GLOBAL, PTE_GLOBAL));
    assert e in m.tlb && Answers(e, PagePair(0), 2);
  }

  lemma ReadableIsNotUntouched(paddr: bv32)
    requires paddr & 0xfff == 0
    ensures Entry(paddr, 1, false) != PTE_GLOBAL
  {
    EntryFields(paddr, 1, false);
  }

  /** A page mapped in each of two new spaces */
  method MapBoth(paddr: bv32) returns (m: Mmu)
    ensures fresh(m) && m.Valid() && 1 in m.tables && 2 in m.tables
    ensures WritesRange(Empty(), m.tables[1], 2, 3, paddr, 1) && WritesRange(Empty(), m.tables[2], 0, 1, paddr, 1)
  {
    m := new Mmu();
    var one := m.New();
    var two := m.New();
    EmptyOk();
    assert Stride(2, 0) == 2 && Stride(0, 0) == 0;
    var first := m.Map(1, 2, 3, paddr, 1, [7], []);
    var second := m.Map(2, 0, 1, paddr, 1, [8], []);
  }

  /** One refill by the first space, and pmap_probe of the page that the second has just mapped
      panics. */
  method TwoSpaces(paddr: bv32) returns (r: ProbeResult)
    requires paddr & 0xfff == 0
    ensures r == Mismatch
  {
    var m := MapBoth(paddr);
    assert TableOk(1, m.tables[1]);
    NeighboursGlobal(m.tables[1], paddr, 1);
    var load := Load(PagePair(0), 1);
    assert Filled(m.tables, m.tlb - m.tlb, [load][..0]) == {};
    m.Hardware(m.tlb, [load]);
    ReadableIsNotUntouched(paddr);
    assert m.tables[2].pte[0] == Entry(PhysAt(paddr, 0), 1, InKernelSpace(0));
    OnlyEntry(Mem(m.tables, m.tlb), Entry(paddr, 1, false));
    r := m.Probe(2, 0, 1, 1);
  }

  lemma FragmentAdded(m: Mem, u: nat, page: nat, frame: Frame)
    requires MayAdd(m.tables, u, page)
    ensures Next(m, Fragment(u, page, frame)).tables == m.tables[u := AddPde(m.tables[u], page, frame)]
  {
  }

  /** Two spaces with fragment 0, one of them with fragment 1 as well: a refill by that one leads the
      other's window astray. */
  lemma TwoWindows(m: Mem)
    requires m.tables == map[KERNEL := Empty(), 1 := Empty(), 2 := Empty()]
    ensures var n := Next(Next(Next(m, Fragment(1, 0, 5)), Fragment(1, 1024, 6)), Fragment(2, 0, 7));
            && 1 in n.tables && 2 in n.tables && |n.tables[1].pde| == |n.tables[2].pde| == 1024
            && Overlays(n.tables, 2, 0, 1)
  {
    UnusedNotValid(0);
    UnusedNotValid(1);
    DirWordValid(5);
    DirWordValid(6);
    assert DirWord(5) != DirWord(7);
    assert Dir(0) == 0 && Dir(1024) == 1;
    var m1 := Next(m, Fragment(1, 0, 5));
    FragmentAdded(m, 1, 0, 5);
    var m2 := Next(m1, Fragment(1, 1024, 6));
    FragmentAdded(m1, 1, 1024, 6);
    FragmentAdded(m2, 2, 0, 7);
  }
}
