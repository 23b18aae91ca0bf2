/** The two-level page table of malta/pmap.c with the word format of tlb.h: a directory of
    1024 entries and, for each valid one, a fragment of 1024 page-table words. */
module Pmap {
  import opened Basics

  const PTE_DIRTY: bv32 := 0x00000004
  const PTE_VALID: bv32 := 0x00000002
  const PTE_GLOBAL: bv32 := 0x00000001
  const PTE_PFN_MASK: bv32 := 0x03ffffc0
  const PTE_PROT_MASK: bv32 := 0xc0000006
  const FRAGMENT: nat := 1024

  /** A frame number; all of physical memory is below 2^32. */
  type Frame = f: nat | f < PAGES

  function Pfn(addr: bv32): bv32 { (addr >> 6) & PTE_PFN_MASK }

  function PfnOf(pte: bv32): bv32 { (pte & PTE_PFN_MASK) << 6 }

  predicate IsValid(pte: bv32) { pte & PTE_VALID != 0 }

  predicate IsGlobal(pte: bv32) { pte & PTE_GLOBAL != 0 }

  /** VM_PROT_NONE, READ, WRITE and EXEC are 0, 1, 2 and 4. */
  type Prot = p: nat | p < 8

  /** vm_prot_map */
  function ProtBits(prot: Prot): bv32 {
    if prot == 0 then 0
    else if prot == 2 || prot == 3 || prot == 6 || prot == 7 then PTE_VALID | PTE_DIRTY
    else PTE_VALID
  }

  /** VM_PROT_WRITE and VM_PROT_READ are set. */
  predicate WriteBit(prot: Prot) { (prot as bv3) & 2 != 0 }

  predicate ReadBit(prot: Prot) { (prot as bv3) & 1 != 0 }

  /** What vm_prot_map says of a protection: a page is valid unless it is VM_PROT_NONE, can be written
      exactly with VM_PROT_WRITE, and has no other bit. */
  lemma ProtBitsMean(prot: Prot)
    ensures ProtBits(prot) & PTE_VALID != 0 <==> prot != 0
    ensures ProtBits(prot) & PTE_DIRTY != 0 <==> WriteBit(prot)
    ensures ProtBits(prot) & !(PTE_VALID | PTE_DIRTY) == 0
  {
    if prot == 0 || prot == 1 {
    } else if prot == 2 || prot == 3 {
    } else if prot == 4 || prot == 5 {
    } else {
      assert prot == 6 || prot == 7;
    }
  }

  /** The word pmap_set_pte writes. */
  function Entry(paddr: bv32, prot: Prot, kernel: bool): bv32 {
    Pfn(paddr) | ProtBits(prot) | (if kernel then PTE_GLOBAL else 0)
  }

  /** Section 9.6 of MIPS Architecture For Programmers Volume III: the fields of a word do not
      disturb each other. */
  lemma EntryFields(paddr: bv32, prot: Prot, kernel: bool)
    requires paddr & 0xfff == 0
    ensures PfnOf(Entry(paddr, prot, kernel)) == paddr
    ensures Entry(paddr, prot, kernel) & PTE_PROT_MASK == ProtBits(prot)
    ensures IsValid(Entry(paddr, prot, kernel)) <==> prot != 0
    ensures IsGlobal(Entry(paddr, prot, kernel)) <==> kernel
  {
    var p: bv32, g: bv32 := ProtBits(prot), if kernel then PTE_GLOBAL else 0;
    assert p & 6 == p && g & 1 == g;
    ShiftBack(paddr);
    OrFields(paddr >> 6, p, g);
  }

  lemma ShiftBack(paddr: bv32)
    requires paddr & 0xfff == 0
    ensures ((paddr >> 6) & 0x03ffffc0) << 6 == paddr
  {
  }

  lemma OrFields(q: bv32, p: bv32, g: bv32)
    requires p & 6 == p && g & 1 == g
    ensures ((((q & 0x03ffffc0) | p) | g) & 0x03ffffc0) == q & 0x03ffffc0
    ensures (((q & 0x03ffffc0) | p) | g) & 0xc0000006 == p
    ensures (((q & 0x03ffffc0) | p) | g) & 2 == p & 2
    ensures (((q & 0x03ffffc0) | p) | g) & 1 == g
  {
  }

  /** pmap_change_pte keeps the frame and sets the protection. */
  lemma ChangeFields(pte: bv32, prot: Prot)
    ensures PfnOf((pte & !PTE_PROT_MASK) | ProtBits(prot)) == PfnOf(pte)
    ensures ((pte & !PTE_PROT_MASK) | ProtBits(prot)) & PTE_PROT_MASK == ProtBits(prot)
    ensures IsValid((pte & !PTE_PROT_MASK) | ProtBits(prot)) <==> prot != 0
  {
    ProtBitsAre(prot);
    ChangeWord(pte, ProtBits(prot));
  }

  lemma ProtBitsAre(prot: Prot)
    ensures ProtBits(prot) & 6 == ProtBits(prot) && (ProtBits(prot) & PTE_VALID != 0 <==> prot != 0)
  {
  }

  lemma ChangeWord(pte: bv32, p: bv32)
    requires p & 6 == p
    ensures PfnOf((pte & !PTE_PROT_MASK) | p) == PfnOf(pte)
    ensures ((pte & !PTE_PROT_MASK) | p) & PTE_PROT_MASK == p
    ensures IsValid((pte & !PTE_PROT_MASK) | p) <==> p & PTE_VALID != 0
  {
    ChangeBits(pte, p);
  }

  lemma ChangeBits(pte: bv32, p: bv32)
    requires p & 6 == p
    ensures ((pte & !0xc0000006) | p) & 0x03ffffc0 == pte & 0x03ffffc0
    ensures ((pte & !0xc0000006) | p) & 0xc0000006 == p
    ensures ((pte & !0xc0000006) | p) & 2 == p & 2
  {
  }

  // ---------------------------------------------------------- the table

  /** `pte` holds the words of the fragments present, by page number; `frags` lists the frames
      of the fragments in the order they were added. */
  datatype PageTable = PageTable(pde: seq<bv32>, pte: map<nat, bv32>, frags: seq<nat>)

  function Dir(page: nat): nat { page / FRAGMENT }

  /** A fragment is present exactly where the directory entry is valid. */
  ghost predicate Ok(t: PageTable) {
    && |t.pde| == 1024
    && forall page: nat {:trigger Dir(page)} :: page in t.pte <==> page < PAGES && IsValid(t.pde[Dir(page)])
  }

  predicate InKernelSpace(page: nat) { 0xc_0000 <= page < 0xf_ffff }

  /** What a page translates to: frame address and protection bits of a valid word. */
  function Translate(t: PageTable, page: nat): Option<(bv32, bv32)> {
    if page in t.pte && IsValid(t.pte[page]) then Some((PfnOf(t.pte[page]), t.pte[page] & PTE_PROT_MASK)) else None
  }

  /** The word the hardware and pmap_probe see. */
  function WordOf(t: PageTable, page: nat): bv32 { if page in t.pte then t.pte[page] else 0 }

  /** The physical address of frame `f` */
  function FrameAddr(f: nat): bv32 { if f == 0 then 0 else NextPage(FrameAddr(f - 1)) }

  function NextPage(pa: bv32): bv32 { pa + 4096 }

  lemma {:induction false} FrameAddrAligned(f: nat)
    ensures FrameAddr(f) & 0xfff == 0
  {
    if f > 0 {
      FrameAddrAligned(f - 1);
      NextAligned(FrameAddr(f - 1));
    }
  }

  function DirWord(frame: nat): bv32
    requires frame < PAGES
  {
    Pfn(FrameAddr(frame)) | PTE_VALID | PTE_DIRTY | PTE_GLOBAL
  }

  lemma DirWordValid(frame: nat)
    requires frame < PAGES
    ensures IsValid(DirWord(frame)) && IsGlobal(DirWord(frame)) && PfnOf(DirWord(frame)) == FrameAddr(frame)
  {
    var q := FrameAddr(frame) >> 6;
    OrFields(q, PTE_VALID | PTE_DIRTY, PTE_GLOBAL);
    OrAssoc(q & 0x03ffffc0);
    FrameAddrAligned(frame);
    ShiftBack(FrameAddr(frame));
  }

  lemma OrAssoc(q: bv32)
    ensures q | 2 | 4 | 1 == ((q | 6) | 1)
  {
  }

  /** pmap_add_pde with the fragment in `frame` */
  function AddPde(t: PageTable, page: nat, frame: nat): PageTable
    requires Dir(page) < |t.pde| && frame < PAGES
  {
    var d := Dir(page);
    PageTable(t.pde[d := DirWord(frame)],
              t.pte + (map p: nat | p < (d + 1) * FRAGMENT && Dir(p) == d :: PTE_GLOBAL),
              t.frags + [frame])
  }

  /** Adding a directory entry changes no translation. */
  lemma AddPdeKeeps(t: PageTable, page: nat, frame: nat)
    requires Ok(t) && page < PAGES && frame < PAGES && !IsValid(t.pde[Dir(page)])
    ensures Ok(AddPde(t, page, frame)) && page in AddPde(t, page, frame).pte
    ensures forall q: nat ::
              SameWord(t, AddPde(t, page, frame), q) && Translate(AddPde(t, page, frame), q) == Translate(t, q)
  {
    var d, t' := Dir(page), AddPde(t, page, frame);
    DirWordValid(frame);
    forall q: nat ensures SameWord(t, t', q) && Translate(t', q) == Translate(t, q) {
      SameWordTranslates(t, t', q);
    }
  }

  /** pmap_set_pte on a page whose fragment is present */
  function SetWord(t: PageTable, page: nat, word: bv32): PageTable {
    t.(pte := t.pte[page := word])
  }

  lemma SetWordKeeps(t: PageTable, page: nat, word: bv32)
    requires Ok(t) && page in t.pte
    ensures Ok(SetWord(t, page, word))
  {
  }

  /** pmap_set_pte; `frame` is what pm_alloc gives for a missing fragment */
  function SetPte(t: PageTable, page: nat, paddr: bv32, prot: Prot, frame: nat): PageTable
    requires Dir(page) < |t.pde| && frame < PAGES
  {
    var u := if IsValid(t.pde[Dir(page)]) then t else AddPde(t, page, frame);
    SetWord(u, page, Entry(paddr, prot, InKernelSpace(page)))
  }

  /** pmap_set_pte writes the word of its page and of no other. */
  lemma SetPteKeeps(t: PageTable, page: nat, paddr: bv32, prot: Prot, frame: nat)
    requires Ok(t) && page < PAGES && frame < PAGES
    ensures Ok(SetPte(t, page, paddr, prot, frame)) && page in SetPte(t, page, paddr, prot, frame).pte
    ensures SetPte(t, page, paddr, prot, frame).pte[page] == Entry(paddr, prot, InKernelSpace(page))
    ensures forall q: nat :: q != page ==> SameWord(t, SetPte(t, page, paddr, prot, frame), q)
  {
    if !IsValid(t.pde[Dir(page)]) { AddPdeKeeps(t, page, frame); }
  }

  // ------------------------------------------------------------- ranges

  /** PhysAt(paddr, i) is the address i pages after `paddr`. */
  function PhysAt(paddr: bv32, i: nat): bv32 {
    if i == 0 then paddr else NextPage(PhysAt(paddr, i - 1))
  }

  lemma {:induction false} PhysAtAligned(paddr: bv32, i: nat)
    requires paddr & 0xfff == 0
    ensures PhysAt(paddr, i) & 0xfff == 0
  {
    if i > 0 {
      PhysAtAligned(paddr, i - 1);
      NextAligned(PhysAt(paddr, i - 1));
    }
  }

  /** The frames from `f` on follow each other. */
  lemma {:induction false} PhysAtFrames(f: nat, i: nat)
    ensures PhysAt(FrameAddr(f), i) == FrameAddr(f + i)
  {
    if i > 0 { PhysAtFrames(f, i - 1); }
  }

  lemma NextAligned(x: bv32)
    requires x & 0xfff == 0
    ensures (x + 4096) & 0xfff == 0
  {
  }

  /** The translation pmap_map makes. */
  function Target(paddr: bv32, prot: Prot): Option<(bv32, bv32)> {
    if prot == 0 then None else Some((paddr, ProtBits(prot)))
  }

  /** What page `q` translates to has the protection `prot`: nothing for VM_PROT_NONE, else a valid page
      that can be written exactly with VM_PROT_WRITE. */
  ghost predicate MappedAs(t: PageTable, q: nat, prot: Prot) {
    if prot == 0 then Translate(t, q) == None
    else
      && Translate(t, q).Some?
      && var bits := Translate(t, q).value.1;
         && bits & PTE_VALID != 0 && (bits & PTE_DIRTY != 0 <==> WriteBit(prot))
         && bits & !(PTE_VALID | PTE_DIRTY) == 0
  }

  lemma TargetMeans(t: PageTable, q: nat, paddr: bv32, prot: Prot)
    requires Translate(t, q) == Target(paddr, prot)
    ensures MappedAs(t, q, prot)
  {
    ProtBitsMean(prot);
  }

  lemma EntryMeans(t: PageTable, q: nat, paddr: bv32, prot: Prot, kernel: bool)
    requires q in t.pte && t.pte[q] == Entry(paddr, prot, kernel)
    ensures MappedAs(t, q, prot)
  {
    var p: bv32, g: bv32 := ProtBits(prot), if kernel then PTE_GLOBAL else 0;
    ProtBitsAre(prot);
    assert g & 1 == g;
    OrFields(paddr >> 6, p, g);
    ProtBitsMean(prot);
  }

  lemma MaskedBits(word: bv32)
    ensures (word & PTE_PROT_MASK) & PTE_VALID == word & PTE_VALID
    ensures (word & PTE_PROT_MASK) & PTE_DIRTY == word & PTE_DIRTY
  {
  }

  /** The flat view: from `t0` to `t` the pages `[a, b)` translate to frames from `paddr` on,
      and all others as before. */
  ghost predicate MapsRange(t0: PageTable, t: PageTable, a: nat, b: nat, paddr: bv32, prot: Prot) {
    && (forall q: nat :: a <= q < b ==> Translate(t, q) == Target(PhysAt(paddr, q - a), prot))
    && (forall q: nat :: !(a <= q < b) ==> Translate(t, q) == Translate(t0, q))
  }

  /** Page `q` has the word it had; a word that is new is the untouched one. */
  ghost predicate SameWord(t0: PageTable, t: PageTable, q: nat) {
    if q in t0.pte then q in t.pte && t.pte[q] == t0.pte[q] else q in t.pte ==> t.pte[q] == PTE_GLOBAL
  }

  lemma SameWordTranslates(t0: PageTable, t: PageTable, q: nat)
    requires SameWord(t0, t, q)
    ensures Translate(t, q) == Translate(t0, q)
  {
    assert !IsValid(PTE_GLOBAL);
  }

  /** The words behind `MapsRange`. */
  ghost predicate WritesRange(t0: PageTable, t: PageTable, a: nat, b: nat, paddr: bv32, prot: Prot) {
    && (forall q: nat :: a <= q < b ==> q in t.pte && t.pte[q] == Entry(PhysAt(paddr, q - a), prot, InKernelSpace(q)))
    && (forall q: nat :: !(a <= q < b) ==> SameWord(t0, t, q))
  }

  lemma SameOutside(t0: PageTable, t: PageTable, t': PageTable, a: nat, p: nat)
    requires a <= p && (forall q: nat :: !(a <= q < p) ==> SameWord(t0, t, q))
    requires forall q: nat :: q != p ==> SameWord(t, t', q)
    ensures forall q: nat :: !(a <= q < p + 1) ==> SameWord(t0, t', q)
  {
    forall q: nat | !(a <= q < p + 1) ensures SameWord(t0, t', q) {
      assert SameWord(t0, t, q) && SameWord(t, t', q);
    }
  }

  /** One more page of pmap_map. */
  lemma WritesNext(t0: PageTable, t: PageTable, t': PageTable, a: nat, p: nat, paddr: bv32, prot: Prot)
    requires a <= p && WritesRange(t0, t, a, p, paddr, prot)
    requires p in t'.pte && t'.pte[p] == Entry(PhysAt(paddr, p - a), prot, InKernelSpace(p))
    requires forall q: nat :: q != p ==> SameWord(t, t', q)
    ensures WritesRange(t0, t', a, p + 1, paddr, prot)
  {
    SameOutside(t0, t, t', a, p);
    forall q: nat | a <= q < p + 1
      ensures q in t'.pte && t'.pte[q] == Entry(PhysAt(paddr, q - a), prot, InKernelSpace(q))
    {
      if q != p { assert SameWord(t, t', q); }
    }
  }

  /** The two-level table refines the flat map: pmap_map maps its range and nothing else. */
  lemma WritesRangeMaps(t0: PageTable, t: PageTable, a: nat, b: nat, paddr: bv32, prot: Prot)
    requires WritesRange(t0, t, a, b, paddr, prot) && paddr & 0xfff == 0
    ensures MapsRange(t0, t, a, b, paddr, prot)
  {
    forall q: nat | a <= q < b ensures Translate(t, q) == Target(PhysAt(paddr, q - a), prot) {
      EntryTranslates(t, q, PhysAt(paddr, q - a), prot) by { PhysAtAligned(paddr, q - a); }
    }
    forall q: nat | !(a <= q < b) ensures Translate(t, q) == Translate(t0, q) {
      SameWordTranslates(t0, t, q);
    }
  }

  lemma EntryTranslates(t: PageTable, q: nat, paddr: bv32, prot: Prot)
    requires paddr & 0xfff == 0 && q in t.pte && t.pte[q] == Entry(paddr, prot, InKernelSpace(q))
    ensures Translate(t, q) == Target(paddr, prot)
  {
    EntryFields(paddr, prot, InKernelSpace(q));
  }

  /** The word pmap_change_pte writes. */
  function Changed(word: bv32, prot: Prot): bv32 { (word & !PTE_PROT_MASK) | ProtBits(prot) }

  /** pmap_protect keeps the frame in the word and sets the protection, whether the page was mapped or
      not. */
  lemma ChangesTranslate(t0: PageTable, t: PageTable, q: nat, prot: Prot)
    requires q in t0.pte && q in t.pte && t.pte[q] == Changed(t0.pte[q], prot)
    ensures Translate(t, q) == Target(PfnOf(t0.pte[q]), prot)
    ensures IsValid(t0.pte[q]) ==> Translate(t0, q).Some? && Translate(t0, q).value.0 == PfnOf(t0.pte[q])
    ensures t0.pte[q] == PTE_GLOBAL ==> Translate(t, q) == Target(0, prot)
  {
    ChangeFields(t0.pte[q], prot);
    assert PfnOf(PTE_GLOBAL) == 0;
  }

  predicate HasProt(t: PageTable, page: nat, prot: Prot) {
    WordOf(t, page) & PTE_PROT_MASK == ProtBits(prot)
  }

  /** What pmap_map just wrote, pmap_probe finds. */
  lemma ProbeAfterMap(t0: PageTable, t: PageTable, a: nat, b: nat, paddr: bv32, prot: Prot)
    requires WritesRange(t0, t, a, b, paddr, prot) && paddr & 0xfff == 0
    ensures forall p: nat :: a <= p < b ==> HasProt(t, p, prot)
  {
    forall p: nat | a <= p < b ensures HasProt(t, p, prot) {
      PhysAtAligned(paddr, p - a);
      EntryFields(PhysAt(paddr, p - a), prot, InKernelSpace(p));
    }
  }

  /** The fragments added from `t0` to `t` are the first frames of `supply`, in order. */
  ghost predicate Listed(t0: PageTable, t: PageTable, supply: seq<Frame>) {
    exists n :: 0 <= n <= |supply| && t.frags == t0.frags + supply[..n]
  }

  predicate FragmentPresent(t: PageTable, page: nat) { Dir(page) < |t.pde| && IsValid(t.pde[Dir(page)]) }

  /** The page number `k` strides of a whole fragment after `a`. */
  function Stride(a: nat, k: nat): nat { a + FRAGMENT * k }

  ghost predicate StrideMapped(t: PageTable, a: nat, b: nat) {
    forall k: nat :: Stride(a, k) < b ==> Translate(t, Stride(a, k)).Some?
  }

  /** The last stride of the range leads past 2^32, to fragment 0. */
  ghost predicate Wraps(a: nat, b: nat) {
    exists k: nat :: Stride(a, k) < b && PAGES <= Stride(a, k) + FRAGMENT
  }

  /** pmap_is_range_mapped as written: it looks at one page in 1024, and goes on from fragment 0,
      which a table of the kernel does not have. */
  ghost predicate RangeMapped(t: PageTable, a: nat, b: nat) { StrideMapped(t, a, b) && !Wraps(a, b) }

  /** Tables for which the loop ends */
  ghost predicate Checkable(t: PageTable, a: nat, b: nat) { Ok(t) && (Wraps(a, b) ==> !IsValid(t.pde[0])) }

  ghost predicate AllMapped(t: PageTable, a: nat, b: nat) {
    forall p: nat :: a <= p < b ==> Translate(t, p).Some?
  }

  /** A table in which only `a` and the pages whole strides from it are mapped. */
  function Strides(a: nat): PageTable {
    PageTable(seq(1024, _ => PTE_VALID),
              map p: nat | p < PAGES && Dir(p) < 1024 :: if (p - a) % FRAGMENT == 0 then PTE_VALID else 0, [])
  }

  /** A table with all pages mapped but those of fragment 0. */
  function AllButFirst(): PageTable {
    PageTable(seq(1024, (d: nat) => if d == 0 then 0 else PTE_VALID),
              map p: nat | p < PAGES && 0 < Dir(p) < 1024 :: PTE_VALID, [])
  }

  /** pmap_is_range_mapped answers for all pages of a range exactly when the range is one page, as
      in vm_page_fault, and not one of the last 1024. */
  lemma RangeCheckIff(a: nat, b: nat)
    requires a < b <= PAGES && (b + FRAGMENT <= PAGES || FRAGMENT <= a)
    ensures (forall t {:trigger Checkable(t, a, b)} ::
               Checkable(t, a, b) ==> (RangeMapped(t, a, b) <==> AllMapped(t, a, b)))
       <==> b == a + 1 && b + FRAGMENT <= PAGES
  {
    if Wraps(a, b) {
      AllButFirstFacts(a, b);
      assert Checkable(AllButFirst(), a, b);
      assert b + FRAGMENT > PAGES;
    } else if b == a + 1 {
      assert Stride(a, 0) == a;
      forall t ensures RangeMapped(t, a, b) <==> AllMapped(t, a, b) {}
    } else {
      StridesFacts(a, b);
      assert Checkable(Strides(a), a, b);
    }
  }

  lemma AllButFirstFacts(a: nat, b: nat)
    requires FRAGMENT <= a < b <= PAGES
    ensures Ok(AllButFirst()) && !IsValid(AllButFirst().pde[0]) && AllMapped(AllButFirst(), a, b)
  {
    assert IsValid(PTE_VALID) && !IsValid(0);
    forall p: nat | a <= p < b ensures Translate(AllButFirst(), p).Some? { assert 0 < Dir(p) < 1024; }
  }

  lemma StridesFacts(a: nat, b: nat)
    requires a + 1 < b <= PAGES
    ensures Ok(Strides(a)) && StrideMapped(Strides(a), a, b) && !AllMapped(Strides(a), a, b)
  {
    var t := Strides(a);
    assert IsValid(PTE_VALID) && !IsValid(0);
    forall k: nat | Stride(a, k) < b ensures Translate(t, Stride(a, k)).Some? { StrideMod(a, k); }
    assert Translate(t, a + 1) == None;
  }

  lemma StrideMod(a: nat, k: nat)
    ensures (Stride(a, k) - a) % FRAGMENT == 0
  {
  }

  /** The directory entry of a fragment that is not there. */
  function UnusedPde(d: nat): bv32 { if InKernelSpace(d * FRAGMENT) then PTE_GLOBAL else 0 }

  lemma UnusedNotValid(d: nat)
    ensures !IsValid(UnusedPde(d))
  {
  }

  /** The table pmap_setup makes */
  function Empty(): PageTable { PageTable(seq(1024, (d: nat) => UnusedPde(d)), map[], []) }

  lemma EmptyOk()
    ensures Ok(Empty()) && forall p: nat :: Translate(Empty(), p) == None
  {
    forall d | 0 <= d < 1024 ensures !IsValid(Empty().pde[d]) { UnusedNotValid(d); }
  }

  /** The loop of pmap_setup */
  method Setup() returns (t: PageTable)
    ensures t == Empty() && Ok(t)
  {
    var pde: seq<bv32> := [];
    var i := 0;
    while i < 1024
      invariant 0 <= i <= 1024 && |pde| == i && forall j :: 0 <= j < i ==> pde[j] == UnusedPde(j)
    {
      pde := pde + [UnusedPde(i)];
      i := i + 1;
    }
    EmptyOk();
    assert pde == Empty().pde;
    t := PageTable(pde, map[], []);
  }

  /** pmap_is_range_mapped */
  method IsRangeMapped(table: PageTable, a: nat, b: nat) returns (r: bool)
    requires Checkable(table, a, b) && a < b <= PAGES
    ensures r == RangeMapped(table, a, b)
  {
    var p := a;
    ghost var n := 0;
    while p < b
      invariant p == Stride(a, n)
      invariant forall k: nat :: k < n ==> FragmentPresent(table, Stride(a, k)) && Stride(a, k) + FRAGMENT < PAGES
      decreases b - p
    {
      if !IsValid(table.pde[Dir(p)]) {
        assert Translate(table, Stride(a, n)) == None;
        return false;
      }
      if p + FRAGMENT >= PAGES {
        // The next address wraps around, and fragment 0 is not present.
        assert Wraps(a, b) && Dir(p + FRAGMENT - PAGES) == 0;
        return false;
      }
      p, n := p + FRAGMENT, n + 1;
    }
    p := a;
    ghost var i := 0;
    while p < b
      invariant p == Stride(a, i) && i <= n && Stride(a, n) >= b
      invariant forall k: nat :: k < i ==> Translate(table, Stride(a, k)).Some?
      decreases b - p
    {
      assert i < n && FragmentPresent(table, Stride(a, i));
      if !IsValid(table.pte[p]) {
        assert Translate(table, Stride(a, i)) == None;
        return false;
      }
      p, i := p + FRAGMENT, i + 1;
    }
    return true;
  }

  /** pmap_add_pde marks the untouched words of a fragment global, also those of user pages. */
  lemma UntouchedPairIsGlobal(t: PageTable, page: nat, frame: nat, pair: nat)
    requires Ok(t) && page < PAGES && frame < PAGES && !IsValid(t.pde[Dir(page)]) && Dir(2 * pair) == Dir(page)
    ensures var t' := AddPde(t, page, frame);
            2 * pair in t'.pte && 2 * pair + 1 in t'.pte && IsGlobal(t'.pte[2 * pair]) && IsGlobal(t'.pte[2 * pair + 1])
  {
    AddPdeKeeps(t, page, frame);
    assert Dir(2 * pair + 1) == Dir(2 * pair);
    assert IsGlobal(PTE_GLOBAL);
  }
}
