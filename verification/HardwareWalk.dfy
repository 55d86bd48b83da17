/**
 * The address translation a hart performs: section 4.3.2 of the RISC-V Privileged Architecture v1.12 for Sv39
 * (section 4.4), written independently of the kernel's software walk, and the theorem that the two agree.
 */
module HardwareWalk {
  import opened Basics
  import opened Words
  import opened Physical
  import opened Sv39
  import opened PageTrees
  import opened PageTables

  datatype Access = Load | Store | Fetch

  /**
   * One memory access: what it does, from user or supervisor mode (with SUM and MXR clear), on which kind of core, and
   * which of the two choices of step 7 the hart takes: to set a clear accessed or dirty bit itself, or to fault.
   */
  datatype Request = Request(access: Access, user: bool, thead: bool, updates: bool)

  /** The index of va at a level; the root is level 2. */
  function VpnField(va: nat, level: nat): (i: nat)
    requires level <= 2
    ensures i < 512
  {
    (if level == 2 then va / 0x4000_0000 else if level == 1 then va / 0x20_0000 else va / 0x1000) % 512
  }

  /** The fields are the indexes the kernel computes from the page number. */
  lemma FieldsAreIndexes(va: nat)
    ensures VpnField(va, 2) == Idx0(va / PAGE_SIZE) && VpnField(va, 1) == Idx1(va / PAGE_SIZE)
    ensures VpnField(va, 0) == Idx2(va / PAGE_SIZE)
  {
    assert va / 0x4000_0000 == va / 4096 / 0x40000 && va / 0x20_0000 == va / 4096 / 512;
  }

  /** Pages covered by a leaf at a level. */
  function LeafPages(level: nat): (n: nat)
    ensures n >= 1
  {
    if level == 0 then 1 else 512 * LeafPages(level - 1)
  }

  /**
   * Encodings the architecture reserves; bits 61 to 63 carry page attributes on a T-Head core and are reserved
   * elsewhere.
   */
  predicate Reserved(e: nat, thead: bool) {
    || (!FlagsOf(e).r && FlagsOf(e).w)
    || ReservedBits(e) != 0
    || (!thead && e / 0x2000_0000_0000_0000 != 0)
  }

  predicate IsLeaf(e: nat) { FlagsOf(e).r || FlagsOf(e).x }

  /** Step 5 and step 7: the access is allowed, and the accessed and dirty bits are set or the hart sets them. */
  predicate Permits(f: Flags, q: Request) {
    && f.u == q.user
    && (match q.access case Load => f.r case Store => f.w case Fetch => f.x)
    && ((f.a && (q.access.Store? ==> f.d)) || q.updates)
  }

  /** Steps 2 to 8 from the table in frame a. None is a page fault. */
  function Translation(m: Memory, a: nat, level: nat, va: nat, q: Request): (pa: Option<nat>)
    requires level <= 2
    decreases level
  {
    var e := Word(m, a, VpnField(va, level));
    if !FlagsOf(e).v || Reserved(e, q.thead) then None
    else if IsLeaf(e) then
      if !Permits(FlagsOf(e), q) || PageOf(e) % LeafPages(level) != 0 then None
      else Some(AddressOf(PageOf(e) + va / PAGE_SIZE % LeafPages(level), va % PAGE_SIZE))
    else if FlagsOf(e).u || FlagsOf(e).a || FlagsOf(e).d || level == 0 then None
    else Translation(m, PageOf(e), level - 1, va, q)
  }

  /** Section 4.4.1: bits 63 to 39 of an address equal bit 38. */
  predicate Canonical(va: nat) { va < 0x40_0000_0000 || 0xFFFF_FFC0_0000_0000 <= va < SPAN64 }

  /** The whole walk from satp. */
  function HardwareTranslate(m: Memory, root: nat, va: nat, q: Request): (pa: Option<nat>) {
    if Canonical(va) then Translation(m, root, 2, va, q) else None
  }

  // ---- pointers

  /** A pointer that find_pte_create wrote sends the hart to the same frame as the kernel. */
  lemma PointerStep(m: Memory, a: nat, level: nat, va: nat, q: Request, next: nat)
    requires 1 <= level <= 2 && next < PPN_LIMIT && Word(m, a, VpnField(va, level)) == TableEntry(next)
    ensures Translation(m, a, level, va, q) == Translation(m, next, level - 1, va, q)
  {
    EntryDecodes(next, V_ONLY);
    assert TableEntry(next) / 0x2000_0000_0000_0000 == 0;
  }

  lemma InvalidStep(m: Memory, a: nat, level: nat, va: nat, q: Request)
    requires level <= 2 && !IsValid(Word(m, a, VpnField(va, level)))
    ensures Translation(m, a, level, va, q) == None
  {
    PointerFlags(Word(m, a, VpnField(va, level)));
  }

  /** What a hart does with a last-level entry. */
  function LeafResult(e: nat, va: nat, q: Request): Option<nat> {
    if Reserved(e, q.thead) || !IsLeaf(e) || !Permits(FlagsOf(e), q) then None
    else Some(AddressOf(PageOf(e), va % PAGE_SIZE))
  }

  lemma LastStep(m: Memory, a: nat, va: nat, q: Request)
    requires IsValid(Word(m, a, VpnField(va, 0)))
    ensures Translation(m, a, 0, va, q) == LeafResult(Word(m, a, VpnField(va, 0)), va, q)
  {
    PointerFlags(Word(m, a, VpnField(va, 0)));
    assert va / PAGE_SIZE % LeafPages(0) == 0 && LeafPages(0) == 1;
  }

  /** Through the kernel's tables a hart reaches exactly the entry in the page map. */
  lemma WalkAgrees(m: Memory, root: nat, pages: seq<nat>, va: nat, q: Request)
    requires Tree(CellsOf(m), root, pages) && MappableAt(m, root, va)
    ensures var v, vpn := PageMap(m, root), Key(va / PAGE_SIZE);
      Translation(m, root, 2, va, q) == if vpn in v then LeafResult(v[vpn], va, q) else None
  {
    hide LeafResult, Resolve, TableEntry, PageMap, Key, VpnField;
    FieldsAreIndexes(va);
    var c, vpn := CellsOf(m), Key(va / PAGE_SIZE);
    KeyIndexes(va / PAGE_SIZE);
    WalkReadsMap(m, root, vpn);
    MappableSlot(m, root, vpn);
    var e0 := Word(m, root, Idx0(vpn));
    assert c(root, Idx0(vpn)) == Decode(e0);
    if !IsValid(e0) {
      InvalidStep(m, root, 2, va, q);
      return;
    }
    assert c(root, Idx0(vpn)).pristine;
    PointerStep(m, root, 2, va, q, PageOf(e0));
    var f := PageOf(e0);
    assert NodeAt(c, root, Mid(Idx0(vpn))) == Some(f);
    var e1 := Word(m, f, Idx1(vpn));
    assert c(f, Idx1(vpn)) == Decode(e1);
    if !IsValid(e1) {
      InvalidStep(m, f, 1, va, q);
      return;
    }
    assert NodeAt(c, root, Low(Idx0(vpn), Idx1(vpn))) == Some(PageOf(e1));
    assert c(f, Idx1(vpn)).pristine;
    PointerStep(m, f, 1, va, q, PageOf(e1));
    if IsValid(Word(m, PageOf(e1), Idx2(vpn))) {
      LastStep(m, PageOf(e1), va, q);
    } else {
      InvalidStep(m, PageOf(e1), 0, va, q);
    }
  }

  /** Which accesses reach a page mapped with flags f: hardware refuses writable pages that are not readable. */
  predicate Reaches(f: Flags, q: Request) {
    && f.u == q.user
    && match q.access
       case Load => f.r
       case Store => f.r && f.w
       case Fetch => f.x && (f.r || ((f.a || q.updates) && !f.w))
  }

  /** The hart accepts what set_pte wrote, vendor bits included, exactly for the accesses the flags promise. */
  lemma LeafEntryResult(at: nat, pa: nat, f: Flags, va: nat, q: Request)
    requires pa / PAGE_SIZE < PPN_LIMIT
    ensures LeafResult(LeafEntry(at, pa, f, q.thead), va, q) ==
      if Reaches(f, q) then Some(AddressOf(pa / PAGE_SIZE, va % PAGE_SIZE)) else None
  {
    var e := LeafEntry(at, pa, f, q.thead);
    LeafEntryDecodes(at, pa, f, q.thead);
    if !q.thead {
      EntryDecodes(pa / PAGE_SIZE, PrepareFlags(f));
      assert e / 0x2000_0000_0000_0000 == 0;
    }
  }

  /**
   * The hardware walk and the software walk agree: at canonical addresses, on a page the kernel mapped with flags f,
   * every access that f promises is translated as translate does, and every other access, and every access to an
   * unmapped page, faults. Reads and writes that are translated find the accessed and dirty bits set, so no hart writes
   * to the table for them.
   */
  lemma HardwareAgrees(m: Memory, root: nat, pages: seq<nat>, va: nat, q: Request, at: nat, pa: nat, f: Flags)
    requires Tree(CellsOf(m), root, pages) && MappableAt(m, root, va)
    requires Key(va / PAGE_SIZE) in PageMap(m, root) ==>
      PageMap(m, root)[Key(va / PAGE_SIZE)] == LeafEntry(at, pa, f, q.thead) && pa / PAGE_SIZE < PPN_LIMIT
    ensures HardwareTranslate(m, root, va, q) ==
      if Canonical(va) && Key(va / PAGE_SIZE) in PageMap(m, root) && Reaches(f, q)
      then Resolve(PageMap(m, root), Low39(va)) else None
    ensures Key(va / PAGE_SIZE) in PageMap(m, root) && Reaches(f, q) && !q.access.Fetch? ==>
      var flags := FlagsOf(PageMap(m, root)[Key(va / PAGE_SIZE)]); flags.a && (q.access.Store? ==> flags.d)
  {
    hide PageMap, LeafEntry, LeafResult, Mappable, Key, Low39;
    WalkAgrees(m, root, pages, va, q);
    Low39Page(va);
    if Key(va / PAGE_SIZE) in PageMap(m, root) {
      LeafEntryResult(at, pa, f, va, q);
      LeafEntryDecodes(at, pa, f, q.thead);
    }
  }

  /**
   * For loads, the two walks give the same answer if and only if the page is unmapped, or readable in that mode at a
   * canonical address.
   */
  lemma LoadAgreesIffReadable(m: Memory, root: nat, pages: seq<nat>, va: nat, q: Request, at: nat, pa: nat, f: Flags)
    requires Tree(CellsOf(m), root, pages) && MappableAt(m, root, va) && q.access.Load?
    requires Key(va / PAGE_SIZE) in PageMap(m, root) ==>
      PageMap(m, root)[Key(va / PAGE_SIZE)] == LeafEntry(at, pa, f, q.thead) && pa / PAGE_SIZE < PPN_LIMIT
    ensures HardwareTranslate(m, root, va, q) == Resolve(PageMap(m, root), Low39(va)) <==>
      Key(va / PAGE_SIZE) !in PageMap(m, root) || (Canonical(va) && f.r && f.u == q.user)
  {
    hide PageMap, LeafEntry, LeafResult, Mappable, Key, Low39;
    Low39Page(va);
    HardwareAgrees(m, root, pages, va, q, at, pa, f);
  }

  // ---- the kernel's gigapage

  const KERNEL_SPACE_BASE: nat := 0x8000_0000
  const KERNEL_FLAGS := Flags(false, true, true, true, false, true, false, false)

  function KernelEntry(thead: bool): nat { LeafEntry(KERNEL_SPACE_BASE, KERNEL_SPACE_BASE, KERNEL_FLAGS, thead) }

  /** A table whose root slot 2 holds the kernel leaf maps [0x8000_0000, 0xC000_0000) to itself for the supervisor. */
  lemma KernelIdentity(m: Memory, root: nat, va: nat, q: Request)
    requires 2 in BigSlots(m, root) && BigSlots(m, root)[2] == KernelEntry(q.thead)
    requires 0x8000_0000 <= va < 0xC000_0000
    ensures HardwareTranslate(m, root, va, q) == if q.user then None else Some(va)
  {
    hide KernelEntry, Word, PageOf, AddressOf, Reserved, LeafPages, FlagsOf, VpnField;
    KernelEntryBits(q.thead);
    GigapageArithmetic(va);
    assert CellsOf(m)(root, 2) == Decode(Word(m, root, 2));
    assert Word(m, root, VpnField(va, 2)) == KernelEntry(q.thead);
  }

  lemma KernelEntryBits(thead: bool)
    ensures var e := KernelEntry(thead);
      && FlagsOf(e) == PrepareFlags(KERNEL_FLAGS) && PageOf(e) == 0x80000 && !Reserved(e, thead)
      && FlagsOf(e).g && FlagsOf(e).a && FlagsOf(e).d
  {
    LeafEntryDecodes(KERNEL_SPACE_BASE, KERNEL_SPACE_BASE, KERNEL_FLAGS, thead);
    if !thead {
      EntryDecodes(0x80000, PrepareFlags(KERNEL_FLAGS));
      assert KernelEntry(thead) / 0x2000_0000_0000_0000 == 0;
    }
  }

  lemma GigapageArithmetic(va: nat)
    requires 0x8000_0000 <= va < 0xC000_0000
    ensures VpnField(va, 2) == 2 && LeafPages(2) == 0x40000 && 0x80000 % LeafPages(2) == 0
    ensures AddressOf(0x80000 + va / PAGE_SIZE % 0x40000, va % PAGE_SIZE) == va
  {
    var vpn := va / PAGE_SIZE;
    assert vpn / 0x40000 == 2;
    assert va == vpn * PAGE_SIZE + va % PAGE_SIZE;
    assert vpn % 0x40000 == vpn - 0x80000;
  }
}
