/** PageTable: the tree of PageTrees in raw memory, changed in place (src/memory/paging.rs). */
module PageTables {
  import opened Basics
  import opened Words
  import opened Physical
  import opened Sv39
  import opened PageTrees

  function TableEntry(f: nat): (e: nat) { NewEntry(f, V_ONLY) }

  function Decode(e: nat): Cell {
    Cell(e, IsValid(e), IsPointer(e), PageOf(e), e == TableEntry(PageOf(e)))
  }

  function CellsOf(m: Memory): Cells { (f: nat, k: nat) => Decode(Word(m, f, k)) }

  function Ix(vpn: nat): (t: Indexes)
    ensures InRange(t)
  {
    Indexes(Idx0(vpn), Idx1(vpn), Idx2(vpn))
  }

  lemma IxNumbers()
    ensures Numbering(Ix, VPN_LIMIT)
  {
    forall v: nat, w: nat | v < VPN_LIMIT && w < VPN_LIMIT && Ix(v) == Ix(w) ensures v == w {
      IndexesIdentifyPage(v, w);
    }
  }

  /** The page number a walk for vpn really looks up: the indexes keep 27 bits. */
  function Key(vpn: nat): (k: nat)
    ensures k < VPN_LIMIT
  {
    vpn % VPN_LIMIT
  }

  lemma KeySmall(vpn: nat)
    requires vpn < VPN_LIMIT
    ensures Key(vpn) == vpn
  {
  }

  lemma KeyIndexes(vpn: nat)
    ensures Ix(Key(vpn)) == Ix(vpn)
  {
    var k, q := vpn % VPN_LIMIT, vpn / VPN_LIMIT;
    assert vpn == k + VPN_LIMIT * q;
    Carry(k, 512, 0x40000 * q);
    Carry(k / 512, 512, 512 * q);
    Carry(k / 0x40000, 512, q);
    QuotientCarry(k, 512, 0x40000 * q);
    QuotientCarry(k, 0x40000, 512 * q);
  }

  lemma Carry(k: nat, n: nat, q: nat)
    requires n == 512
    ensures (k + n * q) % n == k % n
  {
  }

  lemma QuotientCarry(k: nat, n: nat, q: nat)
    requires n == 512 || n == 0x40000
    ensures (k + n * q) / n == k / n + q
  {
  }

  /** The abstract page map of a table: every mapped page below 2^27 outside 1 GiB slots, with its entry. */
  function PageMap(m: Memory, root: nat): (v: map<nat, nat>) { MapOf(CellsOf(m), root, Ix, VPN_LIMIT) }

  /** The 1 GiB leaves: root entries that map_big filled. */
  function BigSlots(m: Memory, root: nat): (v: map<nat, nat>) { BigOf(CellsOf(m), root) }

  lemma TableEntryDecodes(f: nat)
    requires f < PPN_LIMIT
    ensures var e := TableEntry(f); Decode(e) == Cell(e, true, true, f, true)
  {
    EntryDecodes(f, V_ONLY);
    PointerFlags(TableEntry(f));
  }

  lemma CellsAfterStore(m: Memory, f: nat, k: nat, e: nat)
    requires f in m && k < 512 && e < SPAN64
    ensures var m' := StoreWord(m, f, k, e);
      && m'.Keys == m.Keys
      && (forall g :: g in m && g != f ==> m'[g] == m[g])
      && Updated(CellsOf(m), CellsOf(m'), f, k)
      && CellsOf(m')(f, k) == Decode(e)
  {
    WordAfterStore(m, f, k, e);
  }

  lemma CellsAfterGrow(m: Memory, root: nat, at: Path, novel: nat, f: nat, k: nat)
    requires CanGrow(CellsOf(m), root, at)
    requires f == (if at.Low? then NodeAt(CellsOf(m), root, Mid(at.i)).value else root)
    requires k == (if at.Low? then at.j else at.i)
    requires f in m && k < 512 && novel != f && novel < PPN_LIMIT
    ensures var m' := StoreWord(m[novel := ZeroFrame()], f, k, TableEntry(novel));
      && m'.Keys == m.Keys + {novel}
      && (forall g :: g in m && g != f && g != novel ==> m'[g] == m[g])
      && Grown(CellsOf(m), CellsOf(m'), root, at, novel)
      && Word(m', f, k) == TableEntry(novel)
  {
    WordOfZeroFrame(m, novel);
    WordAfterStore(m[novel := ZeroFrame()], f, k, TableEntry(novel));
    TableEntryDecodes(novel);
  }

  lemma SameBytesSameCells(m: Memory, m': Memory, pages: seq<nat>)
    requires forall f :: f in pages ==> f in m && f in m' && m'[f] == m[f]
    ensures SameCells(CellsOf(m), CellsOf(m'), pages)
  {
  }

  /** A table and both its views depend on the bytes of its own frames only. */
  lemma TableFramed(m: Memory, m': Memory, root: nat, pages: seq<nat>)
    requires Tree(CellsOf(m), root, pages)
    requires forall f :: f in pages ==> f in m && f in m' && m'[f] == m[f]
    ensures Tree(CellsOf(m'), root, pages)
    ensures PageMap(m', root) == PageMap(m, root)
    ensures BigSlots(m', root) == BigSlots(m, root)
  {
    SameBytesSameCells(m, m', pages);
    TreeFramed(CellsOf(m), CellsOf(m'), root, pages);
    IxNumbers();
    ViewFramed(CellsOf(m), CellsOf(m'), root, pages, Ix, VPN_LIMIT);
  }

  /** A well-formed table whose frames are in RAM and not free. */
  ghost predicate TableOk(m: Memory, free: set<nat>, root: nat, pages: seq<nat>) {
    && Tree(CellsOf(m), root, pages)
    && forall f :: f in pages ==> f in m && f !in free && f < PPN_LIMIT
  }

  /**
   * The frame rule of every table operation, from (m0, free0, pages0) to (m, free, pages): nodes were only added,
   * each came out of the free frames, and no byte outside the table changed.
   */
  ghost predicate TableStep(m0: Memory, free0: set<nat>, pages0: seq<nat>, m: Memory, free: set<nat>, pages: seq<nat>,
                            root: nat)
  {
    && TableOk(m, free, root, pages)
    && pages0 <= pages && free <= free0 && m.Keys == m0.Keys
    && |pages| - |pages0| == |free0| - |free|
    && (forall f :: f in pages <==> f in pages0 || (f in free0 && f !in free))
    && (forall f :: f in m0 && f !in pages ==> m[f] == m0[f])
  }

  /** A table step that maps and unmaps nothing. */
  ghost predicate Extends(m0: Memory, free0: set<nat>, pages0: seq<nat>, m: Memory, free: set<nat>, pages: seq<nat>,
                          root: nat)
  {
    && TableStep(m0, free0, pages0, m, free, pages, root)
    && PageMap(m, root) == PageMap(m0, root)
    && BigSlots(m, root) == BigSlots(m0, root)
  }

  /** vpn is a page number the table can map at 4 KiB: 27 bits and not below a 1 GiB leaf. */
  ghost predicate Mappable(m: Memory, root: nat, vpn: nat) {
    vpn < VPN_LIMIT && Idx0(vpn) !in BigSlots(m, root)
  }

  lemma MappableFollows(m: Memory, m': Memory, root: nat, vpn: nat)
    requires Mappable(m, root, vpn) && BigSlots(m', root) == BigSlots(m, root)
    ensures Mappable(m', root, vpn)
  {
  }

  lemma MappableBound(m: Memory, root: nat, first: nat, n: nat)
    requires forall w :: w in PageRange(first, n) ==> Mappable(m, root, w)
    ensures n > 0 ==> first + n <= VPN_LIMIT
  {
    hide BigSlots;
    if n > 0 { assert first + n - 1 in PageRange(first, n); }
  }

  lemma MappableSlot(m: Memory, root: nat, vpn: nat)
    requires Mappable(m, root, vpn)
    ensures !InBigSlot(CellsOf(m), root, Ix(vpn))
  {
  }

  /** Whether va may be mapped at 4 KiB. */
  ghost predicate MappableAt(m: Memory, root: nat, va: nat) { Mappable(m, root, Key(va / PAGE_SIZE)) }

  /** The physical address a page map gives va. */
  function Resolve(v: map<nat, nat>, va: nat): (pa: Option<nat>) {
    if va / PAGE_SIZE in v then Some(AddressOf(PageOf(v[va / PAGE_SIZE]), va % PAGE_SIZE)) else None
  }

  lemma OffsetInPage(va: nat)
    ensures va - va / PAGE_SIZE * PAGE_SIZE == va % PAGE_SIZE
  {
  }

  /** The 39 bits of an address that a walk looks at. */
  function Low39(va: nat): nat { va % 0x80_0000_0000 }

  lemma Low39Page(va: nat)
    ensures Low39(va) / PAGE_SIZE == Key(va / PAGE_SIZE) && Low39(va) % PAGE_SIZE == va % PAGE_SIZE
    ensures va < 0x80_0000_0000 ==> Low39(va) == va
  {
    var k, q := Low39(va), va / 0x80_0000_0000;
    assert va == k + PAGE_SIZE * (VPN_LIMIT * q);
    assert va / PAGE_SIZE == k / PAGE_SIZE + VPN_LIMIT * q && va % PAGE_SIZE == k % PAGE_SIZE;
    assert k / PAGE_SIZE < VPN_LIMIT;
  }

  /** The entry that find_pte ends at is the page's entry in the page map, if it is valid. */
  lemma WalkReadsMap(m: Memory, root: nat, vpn: nat)
    requires Mappable(m, root, vpn)
    ensures match Walk(CellsOf(m), root, Ix(vpn))
      case None => vpn !in PageMap(m, root)
      case Some(s) =>
        && (vpn in PageMap(m, root) <==> IsValid(Word(m, s.frame, s.index)))
        && (vpn in PageMap(m, root) ==> PageMap(m, root)[vpn] == Word(m, s.frame, s.index))
  {
    MappableSlot(m, root, vpn);
    var c := CellsOf(m);
    if Walk(c, root, Ix(vpn)).Some? {
      var s := Walk(c, root, Ix(vpn)).value;
      assert c(s.frame, s.index) == Decode(Word(m, s.frame, s.index));
    }
  }

  /** Storing e in the last-level entry of vpn is a table step that changes the page map at vpn alone. */
  lemma LeafStore(m: Memory, free: set<nat>, pages: seq<nat>, root: nat, vpn: nat, s: Slot, e: nat)
    requires TableOk(m, free, root, pages) && Mappable(m, root, vpn) && e < SPAN64
    requires Walk(CellsOf(m), root, Ix(vpn)) == Some(s)
    ensures s.frame in m && s.frame in pages && s.index < 512
    ensures var m' := StoreWord(m, s.frame, s.index, e);
      && m'.Keys == m.Keys
      && (forall g :: g in m && g != s.frame ==> m'[g] == m[g])
      && Tree(CellsOf(m'), root, pages)
      && PageMap(m', root) == (if IsValid(e) then PageMap(m, root)[vpn := e] else PageMap(m, root) - {vpn})
      && BigSlots(m', root) == BigSlots(m, root)
  {
    var c, t := CellsOf(m), Ix(vpn);
    MappableSlot(m, root, vpn);
    WalkIsNode(c, root, t);
    assert NodeAt(c, root, Low(t.i, t.j)) == Some(s.frame);
    CellsAfterStore(m, s.frame, s.index, e);
    var c' := CellsOf(StoreWord(m, s.frame, s.index, e));
    LeafStoreKeepsTree(c, c', root, pages, t.i, t.j, t.k);
    IxNumbers();
    LeafStoreView(c, c', root, Ix, VPN_LIMIT, vpn);
  }

  /** The frame an entry at path `at` lies in, and its index. */
  ghost predicate HangsAt(m: Memory, root: nat, at: Path, f: nat, k: nat) {
    && CanGrow(CellsOf(m), root, at)
    && f == (if at.Low? then NodeAt(CellsOf(m), root, Mid(at.i)).value else root)
    && k == (if at.Low? then at.j else at.i)
  }

  lemma GrowMemory(m: Memory, free: set<nat>, pages: seq<nat>, root: nat, at: Path, novel: nat, f: nat, k: nat)
    requires TableOk(m, free, root, pages) && HangsAt(m, root, at, f, k)
    requires novel in free && novel in m && novel < PPN_LIMIT
    ensures f in m && f in pages && f != novel && k < 512
    ensures var m' := StoreWord(m[novel := ZeroFrame()], f, k, TableEntry(novel));
      && m'.Keys == m.Keys
      && (forall g :: g in m && g != f && g != novel ==> m'[g] == m[g])
      && Tree(CellsOf(m'), root, pages + [novel])
      && PageMap(m', root) == PageMap(m, root)
      && BigSlots(m', root) == BigSlots(m, root)
      && NodeAt(CellsOf(m'), root, at) == Some(novel)
  {
    hide Numbering, MapOf, BigOf, Grown, Decode, TableEntry, Separated, Pristine;
    assert NodeAt(CellsOf(m), root, Root) == Some(root);
    CellsAfterGrow(m, root, at, novel, f, k);
    IxNumbers();
    GrowTable(CellsOf(m), CellsOf(StoreWord(m[novel := ZeroFrame()], f, k, TableEntry(novel))), root, pages, Ix,
        VPN_LIMIT, at, novel);
  }

  /** The new node is empty and the entry above it points to it. */
  lemma GrownNode(m: Memory, novel: nat, f: nat, k: nat)
    requires f in m && k < 512 && novel != f && novel < PPN_LIMIT
    ensures var m' := StoreWord(m[novel := ZeroFrame()], f, k, TableEntry(novel));
      && (forall j :: !CellsOf(m')(novel, j).valid)
      && Word(m', f, k) == TableEntry(novel)
  {
    WordOfZeroFrame(m, novel);
    WordAfterStore(m[novel := ZeroFrame()], f, k, TableEntry(novel));
  }

  lemma GrowExtends(m0: Memory, free0: set<nat>, pages0: seq<nat>, m: Memory, free: set<nat>, pages: seq<nat>,
                    root: nat, at: Path, novel: nat, f: nat, k: nat)
    requires Extends(m0, free0, pages0, m, free, pages, root) && HangsAt(m, root, at, f, k)
    requires novel in free && novel in m && novel < PPN_LIMIT
    ensures f in m && f in pages && f != novel && k < 512
    ensures var m' := StoreWord(m[novel := ZeroFrame()], f, k, TableEntry(novel));
      && Extends(m0, free0, pages0, m', free - {novel}, pages + [novel], root)
      && NodeAt(CellsOf(m'), root, at) == Some(novel)
  {
    hide Tree, CellsOf, PageMap, BigSlots, HangsAt, TableEntry, StoreWord, NodeAt;
    GrowMemory(m, free, pages, root, at, novel, f, k);
  }

  /** How many tables find_pte_create has to add for vpn. */
  function Missing(m: Memory, root: nat, vpn: nat): (n: nat) {
    var c := CellsOf(m);
    if !c(root, Idx0(vpn)).valid then 2
    else if !c(c(root, Idx0(vpn)).page, Idx1(vpn)).valid then 1
    else 0
  }

  lemma KeyMissing(m: Memory, root: nat, vpn: nat)
    ensures Missing(m, root, Key(vpn)) == Missing(m, root, vpn) <= 2
  {
    hide CellsOf, Key;
    KeyIndexes(vpn);
  }

  /** Which tables are missing depends on the table's own frames only. */
  lemma MissingFramed(m: Memory, m': Memory, root: nat, pages: seq<nat>, vpn: nat)
    requires Tree(CellsOf(m), root, pages) && Mappable(m, root, vpn)
    requires forall f :: f in pages ==> f in m && f in m' && m'[f] == m[f]
    ensures Missing(m', root, vpn) == Missing(m, root, vpn)
  {
    hide Separated, Pristine;
    MappableSlot(m, root, vpn);
    SameBytesSameCells(m, m', pages);
    var c, c', i := CellsOf(m), CellsOf(m'), Idx0(vpn);
    assert NodeAt(c, root, Root) == Some(root);
    assert c'(root, i) == c(root, i);
    if c(root, i).valid {
      assert NodeAt(c, root, Mid(i)) == Some(c(root, i).page);
      assert c'(c(root, i).page, Idx1(vpn)) == c(c(root, i).page, Idx1(vpn));
    }
  }

  lemma BigLeafStore(m: Memory, pages: seq<nat>, root: nat, i: nat, e: nat)
    requires Tree(CellsOf(m), root, pages) && root in m && i < 512 && e < SPAN64
    requires !IsValid(Word(m, root, i)) && IsValid(e) && !IsPointer(e)
    ensures var m' := StoreWord(m, root, i, e);
      && m'.Keys == m.Keys
      && (forall g :: g in m && g != root ==> m'[g] == m[g])
      && Tree(CellsOf(m'), root, pages)
      && PageMap(m', root) == PageMap(m, root)
      && BigSlots(m', root) == BigSlots(m, root)[i := e]
  {
    CellsAfterStore(m, root, i, e);
    IxNumbers();
    var c' := CellsOf(StoreWord(m, root, i, e));
    BigStoreKeepsTree(CellsOf(m), c', root, pages, i);
    BigStoreView(CellsOf(m), c', root, pages, Ix, VPN_LIMIT, i);
  }

  /** An entry with R, W or X set is never read as a pointer. */
  lemma LeafIsNoPointer(va: nat, pa: nat, f: Flags, thead: bool)
    requires pa / PAGE_SIZE < PPN_LIMIT && (f.r || f.w || f.x)
    ensures !IsPointer(LeafEntry(va, pa, f, thead))
  {
    LeafEntryDecodes(va, pa, f, thead);
    PointerFlags(LeafEntry(va, pa, f, thead));
  }

  ghost predicate Disjoint(s: seq<nat>, t: seq<nat>) {
    forall f :: f in s ==> f !in t
  }

  /** A step of one table leaves every other table alone. */
  lemma OtherTableKept(m0: Memory, free0: set<nat>, pages0: seq<nat>, m: Memory, free: set<nat>, pages: seq<nat>,
                       root: nat, otherRoot: nat, other: seq<nat>)
    requires TableStep(m0, free0, pages0, m, free, pages, root)
    requires TableOk(m0, free0, otherRoot, other) && Disjoint(other, pages0)
    ensures TableOk(m, free, otherRoot, other) && Disjoint(other, pages)
    ensures PageMap(m, otherRoot) == PageMap(m0, otherRoot)
    ensures BigSlots(m, otherRoot) == BigSlots(m0, otherRoot)
  {
    hide PageMap, BigSlots, Tree;
    TableFramed(m0, m, otherRoot, other);
  }

  // ---- runs

  datatype Op = MapOp(va: nat, pa: nat, flags: Flags) | UnmapOp(va: nat)

  /** What one operation means on page maps; None is a panic of set_pte or unmap. */
  function ApplyOp(v: map<nat, nat>, op: Op, thead: bool): (r: Option<map<nat, nat>>) {
    var vpn := Key(op.va / PAGE_SIZE);
    match op
    case MapOp(va, pa, flags) => if vpn in v then None else Some(v[vpn := LeafEntry(va, pa, flags, thead)])
    case UnmapOp(_) => if vpn in v then Some(v - {vpn}) else None
  }

  function AbstractRun(v: map<nat, nat>, ops: seq<Op>, thead: bool): (r: Option<map<nat, nat>>)
    decreases |ops|
  {
    if ops == [] then Some(v) else
    match AbstractRun(v, ops[..|ops| - 1], thead)
    case None => None
    case Some(w) => ApplyOp(w, ops[|ops| - 1], thead)
  }

  lemma {:induction false} AbstractRunFails(v: map<nat, nat>, ops: seq<Op>, n: nat, thead: bool)
    requires n <= |ops| && AbstractRun(v, ops[..n], thead).None?
    ensures AbstractRun(v, ops, thead).None?
    decreases |ops|
  {
    if n == |ops| {
      assert ops[..n] == ops;
    } else {
      assert ops[..|ops| - 1][..n] == ops[..n];
      AbstractRunFails(v, ops[..|ops| - 1], n, thead);
    }
  }

  lemma RootOwned(m: Memory, free: set<nat>, root: nat, pages: seq<nat>)
    requires TableOk(m, free, root, pages)
    ensures root in pages && root in m
  {
    assert NodeAt(CellsOf(m), root, Root) == Some(root);
  }

  /** A table step followed by a change inside the table's frames is a table step. */
  lemma TableStepThenOwn(m0: Memory, free0: set<nat>, pages0: seq<nat>, m1: Memory, m2: Memory, free: set<nat>,
                         pages: seq<nat>, root: nat)
    requires TableStep(m0, free0, pages0, m1, free, pages, root) && TableOk(m2, free, root, pages)
    requires m2.Keys == m1.Keys && forall f :: f in m2 && f !in pages ==> m2[f] == m1[f]
    ensures TableStep(m0, free0, pages0, m2, free, pages, root)
  {
    hide Tree;
  }

  /** Once a page is mapped its tables are all there. */
  lemma MappedNeedsNothing(m: Memory, root: nat, vpn: nat)
    requires vpn in PageMap(m, root)
    ensures Missing(m, root, vpn) == 0
  {
  }

  lemma TableStepOk(m0: Memory, free0: set<nat>, pages0: seq<nat>, m: Memory, free: set<nat>, pages: seq<nat>,
                    root: nat)
    requires TableStep(m0, free0, pages0, m, free, pages, root)
    ensures TableOk(m, free, root, pages)
  {
  }

  lemma TableStepRefl(m: Memory, free: set<nat>, pages: seq<nat>, root: nat)
    requires TableOk(m, free, root, pages)
    ensures TableStep(m, free, pages, m, free, pages, root)
  {
  }

  lemma TableStepTrans(m0: Memory, free0: set<nat>, pages0: seq<nat>, m1: Memory, free1: set<nat>, pages1: seq<nat>,
                       m2: Memory, free2: set<nat>, pages2: seq<nat>, root: nat)
    requires TableStep(m0, free0, pages0, m1, free1, pages1, root)
    requires TableStep(m1, free1, pages1, m2, free2, pages2, root)
    ensures TableStep(m0, free0, pages0, m2, free2, pages2, root)
  {
  }

  ghost predicate OpOk(m: Memory, root: nat, op: Op) {
    && MappableAt(m, root, op.va)
    && (op.MapOp? ==> op.pa / PAGE_SIZE < PPN_LIMIT)
  }

  lemma PageAfter(va: nat, n: nat)
    ensures (va + PAGE_SIZE * n) / PAGE_SIZE == va / PAGE_SIZE + n
    ensures n * PAGE_SIZE / PAGE_SIZE == n
  {
  }

  /** The unmaps of unmap_many, one per page. */
  function UnmapOps(first: nat, n: nat): (ops: seq<Op>) {
    if n == 0 then [] else UnmapOps(first, n - 1) + [UnmapOp((first + n - 1) * PAGE_SIZE)]
  }

  lemma UnmapOpsStep(v: map<nat, nat>, w: map<nat, nat>, first: nat, n: nat, thead: bool)
    requires AbstractRun(v, UnmapOps(first, n), thead) == Some(w) && first + n < VPN_LIMIT
    ensures AbstractRun(v, UnmapOps(first, n + 1), thead) == if first + n in w then Some(w - {first + n}) else None
  {
    PageAfter(0, first + n);
    KeySmall(first + n);
    var ops := UnmapOps(first, n + 1);
    assert ops[..|ops| - 1] == UnmapOps(first, n);
  }

  lemma UnmapNothing(v: map<nat, nat>, first: nat, thead: bool)
    ensures PageRange(first, 0) == {} && AbstractRun(v, UnmapOps(first, 0), thead) == Some(v) && v - {} == v
  {
    PageRangeGrows(first, 0);
  }

  lemma {:induction false} UnmapOpsMeaning(v: map<nat, nat>, first: nat, n: nat, thead: bool)
    requires n > 0 ==> first + n <= VPN_LIMIT
    ensures AbstractRun(v, UnmapOps(first, n), thead) ==
      if PageRange(first, n) <= v.Keys then Some(v - PageRange(first, n)) else None
  {
    hide ApplyOp, PageRange, AbstractRun, UnmapOps;
    if n == 0 {
      UnmapNothing(v, first, thead);
      return;
    }
    PageRangeGrows(first, n - 1);
    UnmapOpsMeaning(v, first, n - 1, thead);
    var s, last := PageRange(first, n - 1), first + n - 1;
    if s <= v.Keys {
      UnmapOpsStep(v, v - s, first, n - 1, thead);
      assert last in v - s <==> last in v;
      assert (v - s) - {last} == v - (s + {last});
    } else {
      UnmapOpsPrefix(first, n - 1, n);
      AbstractRunFails(v, UnmapOps(first, n), n - 1, thead);
    }
  }

  /** What holds when the operations `ops` have been carried out from (m0, free0, pages0). */
  ghost predicate RanSoFar(m0: Memory, free0: set<nat>, pages0: seq<nat>, m: Memory, free: set<nat>, pages: seq<nat>,
                           root: nat, ops: seq<Op>, thead: bool)
  {
    && TableStep(m0, free0, pages0, m, free, pages, root) && |free0| <= |free| + 2 * |ops|
    && BigSlots(m, root) == BigSlots(m0, root)
    && AbstractRun(PageMap(m0, root), ops, thead) == Some(PageMap(m, root))
  }

  lemma RanSoFarStep(m0: Memory, free0: set<nat>, pages0: seq<nat>, m1: Memory, free1: set<nat>, pages1: seq<nat>,
                     m2: Memory, free2: set<nat>, pages2: seq<nat>, root: nat, ops: seq<Op>, op: Op, thead: bool)
    requires RanSoFar(m0, free0, pages0, m1, free1, pages1, root, ops, thead)
    requires TableStep(m1, free1, pages1, m2, free2, pages2, root) && BigSlots(m2, root) == BigSlots(m1, root)
      && |free1| <= |free2| + 2
    requires ApplyOp(PageMap(m1, root), op, thead) == Some(PageMap(m2, root))
    ensures RanSoFar(m0, free0, pages0, m2, free2, pages2, root, ops + [op], thead)
  {
    hide TableOk, TableStep, PageMap, BigSlots, ApplyOp;
    TableStepTrans(m0, free0, pages0, m1, free1, pages1, m2, free2, pages2, root);
    assert (ops + [op])[..|ops + [op]| - 1] == ops;
  }

  /** A step that panicked on the page map makes the whole run a panic. */
  lemma RanSoFarFails(m0: Memory, free0: set<nat>, pages0: seq<nat>, m: Memory, free: set<nat>, pages: seq<nat>,
                      root: nat, ops: seq<Op>, n: nat, thead: bool)
    requires n < |ops| && RanSoFar(m0, free0, pages0, m, free, pages, root, ops[..n], thead)
    requires ApplyOp(PageMap(m, root), ops[n], thead).None?
    ensures AbstractRun(PageMap(m0, root), ops, thead).None?
  {
    hide TableOk, TableStep, PageMap, BigSlots, ApplyOp;
    assert ops[..n + 1][..n] == ops[..n];
    AbstractRunFails(PageMap(m0, root), ops, n + 1, thead);
  }

  lemma RanSoFarMeans(m0: Memory, free0: set<nat>, pages0: seq<nat>, m: Memory, free: set<nat>, pages: seq<nat>,
                      root: nat, ops: seq<Op>, thead: bool)
    requires RanSoFar(m0, free0, pages0, m, free, pages, root, ops, thead)
    ensures TableStep(m0, free0, pages0, m, free, pages, root)
    ensures BigSlots(m, root) == BigSlots(m0, root) && |free0| <= |free| + 2 * |ops|
    ensures AbstractRun(PageMap(m0, root), ops, thead) == Some(PageMap(m, root))
  {
  }

  lemma RanSoFarMappable(m0: Memory, free0: set<nat>, pages0: seq<nat>, m: Memory, free: set<nat>, pages: seq<nat>,
                         root: nat, ops: seq<Op>, thead: bool, vpn: nat)
    requires RanSoFar(m0, free0, pages0, m, free, pages, root, ops, thead) && Mappable(m0, root, vpn)
    ensures Mappable(m, root, vpn)
  {
    hide TableStep, PageMap, AbstractRun;
  }

  lemma {:induction false} UnmapOpsPrefix(first: nat, k: nat, n: nat)
    requires k <= n
    ensures |UnmapOps(first, n)| == n && UnmapOps(first, n)[..k] == UnmapOps(first, k)
  {
    if k < n { UnmapOpsPrefix(first, k, n - 1); }
    else if n > 0 { UnmapOpsPrefix(first, n - 1, n - 1); }
  }

  class PageTable {
    const machine: Machine
    const root: nat
    var pages: seq<nat>

    ghost predicate Valid()
      reads this, machine
    {
      machine.Valid() && TableOk(machine.mem, machine.free, root, pages)
    }

    constructor (machine: Machine, root: nat)
      ensures this.machine == machine && this.root == root && pages == [root]
    {
      this.machine := machine;
      this.root := root;
      pages := [root];
    }

    lemma Unchanged()
      requires Valid()
      ensures TableStep(machine.mem, machine.free, pages, machine.mem, machine.free, pages, root)
      ensures RanSoFar(machine.mem, machine.free, pages, machine.mem, machine.free, pages, root, [], machine.thead)
    {
      TableStepRefl(machine.mem, machine.free, pages, root);
    }

    method FindPte(vpn: nat) returns (r: Option<Slot>)
      ensures r == Walk(CellsOf(machine.mem), root, Ix(vpn))
    {
      var idxes := GetPteIndexes(vpn);
      ghost var c := CellsOf(machine.mem);
      var ppn, i := root, 0;
      r := None;
      while i < 3
        invariant 0 <= i <= 2
        invariant i == 0 ==> ppn == root
        invariant i >= 1 ==> c(root, idxes[0]).valid
        invariant i == 1 ==> ppn == c(root, idxes[0]).page
        invariant i == 2 ==>
          c(c(root, idxes[0]).page, idxes[1]).valid && ppn == c(c(root, idxes[0]).page, idxes[1]).page
      {
        var pte := Word(machine.mem, ppn, idxes[i]);
        assert c(ppn, idxes[i]) == Decode(pte);
        if i == 2 {
          r := Some(Slot(ppn, idxes[i]));
          break;
        }
        if !IsValid(pte) {
          return None;
        }
        ppn := PageOf(pte);
        i := i + 1;
      }
    }

    /** The allocating branch of find_pte_create: clear a frame, point entry k of node f at it, and own it. */
    method AddTable(ghost at: Path, f: nat, k: nat, ghost m0: Memory, ghost free0: set<nat>, ghost pages0: seq<nat>)
      returns (r: Outcome<nat>)
      requires machine.Valid() && Extends(m0, free0, pages0, machine.mem, machine.free, pages, root)
      requires HangsAt(machine.mem, root, at, f, k)
      modifies this, machine
      ensures r == Panicked(OutOfFrames) <==> old(machine.free) == {}
      ensures r.Panicked? ==> r.why == OutOfFrames
      ensures r.Done? ==>
        && machine.Valid() && Extends(m0, free0, pages0, machine.mem, machine.free, pages, root)
        && |machine.free| == |old(machine.free)| - 1
        && NodeAt(CellsOf(machine.mem), root, at) == Some(r.value)
        && (forall j :: !CellsOf(machine.mem)(r.value, j).valid)
        && Word(machine.mem, f, k) == TableEntry(r.value) && r.value < PPN_LIMIT
    {
      hide Extends, TableOk, HangsAt, TableEntry, CellsOf, NodeAt, Word;
      r := machine.Alloc();
      if r.Panicked? {
        return;
      }
      var novel := r.value;
      GrowExtends(m0, free0, pages0, old(machine.mem), old(machine.free), pages, root, at, novel, f, k);
      GrownNode(old(machine.mem), novel, f, k);
      machine.mem := StoreWord(machine.mem, f, k, TableEntry(novel));
      pages := pages + [novel];
    }

    method FindPteCreate(vpn: nat) returns (r: Outcome<Slot>)
      requires Valid() && !InBigSlot(CellsOf(machine.mem), root, Ix(vpn))
      modifies this, machine
      ensures r == Panicked(OutOfFrames) <==> |old(machine.free)| < Missing(old(machine.mem), root, vpn)
      ensures r.Panicked? ==> r.why == OutOfFrames
      ensures r.Done? ==>
        && machine.Valid()
        && Extends(old(machine.mem), old(machine.free), old(pages), machine.mem, machine.free, pages, root)
        && Walk(CellsOf(machine.mem), root, Ix(vpn)) == Some(r.value)
        && |machine.free| == |old(machine.free)| - Missing(old(machine.mem), root, vpn)
    {
      hide TableStep, PageMap, BigSlots, Word, PageOf;
      var idxes := GetPteIndexes(vpn);
      ghost var m0, free0, pages0, n := machine.mem, machine.free, pages, Missing(machine.mem, root, vpn);
      ghost var t := Ix(vpn);
      Unchanged();
      var ppn, i := root, 0;
      while i < 3
        invariant 0 <= i <= 2
        invariant machine.Valid() && Extends(m0, free0, pages0, machine.mem, machine.free, pages, root)
        invariant i == 0 ==> ppn == root && machine.mem == m0 && machine.free == free0
        invariant i == 1 ==> NodeAt(CellsOf(machine.mem), root, Mid(t.i)) == Some(ppn)
        invariant i == 1 && n == 2 ==> |machine.free| == |free0| - 1 && !CellsOf(machine.mem)(ppn, t.j).valid
        invariant i == 1 && n < 2 ==> machine.mem == m0 && machine.free == free0
        invariant i == 2 ==>
          NodeAt(CellsOf(machine.mem), root, Low(t.i, t.j)) == Some(ppn) && |machine.free| == |free0| - n
      {
        var pte := Word(machine.mem, ppn, idxes[i]);
        assert CellsOf(machine.mem)(ppn, idxes[i]) == Decode(pte);
        if i == 2 {
          WalkIsNode(CellsOf(machine.mem), root, t);
          return Done(Slot(ppn, idxes[i]));
        }
        if !IsValid(pte) {
          ghost var at := if i == 0 then Mid(t.i) else Low(t.i, t.j);
          var added := AddTable(at, ppn, idxes[i], m0, free0, pages0);
          if added.Panicked? {
            return Panicked(added.why);
          }
          TableEntryDecodes(added.value);
        }
        pte := Word(machine.mem, ppn, idxes[i]);
        assert CellsOf(machine.mem)(ppn, idxes[i]) == Decode(pte);
        ppn := PageOf(pte);
        i := i + 1;
      }
    }

    /** set_pte on the slot that find_pte_create returned for va. */
    method SetPte(s: Slot, va: nat, pa: nat, flags: Flags) returns (r: Outcome<()>)
      requires Valid() && MappableAt(machine.mem, root, va)
      requires Walk(CellsOf(machine.mem), root, Ix(va / PAGE_SIZE)) == Some(s)
      requires pa / PAGE_SIZE < PPN_LIMIT
      modifies machine`mem
      ensures r ==
          (if Key(va / PAGE_SIZE) in old(PageMap(machine.mem, root)) then Panicked(AlreadyMapped) else Done(()))
      ensures r.Done? ==>
        && Valid() && machine.mem.Keys == old(machine.mem.Keys)
        && (forall f :: f in machine.mem && f !in pages ==> machine.mem[f] == old(machine.mem)[f])
        && PageMap(machine.mem, root) ==
            old(PageMap(machine.mem, root))[Key(va / PAGE_SIZE) := LeafEntry(va, pa, flags, machine.thead)]
        && BigSlots(machine.mem, root) == old(BigSlots(machine.mem, root))
    {
      hide Tree, CellsOf, Decode, Walk, Mappable, Key, Ix, PageMap, BigSlots, LeafEntry;
      KeyIndexes(va / PAGE_SIZE);
      WalkReadsMap(machine.mem, root, Key(va / PAGE_SIZE));
      if IsValid(Word(machine.mem, s.frame, s.index)) {
        return Panicked(AlreadyMapped);
      }
      var e := LeafEntry(va, pa, flags, machine.thead);
      LeafEntryDecodes(va, pa, flags, machine.thead);
      LeafStore(machine.mem, machine.free, pages, root, Key(va / PAGE_SIZE), s, e);
      machine.mem := StoreWord(machine.mem, s.frame, s.index, e);
      r := Done(());
    }

    /** Map refines an insertion into the page map; it panics exactly when the page is mapped or frames run out. */
    method Map(va: nat, pa: nat, flags: Flags) returns (r: Outcome<()>)
      requires Valid() && MappableAt(machine.mem, root, va) && pa / PAGE_SIZE < PPN_LIMIT
      modifies this, machine
      ensures r == if Key(va / PAGE_SIZE) in old(PageMap(machine.mem, root)) then Panicked(AlreadyMapped)
                   else if |old(machine.free)| < Missing(old(machine.mem), root, Key(va / PAGE_SIZE))
                       then Panicked(OutOfFrames)
                   else Done(())
      ensures r.Done? ==>
        && Valid()
        && TableStep(old(machine.mem), old(machine.free), old(pages), machine.mem, machine.free, pages, root)
        && |machine.free| == |old(machine.free)| - Missing(old(machine.mem), root, Key(va / PAGE_SIZE))
        && PageMap(machine.mem, root) ==
            old(PageMap(machine.mem, root))[Key(va / PAGE_SIZE) := LeafEntry(va, pa, flags, machine.thead)]
        && BigSlots(machine.mem, root) == old(BigSlots(machine.mem, root))
        && AttributeBits(PageMap(machine.mem, root)[Key(va / PAGE_SIZE)]) ==
            (if !machine.thead then 0 else if va >= 0xD000_0000 then 4 else 3)
    {
      hide TableOk, TableStep, CellsOf, Decode, Walk, PageMap, LeafEntry, Missing, InBigSlot, Key, Ix, AttributeBits;
      LeafEntryDecodes(va, pa, flags, machine.thead);
      ghost var vpn, m0, free0, pages0 := Key(va / PAGE_SIZE), machine.mem, machine.free, pages;
      KeyIndexes(va / PAGE_SIZE);
      KeyMissing(m0, root, va / PAGE_SIZE);
      if vpn in PageMap(m0, root) { MappedNeedsNothing(m0, root, vpn); }
      MappableSlot(m0, root, vpn);
      var pte := FindPteCreate(va / PAGE_SIZE);
      if pte.Panicked? {
        return Panicked(pte.why);
      }
      ghost var m1 := machine.mem;
      MappableFollows(m0, m1, root, vpn);
      TableStepOk(m0, free0, pages0, m1, machine.free, pages, root);
      r := SetPte(pte.value, va, pa, flags);
      if r.Done? { TableStepThenOwn(m0, free0, pages0, m1, machine.mem, machine.free, pages, root); }
    }

    /** Unmap refines a removal from the page map. No node is given back. */
    method Unmap(va: nat) returns (r: Outcome<()>)
      requires Valid() && MappableAt(machine.mem, root, va)
      modifies machine`mem
      ensures r == if Key(va / PAGE_SIZE) in old(PageMap(machine.mem, root)) then Done(()) else Panicked(NotMapped)
      ensures r.Done? ==>
        && Valid()
        && TableStep(old(machine.mem), machine.free, pages, machine.mem, machine.free, pages, root)
        && PageMap(machine.mem, root) == old(PageMap(machine.mem, root)) - {Key(va / PAGE_SIZE)}
        && BigSlots(machine.mem, root) == old(BigSlots(machine.mem, root))
    {
      hide Tree, CellsOf, Decode, Walk, Mappable, Key, Ix, PageMap, BigSlots;
      var pte := FindPte(va / PAGE_SIZE);
      KeyIndexes(va / PAGE_SIZE);
      WalkReadsMap(machine.mem, root, Key(va / PAGE_SIZE));
      if pte.None? {
        return Panicked(NotMapped);
      }
      var s := pte.value;
      if !IsValid(Word(machine.mem, s.frame, s.index)) {
        return Panicked(NotMapped);
      }
      LeafStore(machine.mem, machine.free, pages, root, Key(va / PAGE_SIZE), s, 0);
      machine.mem := StoreWord(machine.mem, s.frame, s.index, 0);
      r := Done(());
    }

    /** translate reads the page map. */
    method Translate(va: nat) returns (pa: Option<nat>)
      requires Valid() && MappableAt(machine.mem, root, va)
      ensures pa == Resolve(PageMap(machine.mem, root), Low39(va))
    {
      hide Tree, CellsOf, Decode, TableOk, Walk, Mappable, Key, Ix, Low39, PageMap, PageOf, AddressOf;
      OffsetInPage(va);
      Low39Page(va);
      var pte := FindPte(va / PAGE_SIZE);
      KeyIndexes(va / PAGE_SIZE);
      WalkReadsMap(machine.mem, root, Key(va / PAGE_SIZE));
      if pte.None? {
        return None;
      }
      var s := pte.value;
      var e := Word(machine.mem, s.frame, s.index);
      if IsValid(e) {
        var offset := va - va / PAGE_SIZE * PAGE_SIZE;
        pa := Some(AddressOf(PageOf(e), offset));
      } else {
        pa := None;
      }
    }

    static method New(machine: Machine) returns (r: Outcome<PageTable>)
      requires machine.Valid()
      modifies machine
      ensures r == Panicked(OutOfFrames) <==> old(machine.free) == {}
      ensures r.Panicked? ==> r.why == OutOfFrames
      ensures r.Done? ==>
        && fresh(r.value) && r.value.machine == machine && r.value.Valid()
        && r.value.root in old(machine.free) && r.value.pages == [r.value.root]
        && machine.free == old(machine.free) - {r.value.root}
        && machine.mem == old(machine.mem)[r.value.root := ZeroFrame()]
        && PageMap(machine.mem, r.value.root) == map[] && BigSlots(machine.mem, r.value.root) == map[]
    {
      var page := machine.Alloc();
      if page.Panicked? {
        return Panicked(page.why);
      }
      WordOfZeroFrame(old(machine.mem), page.value);
      EmptyTree(CellsOf(machine.mem), page.value);
      var table := new PageTable(machine, page.value);
      r := Done(table);
    }

    /** map_big: a 1 GiB leaf in the root. The flags must make it a leaf. */
    method MapBig(va: nat, pa: nat, flags: Flags) returns (r: Outcome<()>)
      requires Valid() && pa / PAGE_SIZE < PPN_LIMIT && (flags.r || flags.w || flags.x)
      modifies machine`mem
      ensures r == if va / 0x4000_0000 >= 512 then Panicked(BadIndex)
                   else if IsValid(Word(old(machine.mem), root, va / 0x4000_0000)) then Panicked(AlreadyMapped)
                   else Done(())
      ensures r.Done? ==>
        && Valid() && machine.mem.Keys == old(machine.mem.Keys)
        && (forall f :: f in machine.mem && f != root ==> machine.mem[f] == old(machine.mem)[f])
        && PageMap(machine.mem, root) == old(PageMap(machine.mem, root))
        && BigSlots(machine.mem, root) ==
            old(BigSlots(machine.mem, root))[va / 0x4000_0000 := LeafEntry(va, pa, flags, machine.thead)]
    {
      hide TableStep, PageMap, BigSlots, LeafEntry, CellsOf, Separated, Lists, Pristine;
      var idx := va / 0x4000_0000;
      if idx >= 512 {
        return Panicked(BadIndex);
      }
      if IsValid(Word(machine.mem, root, idx)) {
        return Panicked(AlreadyMapped);
      }
      var e := LeafEntry(va, pa, flags, machine.thead);
      LeafEntryDecodes(va, pa, flags, machine.thead);
      LeafIsNoPointer(va, pa, flags, machine.thead);
      RootOwned(machine.mem, machine.free, root, pages);
      BigLeafStore(machine.mem, pages, root, idx, e);
      machine.mem := StoreWord(machine.mem, root, idx, e);
      r := Done(());
    }

    /** unmap_many: consecutive pages; panics exactly when one of them is not mapped. */
    method UnmapMany(va: nat, n: nat) returns (r: Outcome<()>)
      requires Valid() && forall w :: w in PageRange(va / PAGE_SIZE, n) ==> Mappable(machine.mem, root, w)
      modifies machine`mem
      ensures r == if PageRange(va / PAGE_SIZE, n) <= old(PageMap(machine.mem, root)).Keys then Done(())
          else Panicked(NotMapped)
      ensures r.Done? ==>
        && Valid() && BigSlots(machine.mem, root) == old(BigSlots(machine.mem, root))
        && TableStep(old(machine.mem), machine.free, pages, machine.mem, machine.free, pages, root)
        && PageMap(machine.mem, root) == old(PageMap(machine.mem, root)) - PageRange(va / PAGE_SIZE, n)
    {
      hide Valid, TableOk, TableStep, PageMap, BigSlots, Mappable, AbstractRun, RanSoFar;
      ghost var m0, first := machine.mem, va / PAGE_SIZE;
      ghost var ops := UnmapOps(first, n);
      Unchanged();
      MappableBound(m0, root, first, n);
      UnmapOpsMeaning(PageMap(m0, root), first, n, machine.thead);
      var pg := 0;
      while pg < n
        invariant 0 <= pg <= n && Valid()
        invariant RanSoFar(m0, machine.free, pages, machine.mem, machine.free, pages, root, UnmapOps(first, pg),
            machine.thead)
      {
        ghost var m1 := machine.mem;
        var page := va / PAGE_SIZE + pg;
        PageAfter(0, page);
        KeySmall(page);
        RanSoFarMappable(m0, machine.free, pages, m1, machine.free, pages, root, UnmapOps(first, pg), machine.thead,
            page);
        r := Unmap(page * PAGE_SIZE);
        ghost var op := UnmapOp(page * PAGE_SIZE);
        if r.Panicked? {
          UnmapOpsPrefix(first, pg, n);
          UnmapOpsPrefix(first, pg + 1, n);
          assert ops[pg] == ops[..pg + 1][pg] == op;
          RanSoFarFails(m0, machine.free, pages, m1, machine.free, pages, root, ops, pg, machine.thead);
          return;
        }
        RanSoFarStep(m0, machine.free, pages, m1, machine.free, pages, machine.mem, machine.free, pages, root,
            UnmapOps(first, pg), op, machine.thead);
        pg := pg + 1;
      }
      RanSoFarMeans(m0, machine.free, pages, machine.mem, machine.free, pages, root, ops, machine.thead);
      r := Done(());
    }

    method RunOne(op: Op) returns (r: Outcome<()>)
      requires Valid() && OpOk(machine.mem, root, op)
      modifies this, machine
      ensures r.Done? ==>
        && Valid() && BigSlots(machine.mem, root) == old(BigSlots(machine.mem, root))
        && TableStep(old(machine.mem), old(machine.free), old(pages), machine.mem, machine.free, pages, root)
        && ApplyOp(old(PageMap(machine.mem, root)), op, machine.thead) == Some(PageMap(machine.mem, root))
      ensures r.Done? ==> |old(machine.free)| <= |machine.free| + 2
      ensures r.Panicked? ==> r.why in {AlreadyMapped, NotMapped, OutOfFrames}
      ensures r.Panicked? && r.why != OutOfFrames ==> ApplyOp(old(PageMap(machine.mem, root)), op, machine.thead).None?
      ensures r == Panicked(OutOfFrames) ==> |old(machine.free)| < 2
    {
      hide TableStep, TableOk, PageMap, BigSlots, LeafEntry, Missing;
      KeyMissing(machine.mem, root, op.va / PAGE_SIZE);
      match op {
        case MapOp(va, pa, flags) => r := Map(va, pa, flags);
        case UnmapOp(va) => r := Unmap(va);
      }
    }

    /** Every run of map and unmap refines the same run on page maps. */
    method Run(ops: seq<Op>) returns (r: Outcome<()>)
      requires Valid() && forall i :: 0 <= i < |ops| ==> OpOk(machine.mem, root, ops[i])
      modifies this, machine
      ensures r.Done? ==>
        && Valid() && BigSlots(machine.mem, root) == old(BigSlots(machine.mem, root))
        && TableStep(old(machine.mem), old(machine.free), old(pages), machine.mem, machine.free, pages, root)
        && AbstractRun(old(PageMap(machine.mem, root)), ops, machine.thead) == Some(PageMap(machine.mem, root))
      ensures r.Panicked? ==> r.why in {AlreadyMapped, NotMapped, OutOfFrames}
      ensures r.Panicked? && r.why != OutOfFrames ==>
        AbstractRun(old(PageMap(machine.mem, root)), ops, machine.thead).None?
      ensures |old(machine.free)| >= 2 * |ops| ==> r != Panicked(OutOfFrames)
    {
      hide Valid, TableOk, TableStep, PageMap, BigSlots, Mappable, AbstractRun, RanSoFar, ApplyOp;
      ghost var m0, free0, pages0 := machine.mem, machine.free, pages;
      Unchanged();
      var n := 0;
      assert ops[..0] == [];
      while n < |ops|
        invariant 0 <= n <= |ops| && Valid()
        invariant RanSoFar(m0, free0, pages0, machine.mem, machine.free, pages, root, ops[..n], machine.thead)
      {
        ghost var m1, free1, pages1 := machine.mem, machine.free, pages;
        RanSoFarMappable(m0, free0, pages0, m1, free1, pages1, root, ops[..n], machine.thead,
            Key(ops[n].va / PAGE_SIZE));
        RanSoFarMeans(m0, free0, pages0, m1, free1, pages1, root, ops[..n], machine.thead);
        r := RunOne(ops[n]);
        if r.Panicked? {
          if r.why != OutOfFrames { RanSoFarFails(m0, free0, pages0, m1, free1, pages1, root, ops, n, machine.thead); }
          return;
        }
        RanSoFarStep(m0, free0, pages0, m1, free1, pages1, machine.mem, machine.free, pages, root, ops[..n], ops[n],
            machine.thead);
        assert ops[..n] + [ops[n]] == ops[..n + 1];
        n := n + 1;
      }
      assert ops[..n] == ops;
      RanSoFarMeans(m0, free0, pages0, machine.mem, machine.free, pages, root, ops, machine.thead);
      r := Done(());
    }
  }
}
