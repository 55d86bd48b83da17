/**
 * One process's address space as a value: the page table in memory, and the map of owned pages that must agree
 * with it; what an operation on one space may do to the rest of the machine (src/process/process_memory.rs).
 */
module AddressSpaces {
  import opened Basics
  import opened Words
  import opened Physical
  import opened Sv39
  import opened PageTrees
  import opened PageTables
  import opened HardwareWalk

  datatype Mapping = Mapping(frame: nat, flags: Flags)

  type Maps = map<nat, Mapping>

  /** The machine as one process sees it: memory and free frames, its page table, and its own record `maps`. */
  datatype Space = Space(m: Memory, free: set<nat>, root: nat, pages: seq<nat>, maps: Maps, thead: bool)

  /** A page below 2^39 outside the kernel's gigabyte. */
  predicate UserPage(vpn: nat) { vpn < VPN_LIMIT && Idx0(vpn) != 2 }

  function EntryFor(vpn: nat, p: Mapping, thead: bool): nat {
    LeafEntry(vpn * PAGE_SIZE, AddressOf(p.frame, 0), p.flags, thead)
  }

  /** The page map that `maps` promises. */
  function Entries(maps: Maps, thead: bool): map<nat, nat> {
    map vpn | vpn in maps :: EntryFor(vpn, maps[vpn], thead)
  }

  /** The frames of the mapped pages. */
  function DataFrames(maps: Maps): set<nat> { set vpn | vpn in maps :: maps[vpn].frame }

  function TableFrames(pages: seq<nat>): set<nat> { set f | f in pages }

  function Owned(s: Space): set<nat> { TableFrames(s.pages) + DataFrames(s.maps) }

  /** Mapped frames are RAM, not free, not table nodes, and no two pages share one. */
  ghost predicate FramesOk(s: Space) {
    && (forall v :: v in s.maps ==> UserPage(v) && s.maps[v].frame in s.m && s.maps[v].frame < PPN_LIMIT)
    && (forall v :: v in s.maps ==> s.maps[v].frame !in s.free && s.maps[v].frame !in s.pages)
    && (forall v, w :: v in s.maps && w in s.maps && s.maps[v].frame == s.maps[w].frame ==> v == w)
  }

  /** The two views of the address space agree on domain, frame and permissions, and the kernel is mapped. */
  ghost predicate Agrees(s: Space) {
    && PageMap(s.m, s.root) == Entries(s.maps, s.thead)
    && BigSlots(s.m, s.root) == map[2 := KernelEntry(s.thead)]
  }

  ghost predicate SpaceOk(s: Space) {
    TableOk(s.m, s.free, s.root, s.pages) && Agrees(s) && FramesOk(s)
  }

  /** The frame rule: frames move between this space and the free set, and no byte of any other frame changes. */
  ghost predicate SpaceStep(s0: Space, s: Space) {
    && s.m.Keys == s0.m.Keys && s.thead == s0.thead
    && Owned(s) + s.free == Owned(s0) + s0.free
    && (forall f :: f in s0.m && f !in Owned(s0) && f !in s0.free ==> s.m[f] == s0.m[f])
  }

  /** The pages in `keep` are still mapped to the same frames with the same contents. */
  ghost predicate Keeps(s0: Space, s: Space, keep: set<nat>) {
    forall v :: v in keep ==>
      && v in s0.maps && v in s.maps && s.maps[v] == s0.maps[v]
      && s0.maps[v].frame in s0.m && s0.maps[v].frame in s.m
      && s.m[s0.maps[v].frame] == s0.m[s0.maps[v].frame]
  }

  lemma SpaceStepTrans(s0: Space, s1: Space, s2: Space)
    requires SpaceStep(s0, s1) && SpaceStep(s1, s2)
    ensures SpaceStep(s0, s2)
  {
  }

  lemma KeepsTrans(s0: Space, s1: Space, s2: Space, keep: set<nat>)
    requires Keeps(s0, s1, keep) && Keeps(s1, s2, keep)
    ensures Keeps(s0, s2, keep)
  {
  }

  lemma KeepsAll(s: Space)
    requires FramesOk(s)
    ensures SpaceStep(s, s) && Keeps(s, s, s.maps.Keys)
  {
  }

  /** The byte a process reads at va, by its own record of its pages. */
  function UserByte(m: Memory, maps: Maps, va: nat): (b: Option<Byte>) {
    if va / PAGE_SIZE in maps && maps[va / PAGE_SIZE].frame in m
    then Some(m[maps[va / PAGE_SIZE].frame][va % PAGE_SIZE]) else None
  }

  /** A mapped entry decodes to the frame that `maps` records, so both views translate alike. */
  lemma EntryForDecodes(vpn: nat, p: Mapping, thead: bool)
    requires p.frame < PPN_LIMIT
    ensures PageOf(EntryFor(vpn, p, thead)) == p.frame
    ensures FlagsOf(EntryFor(vpn, p, thead)) == PrepareFlags(p.flags)
  {
    hide LeafEntry;
    PageAfter(0, p.frame);
    LeafEntryDecodes(vpn * PAGE_SIZE, AddressOf(p.frame, 0), p.flags, thead);
  }

  lemma AddressSplits(f: nat, off: nat)
    requires off < PAGE_SIZE
    ensures AddressOf(f, off) / PAGE_SIZE == f && AddressOf(f, off) % PAGE_SIZE == off
  {
  }

  /** Reading through the page table and reading through `maps` see the same byte. */
  lemma TableReadsMaps(s: Space, va: nat)
    requires SpaceOk(s)
    ensures match Resolve(PageMap(s.m, s.root), va)
      case None => UserByte(s.m, s.maps, va) == None
      case Some(pa) => pa / PAGE_SIZE in s.m && UserByte(s.m, s.maps, va) == Some(ByteAt(s.m, pa))
  {
    hide EntryFor, TableOk, PageMap, BigSlots;
    var v := va / PAGE_SIZE;
    if v in s.maps {
      EntryForDecodes(v, s.maps[v], s.thead);
      AddressSplits(s.maps[v].frame, va % PAGE_SIZE);
    }
  }

  /** The other space, on the machine as it is now. */
  function Now(o: Space, s: Space): Space { o.(m := s.m, free := s.free) }

  lemma NowOwned(o: Space, s: Space)
    ensures Owned(Now(o, s)) == Owned(o)
  {
  }

  /** Two spaces map the same pages with the same permissions and the same bytes, in different frames. */
  ghost predicate SamePages(parent: Space, child: Space) {
    && child.maps.Keys == parent.maps.Keys
    && (forall v :: v in parent.maps ==>
          && child.maps[v].flags == parent.maps[v].flags
          && child.maps[v].frame in child.m && parent.maps[v].frame in parent.m
          && child.m[child.maps[v].frame] == parent.m[parent.maps[v].frame])
  }

  /** A space on a machine where its own frames hold the same bytes and are not free. */
  lemma SameFrames(other: Space, m: Memory, free: set<nat>)
    requires SpaceOk(other) && forall f :: f in Owned(other) ==>
      f in other.m && f in m && m[f] == other.m[f] && f !in free
    ensures SpaceOk(other.(m := m, free := free)) && Keeps(other, other.(m := m, free := free), other.maps.Keys)
  {
    hide Tree, PageMap, BigSlots, Entries, UserPage, Owned;
    SameOwnFrames(other, m, free);
    TableFramed(other.m, m, other.root, other.pages);
  }

  lemma SameOwnFrames(other: Space, m: Memory, free: set<nat>)
    requires forall f :: f in Owned(other) ==> f in other.m && f in m && m[f] == other.m[f] && f !in free
    ensures forall f :: f in other.pages ==> f in other.m && f in m && m[f] == other.m[f] && f !in free
    ensures forall v :: v in other.maps ==>
      var f := other.maps[v].frame; f in other.m && f in m && m[f] == other.m[f] && f !in free
  {
    hide TableFrames, DataFrames;
    InTable(other.pages);
    forall v | v in other.maps ensures other.maps[v].frame in Owned(other) { InData(other.maps, v); }
  }

  /** Whatever step one space takes, every other space on the machine keeps its table, its pages and its bytes. */
  lemma OtherSpaceKept(s0: Space, s: Space, other: Space)
    requires SpaceStep(s0, s) && SpaceOk(other) && other.m == s0.m && other.free == s0.free
    requires Owned(other) !! Owned(s0)
    ensures SpaceOk(other.(m := s.m, free := s.free))
    ensures Keeps(other, other.(m := s.m, free := s.free), other.maps.Keys)
    ensures s.free !! Owned(other) && Owned(s) !! Owned(other)
  {
    hide SpaceOk, Keeps, Owned;
    forall f | f in Owned(other)
      ensures f !in s.free && f !in s0.free && f !in Owned(s) && f in s0.m && f in s.m && s.m[f] == s0.m[f]
    {
      OwnedIsRam(other, f);
    }
    SameFrames(other, s.m, s.free);
  }

  lemma OwnedIsRam(s: Space, f: nat)
    requires SpaceOk(s) && f in Owned(s)
    ensures f in s.m && f !in s.free
  {
    hide Tree, Agrees;
    InTable(s.pages);
    if f in DataFrames(s.maps) {
      var v :| v in s.maps && s.maps[v].frame == f;
    }
  }

  // ---- map and unmap

  lemma EntriesChange(maps: Maps, vpn: nat, p: Mapping, thead: bool)
    ensures Entries(maps[vpn := p], thead) == Entries(maps, thead)[vpn := EntryFor(vpn, p, thead)]
    ensures Entries(maps - {vpn}, thead) == Entries(maps, thead) - {vpn}
  {
    hide EntryFor;
  }

  lemma DataFramesGain(maps: Maps, vpn: nat, p: Mapping)
    requires vpn !in maps
    ensures DataFrames(maps[vpn := p]) == DataFrames(maps) + {p.frame}
  {
    var maps' := maps[vpn := p];
    assert maps'[vpn].frame in DataFrames(maps');
    forall f | f in DataFrames(maps) ensures f in DataFrames(maps') {
      var v :| v in maps && maps[v].frame == f;
      assert maps'[v].frame == f;
    }
  }

  lemma DataFramesLose(maps: Maps, vpn: nat)
    requires vpn in maps
    ensures DataFrames(maps) == DataFrames(maps - {vpn}) + {maps[vpn].frame}
  {
    var rest := maps - {vpn};
    forall f | f in DataFrames(maps) ensures f in DataFrames(rest) + {maps[vpn].frame} {
      var v :| v in maps && maps[v].frame == f;
      if v != vpn { assert rest[v].frame == f; }
    }
  }

  lemma InData(maps: Maps, v: nat)
    requires v in maps
    ensures maps[v].frame in DataFrames(maps)
  {
  }

  lemma InTable(pages: seq<nat>)
    ensures forall f :: f in pages <==> f in TableFrames(pages)
  {
  }

  /** What a table step means for the sets of frames. */
  lemma TableStepFrames(s0: Space, s: Space)
    requires TableStep(s0.m, s0.free, s0.pages, s.m, s.free, s.pages, s.root)
    ensures TableFrames(s.pages) + s.free == TableFrames(s0.pages) + s0.free
    ensures s.free <= s0.free && s.m.Keys == s0.m.Keys
    ensures forall f :: f in s.pages ==> f in s0.pages || f in s0.free
    ensures forall f :: f in s0.m && f !in s0.pages && f !in s0.free ==> s.m[f] == s0.m[f]
    ensures TableOk(s.m, s.free, s.root, s.pages)
  {
    hide Tree;
    InTable(s.pages);
    InTable(s0.pages);
  }

  lemma MapFrames(s0: Space, s: Space, vpn: nat, p: Mapping)
    requires FramesOk(s0) && UserPage(vpn) && vpn !in s0.maps && s.maps == s0.maps[vpn := p]
    requires p.frame in s0.m && p.frame < PPN_LIMIT && p.frame !in s0.free && p.frame !in Owned(s0)
    requires s.free <= s0.free && s.m.Keys == s0.m.Keys
    requires forall f :: f in s.pages ==> f in s0.pages || f in s0.free
    ensures FramesOk(s)
  {
    hide UserPage, TableFrames, DataFrames;
    InTable(s0.pages);
    forall v | v in s0.maps ensures s0.maps[v].frame != p.frame { InData(s0.maps, v); }
  }

  /** A frame that belongs to nobody else may be mapped; it is then owned, and its contents and all other pages stay. */
  lemma MapSpace(s0: Space, s: Space, vpn: nat, p: Mapping)
    requires SpaceOk(s0) && UserPage(vpn) && vpn !in s0.maps
    requires p.frame in s0.m && p.frame < PPN_LIMIT && p.frame !in s0.free && p.frame !in Owned(s0)
    requires s.root == s0.root && s.thead == s0.thead && s.maps == s0.maps[vpn := p]
    requires TableStep(s0.m, s0.free, s0.pages, s.m, s.free, s.pages, s.root)
    requires PageMap(s.m, s.root) == PageMap(s0.m, s.root)[vpn := EntryFor(vpn, p, s.thead)]
    requires BigSlots(s.m, s.root) == BigSlots(s0.m, s.root)
    ensures SpaceOk(s) && Keeps(s0, s, s0.maps.Keys) && s.m[p.frame] == s0.m[p.frame]
    ensures Owned(s) + s.free == Owned(s0) + s0.free + {p.frame} && s.m.Keys == s0.m.Keys
    ensures forall f :: f in s0.m && f !in Owned(s0) && f !in s0.free ==> s.m[f] == s0.m[f]
  {
    hide TableOk, TableStep, PageMap, BigSlots, EntryFor, UserPage, Entries, DataFrames, TableFrames;
    TableStepFrames(s0, s);
    EntriesChange(s0.maps, vpn, p, s.thead);
    DataFramesGain(s0.maps, vpn, p);
    InTable(s0.pages);
    MapFrames(s0, s, vpn, p);
  }

  /** An unmapped page's frame goes back to the free set, and every other page stays. */
  lemma UnmapSpace(s0: Space, s: Space, vpn: nat)
    requires SpaceOk(s0) && vpn in s0.maps
    requires s.root == s0.root && s.thead == s0.thead && s.pages == s0.pages
    requires s.maps == s0.maps - {vpn} && s.free == s0.free + {s0.maps[vpn].frame}
    requires TableStep(s0.m, s0.free, s0.pages, s.m, s0.free, s.pages, s.root)
    requires PageMap(s.m, s.root) == PageMap(s0.m, s.root) - {vpn}
    requires BigSlots(s.m, s.root) == BigSlots(s0.m, s.root)
    ensures SpaceOk(s) && Keeps(s0, s, s.maps.Keys) && SpaceStep(s0, s)
  {
    hide TableStep, Tree, PageMap, BigSlots, EntryFor, UserPage, Entries, DataFrames, TableFrames;
    TableStepFrames(s0, s.(free := s0.free));
    EntriesChange(s0.maps, vpn, s0.maps[vpn], s.thead);
    DataFramesLose(s0.maps, vpn);
    InTable(s0.pages);
    InData(s0.maps, vpn);
  }

  /** Writing to the frame of one mapped page disturbs nothing else. */
  lemma OwnWrite(s: Space, vpn: nat, bytes: Frame)
    requires SpaceOk(s) && vpn in s.maps
    ensures s.maps[vpn].frame in s.m
    ensures var s1 := s.(m := s.m[s.maps[vpn].frame := bytes]);
      SpaceOk(s1) && SpaceStep(s, s1) && Keeps(s, s1, s.maps.Keys - {vpn}) && s1.m[s.maps[vpn].frame] == bytes
  {
    hide Tree, PageMap, BigSlots, Entries, UserPage, TableFrames, DataFrames;
    var f := s.maps[vpn].frame;
    InData(s.maps, vpn);
    TableFramed(s.m, s.m[f := bytes], s.root, s.pages);
  }

  // ---- adding pages

  /** What a new page is to be: its permissions and its bytes. */
  datatype PageSpec = PageSpec(flags: Flags, bytes: Frame)

  type Plan = map<nat, PageSpec>

  /** Cleared pages with the same permissions. */
  function ZeroPages(pages: set<nat>, flags: Flags): (plan: Plan) { map v | v in pages :: PageSpec(flags, ZeroFrame()) }

  /**
   * From s0 the space gained exactly the pages of the plan, in frames that were free; every older page stays as it was.
   */
  ghost predicate Grew(s0: Space, s: Space, plan: Plan) {
    && SpaceOk(s) && SpaceStep(s0, s) && s.root == s0.root && s.free <= s0.free
    && Keeps(s0, s, s0.maps.Keys)
    && plan.Keys !! s0.maps.Keys && s.maps.Keys == s0.maps.Keys + plan.Keys
    && (forall v :: v in plan ==>
          s.maps[v].flags == plan[v].flags && s.maps[v].frame in s.m && s.m[s.maps[v].frame] == plan[v].bytes)
  }

  lemma GrewNothing(s: Space)
    requires SpaceOk(s)
    ensures Grew(s, s, map[])
  {
    hide TableOk, Agrees;
    KeepsAll(s);
  }

  lemma GrewTrans(s0: Space, s1: Space, s2: Space, p1: Plan, p2: Plan)
    requires Grew(s0, s1, p1) && Grew(s1, s2, p2)
    ensures Grew(s0, s2, p1 + p2)
  {
    hide SpaceOk, SpaceStep;
    SpaceStepTrans(s0, s1, s2);
  }

  /** Mapping a frame that has just been taken from the free set and filled grows the space by one page. */
  lemma GrewOne(s0: Space, s1: Space, s: Space, vpn: nat, f: nat, spec: PageSpec)
    requires SpaceOk(s0) && UserPage(vpn) && vpn !in s0.maps && f in s0.free && f in s0.m && f < PPN_LIMIT
    requires s1 == s0.(m := s0.m[f := spec.bytes], free := s0.free - {f})
    requires s.root == s0.root && s.thead == s0.thead && s.maps == s0.maps[vpn := Mapping(f, spec.flags)]
    requires TableStep(s1.m, s1.free, s1.pages, s.m, s.free, s.pages, s.root)
    requires PageMap(s.m, s.root) == PageMap(s1.m, s.root)[vpn := EntryFor(vpn, Mapping(f, spec.flags), s.thead)]
    requires BigSlots(s.m, s.root) == BigSlots(s1.m, s.root)
    ensures Grew(s0, s, map[vpn := spec])
  {
    hide SpaceOk, TableStep, PageMap, BigSlots, EntryFor, UserPage, Owned;
    TakeFrame(s0, f, spec.bytes);
    MapSpace(s1, s, vpn, Mapping(f, spec.flags));
    TableStepFrames(s1, s);
  }

  /** Taking a free frame out and filling it disturbs nothing. */
  lemma TakeFrame(s: Space, f: nat, bytes: Frame)
    requires SpaceOk(s) && f in s.free && f in s.m
    ensures var s1 := s.(m := s.m[f := bytes], free := s.free - {f});
      && SpaceOk(s1) && Keeps(s, s1, s.maps.Keys) && f !in Owned(s1) && Owned(s1) == Owned(s)
      && PageMap(s1.m, s.root) == PageMap(s.m, s.root) && BigSlots(s1.m, s.root) == BigSlots(s.m, s.root)
  {
    hide Tree, PageMap, BigSlots, EntryFor, UserPage, Entries;
    TableFramed(s.m, s.m[f := bytes], s.root, s.pages);
  }
}
