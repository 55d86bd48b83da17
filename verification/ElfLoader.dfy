/** Process::load_elf: load segments scattered over pages of a process (src/process/process.rs). */
module ElfLoader {
  import opened Basics
  import opened Words
  import opened Physical
  import opened Sv39
  import opened PageTrees
  import opened PageTables
  import opened AddressSpaces
  import opened UserAccess
  import opened ProcessMemories
  import opened InitialStack

  /** A program header of type Load, as far as the loader reads it. */
  datatype Segment = Segment(vaddr: nat, offset: nat, filesz: nat, memsz: nat, flags: Flags)

  function Skew(seg: Segment): (off: nat)
    ensures off < PAGE_SIZE
  {
    seg.offset % PAGE_SIZE
  }

  /** Pages that receive file bytes. */
  function FileCount(seg: Segment): nat { (seg.filesz + Skew(seg) + PAGE_SIZE - 1) / PAGE_SIZE }

  function FirstPage(seg: Segment): nat { seg.vaddr / PAGE_SIZE }

  /** max_vpn after the copying loop: the last page with file bytes, or page zero when there is none. */
  function LastFilePage(seg: Segment): nat { if FileCount(seg) == 0 then 0 else FirstPage(seg) + FileCount(seg) - 1 }

  /** Pages added after the copied ones, up to and including the page of the segment's end. */
  function ExtraCount(seg: Segment): nat {
    var need := (seg.vaddr + seg.memsz) / PAGE_SIZE;
    if need > LastFilePage(seg) then need - LastFilePage(seg) else 0
  }

  // The slice of the segment's data that goes into its page pg, and where in the page.
  function Begin(seg: Segment, pg: nat): nat
    requires pg < FileCount(seg)
  {
    if pg == 0 then 0 else PAGE_SIZE * pg - Skew(seg)
  }

  function InPage(seg: Segment, pg: nat): nat { if pg == 0 then Skew(seg) else 0 }

  function End(seg: Segment, pg: nat): nat
    requires pg < FileCount(seg)
  {
    if pg == FileCount(seg) - 1 then seg.filesz else Begin(seg, pg) + PAGE_SIZE - InPage(seg, pg)
  }

  lemma SliceFits(seg: Segment, pg: nat)
    requires pg < FileCount(seg)
    ensures Begin(seg, pg) <= End(seg, pg) <= seg.filesz
    ensures InPage(seg, pg) + (End(seg, pg) - Begin(seg, pg)) <= PAGE_SIZE
  {
    assert PAGE_SIZE * (FileCount(seg) - 1) < seg.filesz + Skew(seg) || seg.filesz + Skew(seg) == 0;
    assert seg.filesz + Skew(seg) <= PAGE_SIZE * FileCount(seg);
  }

  ghost predicate InFile(seg: Segment, file: seq<Byte>) { seg.offset + seg.filesz <= |file| }

  /** The segment's data. */
  function Data(seg: Segment, file: seq<Byte>): (d: seq<Byte>)
    requires InFile(seg, file)
    ensures |d| == seg.filesz
  {
    file[seg.offset..seg.offset + seg.filesz]
  }

  function FileFrame(seg: Segment, file: seq<Byte>, pg: nat): Frame
    requires InFile(seg, file) && pg < FileCount(seg)
  {
    SliceFits(seg, pg);
    Overlay(InPage(seg, pg), Data(seg, file)[Begin(seg, pg)..End(seg, pg)])
  }

  /** The first n pages with file bytes. */
  function FilePages(seg: Segment, file: seq<Byte>, n: nat): (plan: Plan)
    requires InFile(seg, file) && n <= FileCount(seg)
  {
    map v | v in PageRange(FirstPage(seg), n) :: PageSpec(seg.flags, FileFrame(seg, file, v - FirstPage(seg)))
  }

  /** Everything the loader maps for a segment. */
  function SegmentPlan(seg: Segment, file: seq<Byte>): (plan: Plan)
    requires InFile(seg, file)
  {
    FilePages(seg, file, FileCount(seg)) + ZeroPages(PageRange(LastFilePage(seg) + 1, ExtraCount(seg)), seg.flags)
  }

  // ---- bytes

  lemma PosInSlice(seg: Segment, k: nat)
    requires k < PAGE_SIZE * FileCount(seg) - Skew(seg)
    ensures var pos := Skew(seg) + k; var pg, at := pos / PAGE_SIZE, pos % PAGE_SIZE;
      && pg < FileCount(seg)
      && InPage(seg, pg) <= at && at - InPage(seg, pg) + Begin(seg, pg) == k
      && (k < End(seg, pg) <==> k < seg.filesz)
  {
    var pos := Skew(seg) + k;
    var pg, at := pos / PAGE_SIZE, pos % PAGE_SIZE;
    assert pos == PAGE_SIZE * pg + at;
    assert pg < FileCount(seg);
    SliceFits(seg, pg);
    if pg == FileCount(seg) - 1 {
    } else {
      assert PAGE_SIZE * (pg + 1) - Skew(seg) == End(seg, pg);
      assert k < End(seg, pg);
    }
  }

  lemma OverlayByte(offset: nat, data: seq<Byte>, at: nat)
    requires offset + |data| <= PAGE_SIZE && offset <= at < PAGE_SIZE
    ensures Overlay(offset, data)[at] == if at - offset < |data| then data[at - offset] else 0
  {
    hide Overlay;
    var f := Overlay(offset, data);
    if at - offset < |data| { assert f[at] == f[offset..offset + |data|][at - offset]; }
  }

  /** Where byte k of the segment's data lands, page by page. */
  lemma FileByte(seg: Segment, file: seq<Byte>, k: nat)
    requires InFile(seg, file) && k < PAGE_SIZE * FileCount(seg) - Skew(seg)
    ensures var pg := (Skew(seg) + k) / PAGE_SIZE;
      && pg < FileCount(seg)
      && FileFrame(seg, file, pg)[(Skew(seg) + k) % PAGE_SIZE] == if k < seg.filesz then file[seg.offset + k] else 0
  {
    hide FileCount, Skew, Begin, End, InPage, Overlay;
    PosInSlice(seg, k);
    var pg, at := (Skew(seg) + k) / PAGE_SIZE, (Skew(seg) + k) % PAGE_SIZE;
    SliceFits(seg, pg);
    var b, e, i := Begin(seg, pg), End(seg, pg), InPage(seg, pg);
    OverlayByte(i, Data(seg, file)[b..e], at);
  }

  /** Page numbers and offsets of the image: it starts at the skew inside the segment's first page. */
  lemma ImagePage(seg: Segment, k: nat)
    ensures var a := FirstPage(seg) * PAGE_SIZE + Skew(seg) + k;
      a / PAGE_SIZE == FirstPage(seg) + (Skew(seg) + k) / PAGE_SIZE && a % PAGE_SIZE == (Skew(seg) + k) % PAGE_SIZE
  {
    PageAfter(Skew(seg) + k, FirstPage(seg));
  }

  /** The image ends inside the pages the loader maps for it. */
  lemma ImageEnds(seg: Segment, k: nat)
    requires k < seg.memsz && Skew(seg) == seg.vaddr % PAGE_SIZE && k >= PAGE_SIZE * FileCount(seg) - Skew(seg)
    requires FileCount(seg) > 0 || seg.vaddr >= PAGE_SIZE
    ensures (seg.vaddr + k) / PAGE_SIZE in PageRange(LastFilePage(seg) + 1, ExtraCount(seg))
    ensures (seg.vaddr + k) / PAGE_SIZE !in PageRange(FirstPage(seg), FileCount(seg)) || FileCount(seg) == 0
  {
    var a := seg.vaddr + k;
    assert seg.vaddr == FirstPage(seg) * PAGE_SIZE + Skew(seg);
    assert a / PAGE_SIZE <= (seg.vaddr + seg.memsz) / PAGE_SIZE;
    assert a >= PAGE_SIZE * (FirstPage(seg) + FileCount(seg));
  }

  /**
   * The image of a segment whose file offset and address agree modulo the page size: byte vaddr + k is file byte
   * offset + k, and zero from the file size up to the memory size.
   */
  lemma SegmentBytes(seg: Segment, file: seq<Byte>, k: nat)
    requires InFile(seg, file) && seg.vaddr % PAGE_SIZE == seg.offset % PAGE_SIZE && k < seg.memsz
    requires seg.filesz > 0 || seg.offset % PAGE_SIZE != 0 || seg.vaddr >= PAGE_SIZE
    ensures var a := seg.vaddr + k;
      && a / PAGE_SIZE in SegmentPlan(seg, file)
      && SegmentPlan(seg, file)[a / PAGE_SIZE].bytes[a % PAGE_SIZE] == if k < seg.filesz then file[seg.offset + k]
          else 0
  {
    hide FileCount, ExtraCount, LastFilePage, FileFrame, ZeroFrame;
    var a := seg.vaddr + k;
    assert seg.vaddr == FirstPage(seg) * PAGE_SIZE + Skew(seg);
    ImagePage(seg, k);
    FileSizeFits(seg);
    if k < PAGE_SIZE * FileCount(seg) - Skew(seg) {
      FileByte(seg, file, k);
      FilePageFirst(seg, file, (Skew(seg) + k) / PAGE_SIZE);
    } else {
      ImageEnds(seg, k);
    }
  }

  lemma FileSizeFits(seg: Segment)
    ensures seg.filesz <= PAGE_SIZE * FileCount(seg) - Skew(seg) || FileCount(seg) == 0
    ensures FileCount(seg) == 0 <==> seg.filesz == 0 && seg.offset % PAGE_SIZE == 0
  {
  }

  /** Pages with file bytes and extra pages do not overlap. */
  lemma FilePageFirst(seg: Segment, file: seq<Byte>, pg: nat)
    requires InFile(seg, file) && pg < FileCount(seg)
    ensures var v := FirstPage(seg) + pg;
      v in SegmentPlan(seg, file) && SegmentPlan(seg, file)[v] == PageSpec(seg.flags, FileFrame(seg, file, pg))
  {
    hide FileFrame, ZeroFrame;
    var v := FirstPage(seg) + pg;
    assert v in PageRange(FirstPage(seg), FileCount(seg));
    assert v !in PageRange(LastFilePage(seg) + 1, ExtraCount(seg));
  }

  // ---- one segment

  function SegmentPages(seg: Segment): set<nat> {
    PageRange(FirstPage(seg), FileCount(seg)) + PageRange(LastFilePage(seg) + 1, ExtraCount(seg))
  }

  /**
   * The loader maps exactly the pages from that of the segment's start to that of its end if and only if the segment
   * has file bytes, or its offset is not a multiple of the page size, or it starts in page one: a segment without file
   * bytes gets every page from page one on.
   */
  lemma SegmentPagesIff(seg: Segment)
    requires seg.vaddr % PAGE_SIZE == seg.offset % PAGE_SIZE && seg.filesz <= seg.memsz
    ensures
      (forall v: nat ::
         v in SegmentPages(seg) <==> seg.vaddr / PAGE_SIZE <= v <= (seg.vaddr + seg.memsz) / PAGE_SIZE) <==>
      seg.filesz > 0 || seg.offset % PAGE_SIZE != 0 || seg.vaddr / PAGE_SIZE == 1
  {
    hide PageRange;
    var first, last := seg.vaddr / PAGE_SIZE, (seg.vaddr + seg.memsz) / PAGE_SIZE;
    forall v: nat ensures v in SegmentPages(seg) <==> InSegment(seg, v) { InSegmentPages(seg, v); }
    assert FileCount(seg) > 0 <==> seg.filesz > 0 || seg.offset % PAGE_SIZE != 0;
    if FileCount(seg) > 0 {
      LastFilePageFits(seg);
    } else if first != 1 {
      assert InSegment(seg, 1) <==> 1 <= last;
      assert !InSegment(seg, 0);
    }
  }

  predicate InSegment(seg: Segment, v: nat) {
    || FirstPage(seg) <= v < FirstPage(seg) + FileCount(seg)
    || LastFilePage(seg) < v <= (seg.vaddr + seg.memsz) / PAGE_SIZE
  }

  lemma InSegmentPages(seg: Segment, v: nat)
    ensures v in SegmentPages(seg) <==> InSegment(seg, v)
  {
    hide FileCount, LastFilePage, FirstPage;
  }

  lemma LastFilePageFits(seg: Segment)
    requires seg.vaddr % PAGE_SIZE == seg.offset % PAGE_SIZE && seg.filesz <= seg.memsz && FileCount(seg) > 0
    ensures FirstPage(seg) <= LastFilePage(seg) <= (seg.vaddr + seg.memsz) / PAGE_SIZE
  {
    assert (FileCount(seg) - 1) * PAGE_SIZE < seg.filesz + Skew(seg);
    assert seg.vaddr == FirstPage(seg) * PAGE_SIZE + Skew(seg);
  }

  /** A segment's pages all have its permissions. */
  lemma SegmentFlags(seg: Segment, file: seq<Byte>, v: nat)
    requires InFile(seg, file) && v in SegmentPlan(seg, file)
    ensures SegmentPlan(seg, file)[v].flags == seg.flags
  {
    hide FileFrame, ZeroFrame;
  }

  /** How many pages that is. */
  function SegmentCount(seg: Segment): nat { FileCount(seg) + ExtraCount(seg) }

  function ProgramCount(segs: seq<Segment>): nat {
    if segs == [] then 0 else ProgramCount(segs[..|segs| - 1]) + SegmentCount(segs[|segs| - 1])
  }

  lemma {:induction false} ProgramCountGrows(segs: seq<Segment>, n: nat)
    requires n < |segs|
    ensures ProgramCount(segs[..n + 1]) == ProgramCount(segs[..n]) + SegmentCount(segs[n]) <= ProgramCount(segs)
    decreases |segs|
  {
    hide SegmentCount;
    assert segs[..n + 1][..n] == segs[..n];
    if n + 1 < |segs| {
      var t := segs[..|segs| - 1];
      ProgramCountGrows(t, n);
      assert t[..n + 1] == segs[..n + 1] && t[..n] == segs[..n];
    } else {
      assert segs[..n + 1] == segs;
    }
  }

  lemma SegmentPlanKeys(seg: Segment, file: seq<Byte>)
    requires InFile(seg, file)
    ensures SegmentPlan(seg, file).Keys == SegmentPages(seg)
  {
    hide FileFrame, ZeroFrame;
  }

  lemma FilePagesGrow(seg: Segment, file: seq<Byte>, n: nat)
    requires InFile(seg, file) && n < FileCount(seg)
    ensures var v := FirstPage(seg) + n;
      && FilePages(seg, file, n).Keys == PageRange(FirstPage(seg), n) && v !in PageRange(FirstPage(seg), n)
      && FilePages(seg, file, n) + map[v := PageSpec(seg.flags, FileFrame(seg, file, n))] == FilePages(seg, file, n + 1)
      && (seg.vaddr + PAGE_SIZE * n) / PAGE_SIZE == v
  {
    hide FileFrame, FileCount;
    PageRangeGrows(FirstPage(seg), n);
    PageAfter(seg.vaddr, n);
  }

  lemma NoFilePages(seg: Segment, file: seq<Byte>)
    requires InFile(seg, file)
    ensures FilePages(seg, file, 0) == map[]
  {
    hide FileFrame;
    PageRangeGrows(FirstPage(seg), 0);
  }

  /** The copying loop over the pages of a segment. */
  method CopySegment(pm: ProcessMemory, seg: Segment, file: seq<Byte>) returns (r: Outcome<()>)
    requires pm.Valid() && InFile(seg, file) && forall v :: v in PageRange(FirstPage(seg), FileCount(seg)) ==>
      UserPage(v)
    modifies pm`maps, pm.table, pm.machine
    ensures r.Panicked? ==> r.why in {AlreadyMapped, OutOfFrames}
    ensures r == Panicked(AlreadyMapped) ==> !(PageRange(FirstPage(seg), FileCount(seg)) !! old(pm.maps).Keys)
    ensures r == Panicked(OutOfFrames) ==> |old(pm.machine.free)| < 3 * FileCount(seg)
    ensures r.Done? ==> pm.Valid() && Grew(old(pm.View()), pm.View(), FilePages(seg, file, FileCount(seg)))
    ensures r.Done? ==> |old(pm.machine.free)| <= |pm.machine.free| + 3 * FileCount(seg)
  {
    hide SpaceOk, Grew, FilePages, FileCount, PageRange, UserPage, Overlay, FirstPage, InPage, Skew, Adding;
    ghost var s0 := pm.View();
    GrewNothing(s0);
    NoFilePages(seg, file);
    var pg := 0;
    while pg < FileCount(seg)
      invariant 0 <= pg <= FileCount(seg) && pm.Valid() && |s0.free| <= |pm.machine.free| + 3 * pg
      invariant Grew(s0, pm.View(), FilePages(seg, file, pg))
    {
      ghost var s1 := pm.View();
      SliceFits(seg, pg);
      FilePagesGrow(seg, file, pg);
      InPageRange(FirstPage(seg), FileCount(seg), pg);
      GrewOk(s0, s1, FilePages(seg, file, pg));
      var begin, end := Begin(seg, pg), End(seg, pg);
      AddingFails(s1, FirstPage(seg) + pg);
      r := pm.AddPage((seg.vaddr + PAGE_SIZE * pg) / PAGE_SIZE, seg.flags, InPage(seg, pg),
          Data(seg, file)[begin..end]);
      if r.Panicked? {
        return;
      }
      GrewTrans(s0, s1, pm.View(), FilePages(seg, file, pg),
          map[FirstPage(seg) + pg := PageSpec(seg.flags, FileFrame(seg, file, pg))]);
      pg := pg + 1;
    }
    r := Done(());
  }

  /** One turn of load_elf: slice the file, copy its pages, and add cleared pages up to the segment's end. */
  method LoadSegment(pm: ProcessMemory, seg: Segment, file: seq<Byte>) returns (r: Outcome<()>)
    requires pm.Valid() && forall v :: v in SegmentPages(seg) ==> UserPage(v)
    modifies pm`maps, pm.table, pm.machine
    ensures r == Panicked(BadIndex) <==> !InFile(seg, file)
    ensures r.Panicked? ==> r.why in {BadIndex, AlreadyMapped, OutOfFrames}
    ensures r == Panicked(AlreadyMapped) ==> !(SegmentPages(seg) !! old(pm.maps).Keys)
    ensures r == Panicked(OutOfFrames) ==> |old(pm.machine.free)| < 3 * SegmentCount(seg)
    ensures r.Done? ==> pm.Valid() && Grew(old(pm.View()), pm.View(), SegmentPlan(seg, file))
    ensures r.Done? ==> |old(pm.machine.free)| <= |pm.machine.free| + 3 * SegmentCount(seg)
  {
    hide SpaceOk, Grew, FilePages, FileCount, PageRange, UserPage, FirstPage, ZeroPages, LastFilePage, ExtraCount;
    if seg.offset + seg.filesz > |file| {
      return Panicked(BadIndex);
    }
    ghost var s0 := pm.View();
    r := CopySegment(pm, seg, file);
    if r.Panicked? {
      return;
    }
    ghost var s1 := pm.View();
    GrewOk(s0, s1, FilePages(seg, file, FileCount(seg)));
    SegmentParts(seg, file);
    r := pm.AddZeroPages(LastFilePage(seg) + 1, ExtraCount(seg), seg.flags);
    if r.Panicked? {
      return;
    }
    GrewTrans(s0, s1, pm.View(), FilePages(seg, file, FileCount(seg)),
        ZeroPages(PageRange(LastFilePage(seg) + 1, ExtraCount(seg)), seg.flags));
  }

  lemma SegmentParts(seg: Segment, file: seq<Byte>)
    requires InFile(seg, file)
    ensures FilePages(seg, file, FileCount(seg)).Keys == PageRange(FirstPage(seg), FileCount(seg))
    ensures PageRange(FirstPage(seg), FileCount(seg)) !! PageRange(LastFilePage(seg) + 1, ExtraCount(seg))
      || FileCount(seg) == 0
    ensures FileCount(seg) == 0 ==> PageRange(FirstPage(seg), FileCount(seg)) == {}
  {
    hide FileFrame;
    PageRangeGrows(FirstPage(seg), 0);
  }

  // ---- the whole program

  ghost predicate AllInFile(segs: seq<Segment>, file: seq<Byte>) {
    forall i :: 0 <= i < |segs| ==> InFile(segs[i], file)
  }

  /** No two segments, counting every page the loader maps for them, share a page. */
  ghost predicate PageDisjoint(segs: seq<Segment>) {
    forall i, j :: 0 <= i < j < |segs| ==> SegmentPages(segs[i]) !! SegmentPages(segs[j])
  }

  ghost predicate ClearOf(segs: seq<Segment>, keys: set<nat>) {
    forall i :: 0 <= i < |segs| ==> SegmentPages(segs[i]) !! keys
  }

  function ProgramPlan(segs: seq<Segment>, file: seq<Byte>): (plan: Plan)
    requires forall i :: 0 <= i < |segs| ==> InFile(segs[i], file)
  {
    if segs == [] then map[] else
    ProgramPlan(segs[..|segs| - 1], file) + SegmentPlan(segs[|segs| - 1], file)
  }

  lemma {:induction false} ProgramPlanKeys(segs: seq<Segment>, file: seq<Byte>)
    requires AllInFile(segs, file)
    ensures forall v :: v in ProgramPlan(segs, file) <==> exists i :: 0 <= i < |segs| && v in SegmentPages(segs[i])
  {
    hide SegmentPages, SegmentPlan;
    if segs != [] {
      var n := |segs| - 1;
      ProgramPlanKeys(segs[..n], file);
      SegmentPlanKeys(segs[n], file);
      forall v ensures v in ProgramPlan(segs, file) <==> exists i :: 0 <= i < |segs| && v in SegmentPages(segs[i]) {
        if i :| 0 <= i < |segs| && v in SegmentPages(segs[i]) {
          if i < n { assert segs[..n][i] == segs[i]; }
        }
        if v in ProgramPlan(segs[..n], file) {
          var i :| 0 <= i < n && v in SegmentPages(segs[..n][i]);
          assert segs[..n][i] == segs[i];
        }
      }
    }
  }

  /** In the plan for page-disjoint segments every segment's pages are as that segment alone asks. */
  lemma {:induction false} ProgramPlanAt(segs: seq<Segment>, file: seq<Byte>, i: nat, v: nat)
    requires AllInFile(segs, file) && PageDisjoint(segs) && i < |segs| && v in SegmentPlan(segs[i], file)
    ensures v in ProgramPlan(segs, file) && ProgramPlan(segs, file)[v] == SegmentPlan(segs[i], file)[v]
  {
    hide SegmentPages, SegmentPlan;
    var n := |segs| - 1;
    if i < n {
      ProgramPlanAt(segs[..n], file, i, v);
      SegmentPlanKeys(segs[n], file);
      SegmentPlanKeys(segs[i], file);
    }
  }

  /** All load segments, in order. It stops exactly at a bad slice, at a page already taken, or without frames. */
  method LoadSegments(pm: ProcessMemory, segs: seq<Segment>, file: seq<Byte>) returns (r: Outcome<()>)
    requires pm.Valid() && forall i, v :: 0 <= i < |segs| && v in SegmentPages(segs[i]) ==> UserPage(v)
    modifies pm`maps, pm.table, pm.machine
    ensures r.Panicked? ==> r.why in {BadIndex, AlreadyMapped, OutOfFrames}
    ensures r == Panicked(BadIndex) ==> !AllInFile(segs, file)
    ensures r == Panicked(AlreadyMapped) ==> !PageDisjoint(segs) || !ClearOf(segs, old(pm.maps).Keys)
    ensures r == Panicked(OutOfFrames) ==> |old(pm.machine.free)| < 3 * ProgramCount(segs)
    ensures r.Done? ==> |old(pm.machine.free)| <= |pm.machine.free| + 3 * ProgramCount(segs)
    ensures r.Done? ==>
      && pm.Valid() && AllInFile(segs, file) && PageDisjoint(segs) && ClearOf(segs, old(pm.maps).Keys)
      && AllInFile(segs, file) && Grew(old(pm.View()), pm.View(), ProgramPlan(segs, file))
  {
    hide SpaceOk, Grew, SegmentPages, UserPage, SegmentPlan, ProgramPlan, SegmentCount;
    ghost var s0 := pm.View();
    GrewNothing(s0);
    NothingPlanned(file);
    var n := 0;
    assert segs[..0] == [];
    while n < |segs|
      invariant 0 <= n <= |segs| && pm.Valid() && AllInFile(segs[..n], file) && PageDisjoint(segs[..n])
        && ClearOf(segs[..n], s0.maps.Keys)
      invariant Grew(s0, pm.View(), ProgramPlan(segs[..n], file))
        && |s0.free| <= |pm.machine.free| + 3 * ProgramCount(segs[..n])
    {
      ghost var s1 := pm.View();
      ProgramCountGrows(segs, n);
      GrewOk(s0, s1, ProgramPlan(segs[..n], file));
      ProgramPlanKeys(segs[..n], file);
      r := LoadSegment(pm, segs[n], file);
      if r.Panicked? {
        if r.why == AlreadyMapped { Clash(segs, file, n, s0.maps.Keys, s1.maps.Keys); }
        return;
      }
      GrewOk(s1, pm.View(), SegmentPlan(segs[n], file));
      SegmentPlanKeys(segs[n], file);
      GrewTrans(s0, s1, pm.View(), ProgramPlan(segs[..n], file), SegmentPlan(segs[n], file));
      OneMore(segs, file, n, s0.maps.Keys, s1.maps.Keys);
      n := n + 1;
    }
    assert segs[..n] == segs;
    r := Done(());
  }

  lemma NothingPlanned(file: seq<Byte>)
    ensures ProgramPlan([], file) == map[]
  {
  }

  /** A page already taken is one of the old space or of an earlier segment. */
  lemma Clash(segs: seq<Segment>, file: seq<Byte>, n: nat, keys0: set<nat>, keys1: set<nat>)
    requires n < |segs| && AllInFile(segs[..n], file) && !(SegmentPages(segs[n]) !! keys1)
    requires keys1 == keys0 + ProgramPlan(segs[..n], file).Keys
    ensures !PageDisjoint(segs) || !ClearOf(segs, keys0)
  {
    hide SegmentPages, SegmentPlan;
    var v :| v in SegmentPages(segs[n]) && v in keys1;
    ProgramPlanKeys(segs[..n], file);
    if v !in keys0 {
      var i :| 0 <= i < n && v in SegmentPages(segs[..n][i]);
      assert segs[..n][i] == segs[i];
      assert !(SegmentPages(segs[i]) !! SegmentPages(segs[n]));
    } else {
      assert !(SegmentPages(segs[n]) !! keys0);
    }
  }

  lemma ApartFromEarlier(segs: seq<Segment>, file: seq<Byte>, n: nat, i: nat, keys1: set<nat>)
    requires i < n < |segs| && AllInFile(segs[..n], file)
    requires SegmentPages(segs[n]) !! keys1 && ProgramPlan(segs[..n], file).Keys <= keys1
    ensures SegmentPages(segs[i]) !! SegmentPages(segs[n])
  {
    hide SegmentPages, SegmentPlan, ProgramPlan;
    ProgramPlanKeys(segs[..n], file);
    forall v | v in SegmentPages(segs[i]) ensures v !in SegmentPages(segs[n]) {
      assert v in SegmentPages(segs[..n][i]);
    }
  }

  lemma OneMore(segs: seq<Segment>, file: seq<Byte>, n: nat, keys0: set<nat>, keys1: set<nat>)
    requires n < |segs| && AllInFile(segs[..n], file) && InFile(segs[n], file) && PageDisjoint(segs[..n])
      && ClearOf(segs[..n], keys0)
    requires SegmentPages(segs[n]) !! keys1 && keys1 == keys0 + ProgramPlan(segs[..n], file).Keys
    ensures AllInFile(segs[..n + 1], file) && PageDisjoint(segs[..n + 1]) && ClearOf(segs[..n + 1], keys0)
    ensures ProgramPlan(segs[..n + 1], file) == ProgramPlan(segs[..n], file) + SegmentPlan(segs[n], file)
  {
    hide SegmentPages, SegmentPlan;
    assert segs[..n + 1][..n] == segs[..n];
    var t := segs[..n + 1];
    forall i | 0 <= i < n ensures t[i] == segs[..n][i] { }
    forall i, j | 0 <= i < j < |t| ensures SegmentPages(t[i]) !! SegmentPages(t[j]) {
      if j == n { ApartFromEarlier(segs, file, n, i, keys1); }
      else { assert SegmentPages(segs[..n][i]) !! SegmentPages(segs[..n][j]); }
    }
  }

  // ---- what the program then sees

  /** get_mapped_last_page: the highest mapped page below the stack, or page zero. */
  method MappedLastPage(pm: ProcessMemory) returns (last: nat)
    ensures forall v :: v in pm.maps && v < pm.stackTop / PAGE_SIZE ==> v <= last
    ensures last == 0 || (last in pm.maps && last < pm.stackTop / PAGE_SIZE)
  {
    last := 0;
    var todo := pm.maps.Keys;
    while todo != {}
      invariant todo <= pm.maps.Keys
      invariant forall v :: v in pm.maps && v !in todo && v < pm.stackTop / PAGE_SIZE ==> v <= last
      invariant last == 0 || (last in pm.maps && last < pm.stackTop / PAGE_SIZE)
    {
      var v :| v in todo;
      if v < pm.stackTop / PAGE_SIZE && v > last {
        last := v;
      }
      todo := todo - {v};
    }
  }

  /** A load segment reads as its file bytes followed by zeros. */
  ghost predicate SegmentLoaded(m: Memory, maps: Maps, seg: Segment, file: seq<Byte>)
    requires InFile(seg, file)
  {
    forall a :: seg.vaddr <= a < seg.vaddr + seg.memsz ==>
      UserByte(m, maps, a) == Some(if a - seg.vaddr < seg.filesz then file[seg.offset + (a - seg.vaddr)] else 0)
  }

  /** The program's image is in place. */
  ghost predicate ImageLoaded(m: Memory, maps: Maps, segs: seq<Segment>, file: seq<Byte>) {
    AllInFile(segs, file) && forall i :: 0 <= i < |segs| && Loadable(segs[i]) ==> SegmentLoaded(m, maps, segs[i], file)
  }

  /** Offset and address agree modulo the page size, and the segment has file pages or lies above page zero. */
  ghost predicate Loadable(seg: Segment) {
    && seg.vaddr % PAGE_SIZE == seg.offset % PAGE_SIZE
    && (seg.filesz > 0 || seg.offset % PAGE_SIZE != 0 || seg.vaddr >= PAGE_SIZE)
  }

  lemma GrewLoadsImage(s0: Space, s: Space, segs: seq<Segment>, file: seq<Byte>)
    requires AllInFile(segs, file) && PageDisjoint(segs) && Grew(s0, s, ProgramPlan(segs, file))
    ensures ImageLoaded(s.m, s.maps, segs, file)
  {
    hide SpaceOk, SpaceStep, Keeps, SegmentPlan, ProgramPlan, SegmentPages, FileCount;
    forall i, a | 0 <= i < |segs| && Loadable(segs[i]) && segs[i].vaddr <= a < segs[i].vaddr + segs[i].memsz
      ensures UserByte(s.m, s.maps, a) ==
          Some(if a - segs[i].vaddr < segs[i].filesz then file[segs[i].offset + (a - segs[i].vaddr)] else 0)
    {
      SegmentBytes(segs[i], file, a - segs[i].vaddr);
      ProgramPlanAt(segs, file, i, a / PAGE_SIZE);
    }
  }

  lemma KeptImage(s0: Space, s: Space, segs: seq<Segment>, file: seq<Byte>)
    requires ImageLoaded(s0.m, s0.maps, segs, file) && Keeps(s0, s, s0.maps.Keys)
    ensures ImageLoaded(s.m, s.maps, segs, file)
  {
    hide Loadable;
    forall i, a | 0 <= i < |segs| && Loadable(segs[i]) && segs[i].vaddr <= a < segs[i].vaddr + segs[i].memsz
      ensures UserByte(s.m, s.maps, a) == UserByte(s0.m, s0.maps, a)
    {
      assert SegmentLoaded(s0.m, s0.maps, segs[i], file);
      assert UserByte(s0.m, s0.maps, a).Some?;
    }
  }

  /** Loading into an empty space: the image, and which pages are now mapped. */
  lemma ProgramReady(s0: Space, s: Space, segs: seq<Segment>, file: seq<Byte>)
    requires AllInFile(segs, file) && PageDisjoint(segs) && Grew(s0, s, ProgramPlan(segs, file)) && s0.maps == map[]
    ensures ImageLoaded(s.m, s.maps, segs, file)
    ensures forall v :: v in s.maps <==> exists i :: 0 <= i < |segs| && v in SegmentPages(segs[i])
  {
    hide SegmentPlan, ProgramPlan, SegmentPages, Grew, ImageLoaded, PageDisjoint;
    GrewLoadsImage(s0, s, segs, file);
    GrewOk(s0, s, ProgramPlan(segs, file));
    ProgramPlanKeys(segs, file);
  }

  /**
   * load_elf into an empty space: the image is loaded, the break starts at the first page above it and below the stack,
   * and one page of stack is ready. The result is the initial stack pointer.
   */
  method LoadElf(pm: ProcessMemory, segs: seq<Segment>, file: seq<Byte>) returns (r: Outcome<nat>)
    requires pm.Valid() && pm.maps == map[] && pm.stackTop == pm.stackBase == USER_STACK_BASE
    requires forall i, v :: 0 <= i < |segs| && v in SegmentPages(segs[i]) ==> UserPage(v)
    modifies pm`maps, pm`progEnd, pm`brk, pm`minBrk, pm`stackTop, pm.table, pm.machine
    ensures r.Panicked? ==> r.why in {BadIndex, AlreadyMapped, OutOfFrames}
    ensures r == Panicked(BadIndex) ==> !AllInFile(segs, file)
    ensures r == Panicked(AlreadyMapped) ==> !PageDisjoint(segs) || !ClearOf(segs, {0x7FFFF})
    ensures r == Panicked(OutOfFrames) ==> |old(pm.machine.free)| < 3 * (ProgramCount(segs) + 1)
    ensures r.Done? ==> PageDisjoint(segs) && ClearOf(segs, {0x7FFFF})
    ensures r.Done? ==>
      && r.value == USER_STACK_BASE && pm.stackTop == USER_STACK_BASE - PAGE_SIZE && pm.Valid()
      && AllInFile(segs, file) && Grew(old(pm.View()), pm.View(), ProgramPlan(segs, file) + ZeroPages({0x7FFFF}, URW))
      && ImageLoaded(pm.machine.mem, pm.maps, segs, file)
      && 0x7FFFF in pm.maps && UserByte(pm.machine.mem, pm.maps, USER_STACK_BASE - 1) == Some(0)
      && ProgramInPlace(pm.View(), segs, file) && ProgramUsable(pm.View(), segs)
      && pm.brk == pm.minBrk == pm.progEnd && BreakAt(pm.maps.Keys, pm.brk)
  {
    hide BreakAt, ProgramInPlace, ProgramUsable, SpaceOk, Grew, SegmentPages, UserPage, SegmentPlan, ProgramPlan,
         ImageLoaded, PageDisjoint, ZeroPages, Keeps, Adding, SegmentCount, ClearOf, ProgramCount;
    ghost var s0 := pm.View();
    var loaded := LoadSegments(pm, segs, file);
    if loaded.Panicked? {
      assert s0.maps.Keys == {};
      EmptyIsClear(segs);
      return Panicked(loaded.why);
    }
    ghost var s1 := pm.View();
    ProgramReady(s0, s1, segs, file);
    var last := MappedLastPage(pm);
    pm.progEnd := (last + 1) * PAGE_SIZE;
    pm.brk := pm.progEnd;
    pm.minBrk := pm.progEnd;
    BreakAbove(s1.maps.Keys, last);
    StackPageFree(segs, s1.maps.Keys);
    var stack := pm.IncreaseUserStack();
    if stack.Panicked? {
      return Panicked(stack.why);
    }
    LoadedSpace(s0, s1, pm.View(), segs, file);
    PlacedAlone(s0, pm.View(), segs, file);
    PlacedIsUsable(pm.View(), segs, file);
    r := Done(pm.stackBase);
  }

  lemma BreakAbove(keys: set<nat>, last: nat)
    requires (forall v :: v in keys && v < 0x80000 ==> v <= last) && (last == 0 || (last in keys && last < 0x80000))
    ensures 0x7FFFF !in keys ==> BreakAt(keys + {0x7FFFF}, (last + 1) * PAGE_SIZE)
  {
    PageAfter(0, last + 1);
  }

  /** The break is the least page boundary, from the second page on, with every page below the stack's under it. */
  ghost predicate BreakAt(keys: set<nat>, brk: nat) {
    && brk % PAGE_SIZE == 0 && PAGE_SIZE <= brk <= 0x7FFFF * PAGE_SIZE
    && (forall v :: v in keys && v < 0x7FFFF ==> v * PAGE_SIZE < brk)
    && (brk == PAGE_SIZE || brk / PAGE_SIZE - 1 in keys)
  }

  lemma BreakIsLeast(keys: set<nat>, brk: nat, other: nat)
    requires BreakAt(keys, brk) && other % PAGE_SIZE == 0 && PAGE_SIZE <= other
    requires forall v :: v in keys && v < 0x7FFFF ==> v * PAGE_SIZE < other
    ensures brk <= other
  {
    if brk != PAGE_SIZE {
      assert (brk / PAGE_SIZE - 1) * PAGE_SIZE < other;
    }
  }

  lemma LoadedSpace(s0: Space, s1: Space, s: Space, segs: seq<Segment>, file: seq<Byte>)
    requires AllInFile(segs, file) && Grew(s0, s1, ProgramPlan(segs, file)) && ImageLoaded(s1.m, s1.maps, segs, file)
    requires Grew(s1, s, ZeroPages({0x7FFFF}, URW))
    ensures Grew(s0, s, ProgramPlan(segs, file) + ZeroPages({0x7FFFF}, URW)) && ImageLoaded(s.m, s.maps, segs, file)
    ensures s.maps.Keys == s1.maps.Keys + {0x7FFFF} && 0x7FFFF !in s1.maps
    ensures UserByte(s.m, s.maps, USER_STACK_BASE - 1) == Some(0)
  {
    hide Grew, ProgramPlan, ImageLoaded, ZeroPages, Keeps, UserByte;
    StackPageReady(s1, s);
    GrewTrans(s0, s1, s, ProgramPlan(segs, file), ZeroPages({0x7FFFF}, URW));
    KeptImage(s1, s, segs, file);
  }

  // ---- execve

  /** The user's view of the stack from userSp on lets a reader recover the arguments. */
  ghost predicate StackReady(m: Memory, maps: Maps, userSp: nat, argv: seq<Str>, env: seq<Str>, aux: seq<Aux>) {
    && userSp <= USER_STACK_BASE && (forall a: nat :: userSp <= a < USER_STACK_BASE ==> UserByte(m, maps, a).Some?)
    && Recovers(seq<Byte>(USER_STACK_BASE - userSp,
        i requires 0 <= i < USER_STACK_BASE - userSp => UserByte(m, maps, userSp + i).value),
                USER_STACK_BASE, argv, env, aux)
  }

  /** Where the kernel finds the stack page: the table leads to the frame that `maps` records. */
  lemma StackFrame(s: Space)
    requires SpaceOk(s) && 0x7FFFF in s.maps
    ensures MappableAt(s.m, s.root, USER_STACK_BASE - PAGE_SIZE)
    ensures Resolve(PageMap(s.m, s.root), Low39(USER_STACK_BASE - PAGE_SIZE)) ==
        Some(AddressOf(s.maps[0x7FFFF].frame, 0))
    ensures s.maps[0x7FFFF].frame in s.m
  {
    hide Tree, PageMap, BigSlots, EntryFor, AddressOf, PageOf, Mappable;
    var va := USER_STACK_BASE - PAGE_SIZE;
    assert va / PAGE_SIZE == 0x7FFFF && va % PAGE_SIZE == 0;
    KeySmall(0x7FFFF);
    Low39Page(va);
    SpaceMappable(s, 0x7FFFF);
    EntryForDecodes(0x7FFFF, s.maps[0x7FFFF], s.thead);
  }

  /** The stack in its frame is the stack the user sees. */
  lemma StackInView(m: Memory, maps: Maps, sp: nat, argv: seq<Str>, env: seq<Str>, aux: seq<Aux>)
    requires 0x7FFFF in maps && maps[0x7FFFF].frame in m
    requires var hi := AddressOf(maps[0x7FFFF].frame, PAGE_SIZE);
      hi - PAGE_SIZE <= sp <= hi && InRam(m, sp, hi) && Recovers(Region(m, sp, hi), USER_STACK_BASE, argv, env, aux)
    ensures StackReady(m, maps, USER_STACK_BASE - (AddressOf(maps[0x7FFFF].frame, PAGE_SIZE) - sp), argv, env, aux)
  {
    hide Recovers;
    var f := maps[0x7FFFF].frame;
    var hi := AddressOf(f, PAGE_SIZE);
    var userSp := USER_STACK_BASE - (hi - sp);
    forall a: nat | userSp <= a < USER_STACK_BASE ensures UserByte(m, maps, a) == Some(ByteAt(m, sp + (a - userSp))) {
      var o := a - (USER_STACK_BASE - PAGE_SIZE);
      assert 0 <= o < PAGE_SIZE && a == 0x7FFFF * PAGE_SIZE + o && sp + (a - userSp) == f * PAGE_SIZE + o;
      assert a / PAGE_SIZE == 0x7FFFF && a % PAGE_SIZE == o;
      AddressSplits(f, o);
    }
    assert seq<Byte>(USER_STACK_BASE - userSp,
        i requires 0 <= i < USER_STACK_BASE - userSp => UserByte(m, maps, userSp + i).value) == Region(m, sp, hi);
  }

  /** A write to the stack page leaves the image alone. */
  lemma ImageBesideStack(s0: Space, s: Space, segs: seq<Segment>, file: seq<Byte>)
    requires ImageLoaded(s0.m, s0.maps, segs, file) && ClearOf(segs, {0x7FFFF})
      && Keeps(s0, s, s0.maps.Keys - {0x7FFFF})
    ensures ImageLoaded(s.m, s.maps, segs, file)
  {
    hide Loadable, SegmentPages;
    forall i, a | 0 <= i < |segs| && Loadable(segs[i]) && segs[i].vaddr <= a < segs[i].vaddr + segs[i].memsz
      ensures UserByte(s.m, s.maps, a) == UserByte(s0.m, s0.maps, a)
    {
      assert SegmentLoaded(s0.m, s0.maps, segs[i], file);
      assert UserByte(s0.m, s0.maps, a).Some?;
      ImageInPages(segs[i], file, a);
      assert a / PAGE_SIZE != 0x7FFFF;
    }
  }

  lemma ImageInPages(seg: Segment, file: seq<Byte>, a: nat)
    requires InFile(seg, file) && Loadable(seg) && seg.vaddr <= a < seg.vaddr + seg.memsz
    ensures a / PAGE_SIZE in SegmentPages(seg)
  {
    hide SegmentPlan, SegmentPages;
    SegmentBytes(seg, file, a - seg.vaddr);
    SegmentPlanKeys(seg, file);
  }

  /** The frame of the stack page was written to, and no other. */
  lemma StackWritten(s0: Space, s: Space)
    requires SpaceOk(s0) && 0x7FFFF in s0.maps
    requires s == s0.(m := s.m) && s.m.Keys == s0.m.Keys
    requires forall g :: g in s.m && g != s0.maps[0x7FFFF].frame ==> s.m[g] == s0.m[g]
    ensures SpaceOk(s) && SpaceStep(s0, s) && Keeps(s0, s, s0.maps.Keys - {0x7FFFF})
  {
    hide SpaceStep, Tree, PageMap, BigSlots, Entries, UserPage;
    var f := s0.maps[0x7FFFF].frame;
    assert s.m == s0.m[f := s.m[f]];
    OwnWrite(s0, 0x7FFFF, s.m[f]);
  }

  /**
   * The part of execve that builds the initial stack in the stack page. The arguments take at most a page; BuildStack
   * says what happens to other frames if they do not.
   */
  method ExecStack(pm: ProcessMemory, argv: seq<Str>, env: seq<Str>, aux: seq<Aux>) returns (userSp: nat)
    requires pm.Valid() && 0x7FFFF in pm.maps && StackDepth(argv, env, |aux|) <= PAGE_SIZE
    modifies pm.machine`mem
    ensures pm.Valid() && SpaceStep(old(pm.View()), pm.View())
      && Keeps(old(pm.View()), pm.View(), pm.maps.Keys - {0x7FFFF})
    ensures userSp == USER_STACK_BASE - StackDepth(argv, env, |aux|)
    ensures ArgsOk(argv, env, aux) ==> StackReady(pm.machine.mem, pm.maps, userSp, argv, env, aux)
  {
    hide SpaceOk, SpaceStep, Keeps, PageMap, StackReady, Recovers, ArgsOk, StackDepth, OnlyPushed, Region, ReadWord,
         Resolve, Low39, Mappable, TableOk;
    ghost var s0 := pm.View();
    StackFrame(s0);
    SpaceMappable(s0, 0x7FFFF);
    var pa := pm.table.Translate(USER_STACK_BASE - PAGE_SIZE);
    var bottom := pa.value + PAGE_SIZE;
    ghost var f := pm.maps[0x7FFFF].frame;
    PageAfter(PAGE_SIZE, f);
    FrameInRam(pm.machine.mem, f, bottom - StackDepth(argv, env, |aux|), bottom);
    var sp, sp', argvAt, envAt := BuildStack(pm.machine, bottom, USER_STACK_BASE, argv, env, aux);
    userSp := sp';
    StackWritten(s0, pm.View());
    if ArgsOk(argv, env, aux) { StackInView(pm.machine.mem, pm.maps, sp, argv, env, aux); }
  }

  lemma FrameInRam(m: Memory, f: nat, lo: nat, hi: nat)
    requires f in m && hi == AddressOf(f, PAGE_SIZE) && hi - PAGE_SIZE <= lo <= hi
    ensures InRam(m, lo, hi) && hi % PAGE_SIZE == 0 && hi / PAGE_SIZE - 1 == f
  {
    forall pa: nat | lo <= pa < hi ensures pa / PAGE_SIZE in m { AddressSplits(f, pa - f * PAGE_SIZE); }
    assert hi == (f + 1) * PAGE_SIZE;
  }

  /**
   * The pages of a program that execve started: those of its segments, which overlap neither each other nor the stack,
   * with their permissions and contents, and one page of stack.
   */
  ghost predicate ProgramInPlace(s: Space, segs: seq<Segment>, file: seq<Byte>) {
    && AllInFile(segs, file) && PageDisjoint(segs) && ClearOf(segs, {0x7FFFF})
    && s.maps.Keys == ProgramPlan(segs, file).Keys + {0x7FFFF} && s.maps[0x7FFFF].flags == URW
    && (forall v :: v in ProgramPlan(segs, file) ==>
          && v != 0x7FFFF && s.maps[v].flags == ProgramPlan(segs, file)[v].flags
          && s.maps[v].frame in s.m && s.m[s.maps[v].frame] == ProgramPlan(segs, file)[v].bytes)
  }

  /** At every address of a load segment a program may do exactly what the segment's permissions promise. */
  ghost predicate SegmentUsable(s: Space, seg: Segment) {
    forall a :: seg.vaddr <= a < seg.vaddr + seg.memsz ==> AsPromised(s, a, seg.flags)
  }

  /** And it can read and write its page of stack. */
  ghost predicate ProgramUsable(s: Space, segs: seq<Segment>) {
    && (forall i :: 0 <= i < |segs| && Loadable(segs[i]) ==> SegmentUsable(s, segs[i]))
    && (forall a :: 0x7FFF_F000 <= a < 0x8000_0000 ==> ReadWrite(s, a))
  }

  lemma PlacedIsUsable(s: Space, segs: seq<Segment>, file: seq<Byte>)
    requires SpaceOk(s) && ProgramInPlace(s, segs, file)
    ensures ProgramUsable(s, segs)
  {
    hide SpaceOk, ProgramPlan, SegmentPlan, PageDisjoint, ClearOf, AsPromised, ReadWrite;
    forall i | 0 <= i < |segs| && Loadable(segs[i]) ensures SegmentUsable(s, segs[i]) {
      var seg := segs[i];
      forall a | seg.vaddr <= a < seg.vaddr + seg.memsz ensures AsPromised(s, a, seg.flags) {
        SegmentBytes(seg, file, a - seg.vaddr);
        SegmentFlags(seg, file, a / PAGE_SIZE);
        ProgramPlanAt(segs, file, i, a / PAGE_SIZE);
        MappedAsPromised(s, a);
      }
    }
    forall a | 0x7FFF_F000 <= a < 0x8000_0000 ensures ReadWrite(s, a) {
      assert a / PAGE_SIZE == 0x7FFFF;
      MappedAsPromised(s, a);
      ReadWritePage(s, a, URW);
    }
  }

  /** The stack was built beside the program. */
  lemma PlacedBesideStack(s0: Space, s1: Space, s: Space, segs: seq<Segment>, file: seq<Byte>)
    requires AllInFile(segs, file) && PageDisjoint(segs) && ClearOf(segs, {0x7FFFF}) && s0.maps == map[]
    requires Grew(s0, s1, ProgramPlan(segs, file) + ZeroPages({0x7FFFF}, URW))
    requires Keeps(s1, s, s1.maps.Keys - {0x7FFFF}) && s.maps == s1.maps
    ensures ProgramInPlace(s, segs, file)
  {
    hide SpaceOk, SpaceStep, ProgramPlan, PageDisjoint, SegmentPages;
    ProgramPlanKeys(segs, file);
    var plan, zero := ProgramPlan(segs, file), ZeroPages({0x7FFFF}, URW);
    assert zero.Keys == {0x7FFFF} && (plan + zero).Keys == plan.Keys + {0x7FFFF};
    assert (plan + zero)[0x7FFFF] == zero[0x7FFFF];
    forall v | v in plan ensures v != 0x7FFFF && (plan + zero)[v] == plan[v] {
      var i :| 0 <= i < |segs| && v in SegmentPages(segs[i]);
    }
  }

  lemma PlacedAlone(s0: Space, s: Space, segs: seq<Segment>, file: seq<Byte>)
    requires AllInFile(segs, file) && PageDisjoint(segs) && ClearOf(segs, {0x7FFFF}) && s0.maps == map[]
    requires Grew(s0, s, ProgramPlan(segs, file) + ZeroPages({0x7FFFF}, URW))
    ensures ProgramInPlace(s, segs, file)
  {
    hide TableOk, Agrees, SpaceStep, ProgramPlan, PageDisjoint, ClearOf, ProgramInPlace, SegmentPages;
    PlacedBesideStack(s0, s, s, segs, file);
  }

  /** The memory of execve: the space is emptied, the program loaded into it and its stack built. */
  method ExecMemory(pm: ProcessMemory, segs: seq<Segment>, file: seq<Byte>, argv: seq<Str>, env: seq<Str>,
                    aux: seq<Aux>)
    returns (r: Outcome<nat>)
    requires pm.Valid() && StackDepth(argv, env, |aux|) <= PAGE_SIZE
    requires forall i, v :: 0 <= i < |segs| && v in SegmentPages(segs[i]) ==> UserPage(v)
    modifies pm, pm.machine
    ensures r.Panicked? ==> ExecFails(old(pm.View()), segs, file, r.why)
    ensures r.Done? ==>
      && fresh(pm.table) && pm.Valid() && SpaceStep(old(pm.View()), pm.View())
      && pm.mmapBase == MMAP_BASE && pm.stackTop == USER_STACK_BASE - PAGE_SIZE && pm.brk == pm.minBrk
        && BreakAt(pm.maps.Keys, pm.brk)
      && ProgramInPlace(pm.View(), segs, file) && ImageLoaded(pm.machine.mem, pm.maps, segs, file)
      && ProgramUsable(pm.View(), segs)
      && r.value == USER_STACK_BASE - StackDepth(argv, env, |aux|)
      && (ArgsOk(argv, env, aux) ==> StackReady(pm.machine.mem, pm.maps, r.value, argv, env, aux))
  {
    hide BreakAt, ProgramInPlace, ProgramUsable, Keeps, SpaceOk, Grew, SegmentPages, UserPage, ProgramPlan, ImageLoaded,
         PageDisjoint, ZeroPages, SpaceStep, Owned, StackDepth, StackReady, ArgsOk, ClearOf, ProgramCount, SegmentCount;
    ghost var s0 := pm.View();
    var fresh' := pm.Reset();
    if fresh'.Panicked? {
      NoFrame(s0.free);
      return Panicked(fresh'.why);
    }
    ghost var s1 := pm.View();
    var loaded := LoadElf(pm, segs, file);
    if loaded.Panicked? {
      return Panicked(loaded.why);
    }
    ghost var s2 := pm.View();
    GrewSteps(s1, s2, ProgramPlan(segs, file) + ZeroPages({0x7FFFF}, URW));
    SpaceStepTrans(s0, s1, s2);
    var userSp := ExecStack(pm, argv, env, aux);
    SpaceStepTrans(s0, s2, pm.View());
    PlacedBesideStack(s1, s2, pm.View(), segs, file);
    ImageBesideStack(s2, pm.View(), segs, file);
    PlacedIsUsable(pm.View(), segs, file);
    r := Done(userSp);
  }

  /** Why execve can fail: the file is too short, pages clash, or frames run out. */
  ghost predicate ExecFails(s: Space, segs: seq<Segment>, file: seq<Byte>, why: Panic) {
    match why
    case BadIndex => !AllInFile(segs, file)
    case AlreadyMapped => !PageDisjoint(segs) || !ClearOf(segs, {0x7FFFF})
    case OutOfFrames => |s.free| <= 3 * (ProgramCount(segs) + 1)
    case _ => false
  }

  lemma NoFrame(s: set<nat>)
    requires s == {}
    ensures |s| == 0
  {
  }

  lemma EmptyIsClear(segs: seq<Segment>)
    ensures ClearOf(segs, {})
  {
  }

  lemma StackPageFree(segs: seq<Segment>, keys: set<nat>)
    requires forall v :: v in keys <==> exists i :: 0 <= i < |segs| && v in SegmentPages(segs[i])
    ensures 0x7FFFF in keys <==> !ClearOf(segs, {0x7FFFF})
  {
    hide SegmentPages;
    if 0x7FFFF in keys {
      var i :| 0 <= i < |segs| && 0x7FFFF in SegmentPages(segs[i]);
      assert !(SegmentPages(segs[i]) !! {0x7FFFF});
    }
  }

  lemma StackPageReady(s1: Space, s: Space)
    requires Grew(s1, s, ZeroPages({0x7FFFF}, URW))
    ensures s.maps.Keys == s1.maps.Keys + {0x7FFFF} && Keeps(s1, s, s1.maps.Keys) && 0x7FFFF !in s1.maps
    ensures UserByte(s.m, s.maps, USER_STACK_BASE - 1) == Some(0)
  {
    hide SpaceOk, SpaceStep;
    assert ZeroPages({0x7FFFF}, URW).Keys == {0x7FFFF};
    assert (USER_STACK_BASE - 1) / PAGE_SIZE == 0x7FFFF;
  }
}
