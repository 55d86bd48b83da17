/**
 * VirtAddr::access_continuously: a user range seen contiguously through the kernel's trampoline window
 * (src/memory/address.rs).
 */
module Trampoline {
  import opened Basics
  import opened Words
  import opened Physical
  import opened Sv39
  import opened PageTrees
  import opened PageTables
  import opened HardwareWalk

  const WINDOW: nat := 0xC000_0000
  const WINDOW_VPN: nat := 0xC0000
  const RWX := Flags(false, true, true, true, false, false, false, false)

  /** The kernel entry for window page i: the frame of user page first + i. */
  function WindowEntry(user: map<nat, nat>, first: nat, i: nat, thead: bool): nat
    requires first + i in user
  {
    LeafEntry((WINDOW_VPN + i) * PAGE_SIZE, AddressOf(PageOf(user[first + i]), 0), RWX, thead)
  }

  /** The kernel mappings of the first n window pages onto the user pages from `first` on. */
  function WindowMap(user: map<nat, nat>, first: nat, n: nat, thead: bool): (w: map<nat, nat>)
    requires PageRange(first, n) <= user.Keys
  {
    map page | page in PageRange(WINDOW_VPN, n) ::
      assert first + (page - WINDOW_VPN) in PageRange(first, n); WindowEntry(user, first, page - WINDOW_VPN, thead)
  }

  lemma WindowEntryPage(user: map<nat, nat>, first: nat, i: nat, thead: bool)
    requires first + i in user
    ensures PageOf(WindowEntry(user, first, i, thead)) == PageOf(user[first + i])
  {
    hide LeafEntry;
    PageAfter(0, PageOf(user[first + i]));
    LeafEntryDecodes((WINDOW_VPN + i) * PAGE_SIZE, AddressOf(PageOf(user[first + i]), 0), RWX, thead);
  }

  /** Splitting va + k at the page boundary. */
  lemma WindowOffset(va: nat, k: nat)
    ensures var pos := WINDOW + va % PAGE_SIZE + k; var i := (va + k) / PAGE_SIZE - va / PAGE_SIZE;
      i >= 0 && pos / PAGE_SIZE == WINDOW_VPN + i && pos % PAGE_SIZE == (va + k) % PAGE_SIZE
  {
    var q, r := va / PAGE_SIZE, va % PAGE_SIZE;
    assert va == q * PAGE_SIZE + r;
    PageAfter(r + k, q);
    PageAfter(r + k, WINDOW_VPN);
    assert va + k == (r + k) + PAGE_SIZE * q;
    assert WINDOW + r + k == (r + k) + PAGE_SIZE * WINDOW_VPN;
  }

  /** Byte k of the window translates to the same physical byte as va + k does for the user. */
  lemma WindowIsContiguous(user: map<nat, nat>, kernel: map<nat, nat>, va: nat, n: nat, k: nat, thead: bool)
    requires PageRange(va / PAGE_SIZE, n) <= user.Keys && (va + k) / PAGE_SIZE < va / PAGE_SIZE + n
    ensures Resolve(kernel + WindowMap(user, va / PAGE_SIZE, n, thead), WINDOW + va % PAGE_SIZE + k) ==
        Resolve(user, va + k)
    ensures Resolve(user, va + k).Some?
  {
    hide WindowEntry, AddressOf, PageOf;
    WindowOffset(va, k);
    var i := (va + k) / PAGE_SIZE - va / PAGE_SIZE;
    assert va / PAGE_SIZE + i in PageRange(va / PAGE_SIZE, n);
    WindowEntryPage(user, va / PAGE_SIZE, i, thead);
  }

  // ---- writing through a page map

  /** Every byte of [start, start + n) translates into RAM. */
  ghost predicate Accessible(m: Memory, v: map<nat, nat>, start: nat, n: nat) {
    forall k :: start <= k < start + n ==> Resolve(v, k).Some? && Resolve(v, k).value / PAGE_SIZE in m
  }

  /** Memory after the bytes of data are stored at start, start + 1, ... through page map v. */
  ghost function Poke(m: Memory, v: map<nat, nat>, start: nat, data: seq<Byte>): (m': Memory)
    requires Accessible(m, v, start, |data|)
    ensures m'.Keys == m.Keys
    decreases |data|
  {
    if data == [] then m else
    var n := |data| - 1;
    StoreByte(Poke(m, v, start, data[..n]), Resolve(v, start + n).value, data[n])
  }

  /** Only the frames the range translates to change. */
  lemma {:induction false} PokeKeepsFrames(m: Memory, v: map<nat, nat>, start: nat, data: seq<Byte>, f: nat)
    requires Accessible(m, v, start, |data|) && f in m
    requires forall k :: start <= k < start + |data| ==> Resolve(v, k).value / PAGE_SIZE != f
    ensures Poke(m, v, start, data)[f] == m[f]
    decreases |data|
  {
    if data != [] {
      PokeKeepsFrames(m, v, start, data[..|data| - 1], f);
    }
  }

  /** No later address of the range translates to the same byte as k. */
  ghost predicate LastAt(v: map<nat, nat>, start: nat, n: nat, k: nat) {
    forall j :: k < j < start + n ==> Resolve(v, j) != Resolve(v, k)
  }

  /**
   * Reading the range back gives the data, the later one where two addresses share a byte; every other byte is as
   * before.
   */
  lemma {:induction false} PokeReadsBack(m: Memory, v: map<nat, nat>, start: nat, data: seq<Byte>, pa: nat)
    requires Accessible(m, v, start, |data|) && pa / PAGE_SIZE in m
    ensures forall k :: 0 <= k < |data| && Resolve(v, start + k) == Some(pa) && LastAt(v, start, |data|, start + k) ==>
      ByteAt(Poke(m, v, start, data), pa) == data[k]
    ensures (forall k :: start <= k < start + |data| ==> Resolve(v, k) != Some(pa)) ==>
      ByteAt(Poke(m, v, start, data), pa) == ByteAt(m, pa)
    decreases |data|
  {
    hide Resolve, ByteAt, StoreByte;
    if data != [] {
      var n := |data| - 1;
      PokeReadsBack(m, v, start, data[..n], pa);
      ByteAfterStore(Poke(m, v, start, data[..n]), Resolve(v, start + n).value, data[n], pa);
      assert forall k :: 0 <= k < n ==> data[..n][k] == data[k];
      forall k | 0 <= k < n && Resolve(v, start + k) == Some(pa) && LastAt(v, start, |data|, start + k)
        ensures ByteAt(Poke(m, v, start, data), pa) == data[k]
      {
        assert Resolve(v, start + n) != Resolve(v, start + k);
        assert LastAt(v, start, n, start + k);
      }
    }
  }

  lemma ResolvePage(v: map<nat, nat>, page: nat)
    ensures Resolve(v, page * PAGE_SIZE) == if page in v then Some(AddressOf(PageOf(v[page]), 0)) else None
    ensures page in v ==> AddressOf(PageOf(v[page]), 0) / PAGE_SIZE < PPN_LIMIT
    ensures page * PAGE_SIZE / PAGE_SIZE == page
  {
    PageAfter(0, page);
    if page in v { PageAfter(0, PageOf(v[page])); }
  }

  lemma EmptyWindow(kernel: map<nat, nat>, user: map<nat, nat>, first: nat, thead: bool)
    ensures PageRange(first, 0) == {} && kernel + WindowMap(user, first, 0, thead) == kernel
  {
    PageRangeGrows(first, 0);
    PageRangeGrows(WINDOW_VPN, 0);
    assert WindowMap(user, first, 0, thead) == map[];
  }

  /** One turn of the window loop, on page maps. */
  lemma WindowStep(kernel: map<nat, nat>, user: map<nat, nat>, first: nat, i: nat, thead: bool)
    requires PageRange(first, i) <= user.Keys && PageRange(WINDOW_VPN, i) !! kernel.Keys
    ensures var page := WINDOW_VPN + i; var w := kernel + WindowMap(user, first, i, thead);
      && (page in w <==> page in kernel)
      && (page !in kernel && first + i in user ==>
            && PageRange(first, i + 1) <= user.Keys && PageRange(WINDOW_VPN, i + 1) !! kernel.Keys
            && w[page := WindowEntry(user, first, i, thead)] ==
               kernel + WindowMap(user, first, i + 1, thead))
  {
    hide WindowEntry;
    var page := WINDOW_VPN + i;
    PageRangeGrows(first, i);
    PageRangeGrows(WINDOW_VPN, i);
    if page !in kernel && first + i in user {
      var e := WindowEntry(user, first, i, thead);
      assert WindowMap(user, first, i + 1, thead) == WindowMap(user, first, i, thead)[page := e];
    }
  }

  /** One turn of the window loop: translate user page `first + i` and map its frame at window page i. */
  method MapWindowPage(kt: PageTable, ut: PageTable, first: nat, i: nat) returns (r: Outcome<()>)
    requires kt.Valid() && ut.Valid() && kt.machine == ut.machine && kt != ut
    requires Mappable(ut.machine.mem, ut.root, first + i) && Mappable(kt.machine.mem, kt.root, WINDOW_VPN + i)
    modifies kt, kt.machine
    ensures r == if first + i !in old(PageMap(ut.machine.mem, ut.root)) then Panicked(NotMapped)
                 else if WINDOW_VPN + i in old(PageMap(kt.machine.mem, kt.root)) then Panicked(AlreadyMapped)
                 else if |old(kt.machine.free)| < Missing(old(kt.machine.mem), kt.root, WINDOW_VPN + i)
                     then Panicked(OutOfFrames)
                 else Done(())
    ensures r == Panicked(OutOfFrames) ==> |old(kt.machine.free)| < 2
    ensures r.Done? ==>
      && kt.Valid() && |old(kt.machine.free)| <= |kt.machine.free| + 2
      && TableStep(old(kt.machine.mem), old(kt.machine.free), old(kt.pages), kt.machine.mem, kt.machine.free, kt.pages,
          kt.root)
      && BigSlots(kt.machine.mem, kt.root) == old(BigSlots(kt.machine.mem, kt.root))
      && PageMap(kt.machine.mem, kt.root) ==
           old(PageMap(kt.machine.mem, kt.root))[WINDOW_VPN
               + i := WindowEntry(old(PageMap(ut.machine.mem, ut.root)), first, i, kt.machine.thead)]
  {
    hide TableOk, TableStep, PageMap, BigSlots, LeafEntry, Resolve, AddressOf, PageOf, Missing, Key, Low39;
    ResolvePage(PageMap(ut.machine.mem, ut.root), first + i);
    PageAfter(0, WINDOW_VPN + i);
    KeySmall(first + i);
    KeySmall(WINDOW_VPN + i);
    Low39Page((first + i) * PAGE_SIZE);
    KeyMissing(kt.machine.mem, kt.root, WINDOW_VPN + i);
    var pa := ut.Translate((first + i) * PAGE_SIZE);
    if pa.None? {
      return Panicked(NotMapped);
    }
    r := kt.Map((WINDOW_VPN + i) * PAGE_SIZE, pa.value, RWX);
  }

  /**
   * Why the window loop stops within its first n turns: the first turn whose user page is missing or whose window page
   * is taken.
   */
  function WindowFault(user: map<nat, nat>, kernel: map<nat, nat>, first: nat, n: nat): Option<Panic> {
    if n == 0 then None else
    match WindowFault(user, kernel, first, n - 1)
    case Some(p) => Some(p)
    case None =>
      if first + n - 1 !in user then Some(NotMapped) else if WINDOW_VPN + n - 1 in kernel then Some(AlreadyMapped)
          else None
  }

  function Ending(fault: Option<Panic>): Outcome<()> { if fault.Some? then Panicked(fault.value) else Done(()) }

  lemma {:induction false} FaultStays(user: map<nat, nat>, kernel: map<nat, nat>, first: nat, i: nat, n: nat)
    requires i <= n && WindowFault(user, kernel, first, i).Some?
    ensures WindowFault(user, kernel, first, n) == WindowFault(user, kernel, first, i)
    decreases n
  {
    if i < n { FaultStays(user, kernel, first, i, n - 1); }
  }

  /** No turn fails exactly if all user pages are there and the window is free. */
  lemma {:induction false} NoFault(user: map<nat, nat>, kernel: map<nat, nat>, first: nat, n: nat)
    ensures WindowFault(user, kernel, first, n) == None <==>
      PageRange(first, n) <= user.Keys && PageRange(WINDOW_VPN, n) !! kernel.Keys
  {
    if n == 0 {
      PageRangeGrows(first, 0);
      PageRangeGrows(WINDOW_VPN, 0);
    } else {
      NoFault(user, kernel, first, n - 1);
      PageRangeGrows(first, n - 1);
      PageRangeGrows(WINDOW_VPN, n - 1);
    }
  }

  /** What holds after i turns of the window loop that started in (m0, free0, pages0). */
  ghost predicate WindowSoFar(m0: Memory, free0: set<nat>, pages0: seq<nat>, m: Memory, free: set<nat>, pages: seq<nat>,
                              kroot: nat, uroot: nat, first: nat, i: nat, thead: bool)
  {
    && TableStep(m0, free0, pages0, m, free, pages, kroot) && |free0| <= |free| + 2 * i
    && BigSlots(m, kroot) == BigSlots(m0, kroot)
    && PageRange(first, i) <= PageMap(m0, uroot).Keys
    && PageRange(WINDOW_VPN, i) !! PageMap(m0, kroot).Keys
    && PageMap(m, kroot) == PageMap(m0, kroot) + WindowMap(PageMap(m0, uroot), first, i, thead)
  }

  lemma WindowSoFarStep(m0: Memory, free0: set<nat>, pages0: seq<nat>, m1: Memory, free1: set<nat>, pages1: seq<nat>,
                        m2: Memory, free2: set<nat>, pages2: seq<nat>, kroot: nat, uroot: nat, first: nat, i: nat,
                            thead: bool)
    requires WindowSoFar(m0, free0, pages0, m1, free1, pages1, kroot, uroot, first, i, thead)
    requires first + i in PageMap(m0, uroot) && WINDOW_VPN + i !in PageMap(m0, kroot)
    requires TableStep(m1, free1, pages1, m2, free2, pages2, kroot) && BigSlots(m2, kroot) == BigSlots(m1, kroot)
      && |free1| <= |free2| + 2
    requires PageMap(m2, kroot) ==
        PageMap(m1, kroot)[WINDOW_VPN + i := WindowEntry(PageMap(m0, uroot), first, i, thead)]
    ensures WindowSoFar(m0, free0, pages0, m2, free2, pages2, kroot, uroot, first, i + 1, thead)
  {
    hide TableOk, TableStep, PageMap, BigSlots, WindowMap, WindowEntry;
    TableStepTrans(m0, free0, pages0, m1, free1, pages1, m2, free2, pages2, kroot);
    WindowStep(PageMap(m0, kroot), PageMap(m0, uroot), first, i, thead);
  }

  /** Before turn i nothing that the turn looks at has changed. */
  lemma WindowSoFarLooks(m0: Memory, free0: set<nat>, pages0: seq<nat>, m: Memory, free: set<nat>, pages: seq<nat>,
                         kroot: nat, uroot: nat, upages: seq<nat>, first: nat, i: nat, thead: bool)
    requires WindowSoFar(m0, free0, pages0, m, free, pages, kroot, uroot, first, i, thead)
    requires TableOk(m0, free0, uroot, upages) && Disjoint(upages, pages0)
    requires Mappable(m0, uroot, first + i) && Mappable(m0, kroot, WINDOW_VPN + i)
    ensures TableOk(m, free, uroot, upages) && PageMap(m, uroot) == PageMap(m0, uroot)
    ensures Mappable(m, uroot, first + i) && Mappable(m, kroot, WINDOW_VPN + i)
    ensures WINDOW_VPN + i in PageMap(m, kroot) <==> WINDOW_VPN + i in PageMap(m0, kroot)
    ensures WindowFault(PageMap(m0, uroot), PageMap(m0, kroot), first, i) == None && |free0| <= |free| + 2 * i
  {
    NoFault(PageMap(m0, uroot), PageMap(m0, kroot), first, i);
    hide TableOk, TableStep, PageMap, BigSlots, WindowMap, Mappable;
    OtherTableKept(m0, free0, pages0, m, free, pages, kroot, uroot, upages);
    MappableFollows(m0, m, uroot, first + i);
    MappableFollows(m0, m, kroot, WINDOW_VPN + i);
    WindowStep(PageMap(m0, kroot), PageMap(m0, uroot), first, i, thead);
  }

  /** The window loop over n pages. */
  method MapWindow(kt: PageTable, ut: PageTable, first: nat, n: nat) returns (r: Outcome<()>)
    requires kt.Valid() && ut.Valid() && kt.machine == ut.machine && kt != ut && Disjoint(ut.pages, kt.pages)
    requires forall w :: w in PageRange(first, n) ==> Mappable(ut.machine.mem, ut.root, w)
    requires forall w :: w in PageRange(WINDOW_VPN, n) ==> Mappable(kt.machine.mem, kt.root, w)
    modifies kt, kt.machine
    ensures r == Panicked(OutOfFrames) ==> |old(kt.machine.free)| < 2 * n
    ensures r != Panicked(OutOfFrames) ==>
      r == Ending(WindowFault(old(PageMap(ut.machine.mem, ut.root)), old(PageMap(kt.machine.mem, kt.root)), first, n))
    ensures r.Done? ==> kt.Valid() && WindowSoFar(old(kt.machine.mem), old(kt.machine.free), old(kt.pages),
      kt.machine.mem, kt.machine.free, kt.pages, kt.root, ut.root, first, n, kt.machine.thead)
  {
    hide TableOk, TableStep, PageMap, BigSlots, Mappable, WindowMap, WindowSoFar, WindowEntry, Missing;
    var machine := kt.machine;
    ghost var m0, free0, pages0 := machine.mem, machine.free, kt.pages;
    WindowStarts(kt, ut, first);
    var i := 0;
    while i < n
      invariant 0 <= i <= n && kt.Valid()
      invariant WindowSoFar(m0, free0, pages0, machine.mem, machine.free, kt.pages, kt.root, ut.root, first, i,
          machine.thead)
    {
      ghost var m1, free1, pages1 := machine.mem, machine.free, kt.pages;
      WindowSoFarLooks(m0, free0, pages0, m1, free1, pages1, kt.root, ut.root, ut.pages, first, i, machine.thead);
      r := MapWindowPage(kt, ut, first, i);
      if r.Panicked? {
        if r.why != OutOfFrames { FaultStays(PageMap(m0, ut.root), PageMap(m0, kt.root), first, i + 1, n); }
        return;
      }
      WindowSoFarStep(m0, free0, pages0, m1, free1, pages1, machine.mem, machine.free, kt.pages, kt.root, ut.root,
          first, i, machine.thead);
      i := i + 1;
    }
    WindowDone(m0, free0, pages0, machine.mem, machine.free, kt.pages, kt.root, ut.root, first, n, machine.thead);
    r := Done(());
  }

  lemma WindowDone(m0: Memory, free0: set<nat>, pages0: seq<nat>, m: Memory, free: set<nat>, pages: seq<nat>,
                   kroot: nat, uroot: nat, first: nat, n: nat, thead: bool)
    requires WindowSoFar(m0, free0, pages0, m, free, pages, kroot, uroot, first, n, thead)
    ensures WindowFault(PageMap(m0, uroot), PageMap(m0, kroot), first, n) == None
  {
    hide TableStep, PageMap, BigSlots, WindowMap;
    NoFault(PageMap(m0, uroot), PageMap(m0, kroot), first, n);
  }

  lemma WindowStarts(kt: PageTable, ut: PageTable, first: nat)
    requires kt.Valid()
    ensures WindowSoFar(kt.machine.mem, kt.machine.free, kt.pages, kt.machine.mem, kt.machine.free, kt.pages,
                        kt.root, ut.root, first, 0, kt.machine.thead)
  {
    hide PageMap, BigSlots, TableStep;
    kt.Unchanged();
    EmptyWindow(PageMap(kt.machine.mem, kt.root), PageMap(kt.machine.mem, ut.root), first, kt.machine.thead);
  }

  // ---- the accessor: a copy of `data` to the window address

  /** The range translates into RAM outside the table itself. */
  ghost predicate OutsideTable(v: map<nat, nat>, start: nat, n: nat, pages: seq<nat>) {
    forall k :: start <= k < start + n ==> Resolve(v, k).Some? && Resolve(v, k).value / PAGE_SIZE !in pages
  }

  ghost predicate CopiedSoFar(m0: Memory, m: Memory, free: set<nat>, root: nat, pages: seq<nat>, start: nat,
                              data: seq<Byte>)
  {
    var v := PageMap(m0, root);
    && Accessible(m0, v, start, |data|) && m == Poke(m0, v, start, data)
    && TableOk(m, free, root, pages)
    && PageMap(m, root) == v && BigSlots(m, root) == BigSlots(m0, root)
  }

  lemma CopyStep(m0: Memory, m: Memory, free: set<nat>, root: nat, pages: seq<nat>, start: nat, data: seq<Byte>,
                 b: Byte)
    requires CopiedSoFar(m0, m, free, root, pages, start, data)
    requires Accessible(m0, PageMap(m0, root), start, |data| + 1)
      && OutsideTable(PageMap(m0, root), start, |data| + 1, pages)
    ensures var pa := Resolve(PageMap(m0, root), start + |data|);
      && pa.Some? && pa.value / PAGE_SIZE in m
      && CopiedSoFar(m0, StoreByte(m, pa.value, b), free, root, pages, start, data + [b])
  {
    hide PageMap, BigSlots, Resolve, Tree;
    var v := PageMap(m0, root);
    var pa := Resolve(v, start + |data|).value;
    assert (data + [b])[..|data|] == data;
    TableFramed(m, StoreByte(m, pa, b), root, pages);
  }

  lemma CopyStarts(m: Memory, free: set<nat>, root: nat, pages: seq<nat>, start: nat)
    requires TableOk(m, free, root, pages)
    ensures CopiedSoFar(m, m, free, root, pages, start, [])
  {
  }

  lemma LowAddress(m: Memory, root: nat, va: nat)
    requires Mappable(m, root, va / PAGE_SIZE)
    ensures MappableAt(m, root, va) && Low39(va) == va
  {
    hide BigSlots;
    KeySmall(va / PAGE_SIZE);
    assert va < 0x80_0000_0000;
    Low39Page(va);
  }

  /** Store data byte by byte at kernel virtual address start. */
  method CopyThrough(kt: PageTable, start: nat, data: seq<Byte>)
    requires kt.Valid() && forall k :: start <= k < start + |data| ==> Mappable(kt.machine.mem, kt.root, k / PAGE_SIZE)
    requires Accessible(kt.machine.mem, PageMap(kt.machine.mem, kt.root), start, |data|)
    requires OutsideTable(PageMap(kt.machine.mem, kt.root), start, |data|, kt.pages)
    modifies kt.machine`mem
    ensures kt.Valid()
    ensures CopiedSoFar(old(kt.machine.mem), kt.machine.mem, kt.machine.free, kt.root, kt.pages, start, data)
  {
    hide TableOk, PageMap, BigSlots, Mappable, Resolve, Poke;
    var machine := kt.machine;
    ghost var m0 := machine.mem;
    CopyStarts(m0, machine.free, kt.root, kt.pages, start);
    var n := 0;
    assert data[..0] == [];
    while n < |data|
      invariant 0 <= n <= |data| && kt.Valid()
      invariant CopiedSoFar(m0, machine.mem, machine.free, kt.root, kt.pages, start, data[..n])
    {
      CopyStep(m0, machine.mem, machine.free, kt.root, kt.pages, start, data[..n], data[n]);
      MappableFollows(m0, machine.mem, kt.root, (start + n) / PAGE_SIZE);
      LowAddress(machine.mem, kt.root, start + n);
      var pa := kt.Translate(start + n);
      machine.mem := StoreByte(machine.mem, pa.value, data[n]);
      assert data[..n] + [data[n]] == data[..n + 1];
      n := n + 1;
    }
    assert data[..n] == data;
  }

  // ---- the whole access

  /** The pages access_continuously visits: from the page of va to the page of va + size, both included. */
  function Pages(va: nat, size: nat): nat { (va + size) / PAGE_SIZE - va / PAGE_SIZE + 1 }

  /** Every byte of the range translates. */
  ghost predicate Translated(user: map<nat, nat>, va: nat, size: nat) {
    forall a :: va <= a < va + size ==> a / PAGE_SIZE in user
  }

  /**
   * With a free window, a translated range is accessed without a panic if and only if it does not end at a page
   * boundary or the page after it is mapped too; an empty range needs the page it starts in.
   */
  lemma AccessSucceedsIff(user: map<nat, nat>, kernel: map<nat, nat>, va: nat, size: nat)
    requires Translated(user, va, size) && PageRange(WINDOW_VPN, Pages(va, size)) !! kernel.Keys
    ensures WindowFault(user, kernel, va / PAGE_SIZE, Pages(va, size)) == None
      <==> (size > 0 && (va + size) % PAGE_SIZE != 0) || (va + size) / PAGE_SIZE in user
  {
    var first, n, last := va / PAGE_SIZE, Pages(va, size), (va + size) / PAGE_SIZE;
    NoFault(user, kernel, first, n);
    forall p | first <= p < last ensures p in user {
      var a := if p == first then va else p * PAGE_SIZE;
      assert a / PAGE_SIZE == p && va <= a < va + size;
    }
    if size > 0 && (va + size) % PAGE_SIZE != 0 {
      assert (va + size - 1) / PAGE_SIZE == last;
    }
    assert last in PageRange(first, n);
  }

  /** Mapped bytes of the user range lie in frames that are neither free nor part of either table. */
  ghost predicate UserRange(m: Memory, free: set<nat>, u: map<nat, nat>, va: nat, size: nat, kpages: seq<nat>,
                            upages: seq<nat>)
  {
    forall a :: va <= a < va + size && Resolve(u, a).Some? ==>
      var f := Resolve(u, a).value / PAGE_SIZE; f in m && f !in free && f !in kpages && f !in upages
  }

  /** The address in the window of user address a. */
  function InWindow(va: nat, a: nat): nat
    requires va <= a
  {
    WINDOW + va % PAGE_SIZE + (a - va)
  }

  lemma InWindowResolves(m0: Memory, free0: set<nat>, pages0: seq<nat>, m: Memory, free: set<nat>, pages: seq<nat>,
                         kroot: nat, uroot: nat,
                         va: nat, size: nat, thead: bool, a: nat)
    requires WindowSoFar(m0, free0, pages0, m, free, pages, kroot, uroot, va / PAGE_SIZE, Pages(va, size), thead)
    requires va <= a < va + size
    ensures Resolve(PageMap(m, kroot), InWindow(va, a)) == Resolve(PageMap(m0, uroot), a)
    ensures Resolve(PageMap(m0, uroot), a).Some?
    ensures InWindow(va, a) / PAGE_SIZE in PageRange(WINDOW_VPN, Pages(va, size))
  {
    hide TableStep, PageMap, BigSlots, WindowMap, Resolve;
    assert a / PAGE_SIZE <= (va + size) / PAGE_SIZE;
    WindowIsContiguous(PageMap(m0, uroot), PageMap(m0, kroot), va, Pages(va, size), a - va, thead);
    WindowOffset(va, a - va);
  }

  /** With the window in place a hart in supervisor mode finds the user's bytes one after another from 0xC0000000 on. */
  lemma HartSeesWindow(m0: Memory, free0: set<nat>, pages0: seq<nat>, m: Memory, free: set<nat>, pages: seq<nat>,
                       kroot: nat, uroot: nat, va: nat, size: nat, a: nat, q: Request)
    requires WindowSoFar(m0, free0, pages0, m, free, pages, kroot, uroot, va / PAGE_SIZE, Pages(va, size), q.thead)
    requires forall w :: w in PageRange(WINDOW_VPN, Pages(va, size)) ==> Mappable(m0, kroot, w)
    requires va <= a < va + size && !q.user && Canonical(0xC000_0000 + va % PAGE_SIZE + (a - va))
    ensures HardwareTranslate(m, kroot, 0xC000_0000 + va % PAGE_SIZE + (a - va), q) == Resolve(PageMap(m0, uroot), a)
  {
    hide BigSlots, PageMap, Resolve, Mappable, PageRange, LeafEntry, HardwareTranslate, Key, Low39, Tree, WindowMap;
    var pos, user, first := InWindow(va, a), PageMap(m0, uroot), va / PAGE_SIZE;
    InWindowResolves(m0, free0, pages0, m, free, pages, kroot, uroot, va, size, q.thead, a);
    WindowOffset(va, a - va);
    var i := a / PAGE_SIZE - first;
    assert a / PAGE_SIZE <= (va + size) / PAGE_SIZE;
    WindowPage(user, PageMap(m0, kroot), first, Pages(va, size), q.thead, i);
    MappableFollows(m0, m, kroot, pos / PAGE_SIZE);
    KeySmall(pos / PAGE_SIZE);
    Low39Page(pos);
    PageAfter(0, PageOf(user[first + i]));
    HardwareAgrees(m, kroot, pages, pos, q, (WINDOW_VPN + i) * PAGE_SIZE, AddressOf(PageOf(user[first + i]), 0), RWX);
  }

  /** Byte a of the user's range, where a hart in supervisor mode looks for it: 0xC0000000 is the window's address. */
  ghost predicate HartFinds(m: Memory, kroot: nat, u: map<nat, nat>, va: nat, a: nat, thead: bool)
    requires va <= a
  {
    var at := 0xC000_0000 + va % PAGE_SIZE + (a - va);
    forall q: Request :: !q.user && q.thead == thead && Canonical(at) ==>
      HardwareTranslate(m, kroot, at, q) == Resolve(u, a)
  }

  lemma HartsFind(m0: Memory, free0: set<nat>, pages0: seq<nat>, m: Memory, free: set<nat>, pages: seq<nat>,
                  kroot: nat, uroot: nat, va: nat, size: nat, a: nat, thead: bool)
    requires WindowSoFar(m0, free0, pages0, m, free, pages, kroot, uroot, va / PAGE_SIZE, Pages(va, size), thead)
    requires forall w :: w in PageRange(WINDOW_VPN, Pages(va, size)) ==> Mappable(m0, kroot, w)
    requires va <= a < va + size
    ensures HartFinds(m, kroot, PageMap(m0, uroot), va, a, thead)
  {
    hide BigSlots, PageMap, WindowSoFar, Resolve, Mappable, PageRange, HardwareTranslate, Canonical;
    var at := 0xC000_0000 + va % PAGE_SIZE + (a - va);
    forall q: Request | !q.user && q.thead == thead && Canonical(at)
      ensures HardwareTranslate(m, kroot, at, q) == Resolve(PageMap(m0, uroot), a)
    {
      HartSeesWindow(m0, free0, pages0, m, free, pages, kroot, uroot, va, size, a, q);
    }
  }

  /** The entry behind an address of the window. */
  lemma WindowPage(user: map<nat, nat>, kernel: map<nat, nat>, first: nat, n: nat, thead: bool, i: nat)
    requires i < n && PageRange(first, n) <= user.Keys
    ensures first + i in user
    ensures var w := kernel + WindowMap(user, first, n, thead);
      WINDOW_VPN + i in w && w[WINDOW_VPN + i] == WindowEntry(user, first, i, thead)
  {
    hide WindowEntry;
    assert first + i in PageRange(first, n) && WINDOW_VPN + i in PageRange(WINDOW_VPN, n);
  }

  /** With the window in place the copy may run, and it reaches the user's bytes. */
  lemma WindowReady(m0: Memory, free0: set<nat>, pages0: seq<nat>, m: Memory, free: set<nat>, pages: seq<nat>,
                    kroot: nat, uroot: nat,
                    upages: seq<nat>, va: nat, size: nat, thead: bool)
    requires WindowSoFar(m0, free0, pages0, m, free, pages, kroot, uroot, va / PAGE_SIZE, Pages(va, size), thead)
    requires UserRange(m0, free0, PageMap(m0, uroot), va, size, pages0, upages)
    requires forall w :: w in PageRange(WINDOW_VPN, Pages(va, size)) ==> Mappable(m0, kroot, w)
    ensures var start := InWindow(va, va);
      && Accessible(m, PageMap(m, kroot), start, size)
      && OutsideTable(PageMap(m, kroot), start, size, pages)
      && forall k :: start <= k < start + size ==> Mappable(m, kroot, k / PAGE_SIZE)
  {
    hide PageMap, BigSlots, WindowMap, Resolve, Mappable, WindowSoFar, PageRange, TableOk;
    var start := InWindow(va, va);
    forall k | start <= k < start + size
      ensures Resolve(PageMap(m, kroot), k) == Resolve(PageMap(m0, uroot), k - start + va)
      ensures Resolve(PageMap(m, kroot), k).Some?
      ensures Resolve(PageMap(m, kroot), k).value / PAGE_SIZE in m
      ensures Resolve(PageMap(m, kroot), k).value / PAGE_SIZE !in pages
      ensures Mappable(m, kroot, k / PAGE_SIZE)
    {
      var a := k - start + va;
      InWindowResolves(m0, free0, pages0, m, free, pages, kroot, uroot, va, size, thead, a);
      assert InWindow(va, a) == k;
      WindowKeepsUser(m0, free0, pages0, m, free, pages, kroot, uroot, upages, va, size, thead, a);
    }
  }

  lemma WindowKeepsUser(m0: Memory, free0: set<nat>, pages0: seq<nat>, m: Memory, free: set<nat>, pages: seq<nat>,
                        kroot: nat, uroot: nat,
                        upages: seq<nat>, va: nat, size: nat, thead: bool, a: nat)
    requires WindowSoFar(m0, free0, pages0, m, free, pages, kroot, uroot, va / PAGE_SIZE, Pages(va, size), thead)
    requires UserRange(m0, free0, PageMap(m0, uroot), va, size, pages0, upages)
    requires va <= a < va + size && Resolve(PageMap(m0, uroot), a).Some?
    requires forall w :: w in PageRange(WINDOW_VPN, Pages(va, size)) ==> Mappable(m0, kroot, w)
    requires InWindow(va, a) / PAGE_SIZE in PageRange(WINDOW_VPN, Pages(va, size))
    ensures var f := Resolve(PageMap(m0, uroot), a).value / PAGE_SIZE;
      f in m && f !in pages && f !in upages && m[f] == m0[f]
    ensures Mappable(m, kroot, InWindow(va, a) / PAGE_SIZE)
  {
    hide PageMap, BigSlots, WindowMap, Resolve, Mappable, TableOk;
    MappableFollows(m0, m, kroot, InWindow(va, a) / PAGE_SIZE);
  }

  /** Removing the window pages again leaves the kernel's page map as it was. */
  lemma WindowUndone(kernel: map<nat, nat>, user: map<nat, nat>, first: nat, n: nat, thead: bool)
    requires PageRange(first, n) <= user.Keys && PageRange(WINDOW_VPN, n) !! kernel.Keys
    ensures var k := kernel + WindowMap(user, first, n, thead);
      PageRange(WINDOW_VPN, n) <= k.Keys && k - PageRange(WINDOW_VPN, n) == kernel
  {
    hide WindowEntry;
  }

  /**
   * The user's range now holds data, the later byte where two addresses share one, and no other byte outside
   * the kernel table's frames changed.
   */
  ghost predicate Written(m0: Memory, m: Memory, u: map<nat, nat>, va: nat, data: seq<Byte>, kpages: seq<nat>) {
    && m.Keys == m0.Keys
    && (forall a :: va <= a < va + |data| ==>
          && Resolve(u, a).Some? && Resolve(u, a).value / PAGE_SIZE in m
          && (LastAt(u, va, |data|, a) ==> ByteAt(m, Resolve(u, a).value) == data[a - va]))
    && (forall pa ::
          (pa / PAGE_SIZE in m && pa / PAGE_SIZE !in kpages
           && forall a :: va <= a < va + |data| ==> Resolve(u, a) != Some(pa)) ==>
          ByteAt(m, pa) == ByteAt(m0, pa))
  }

  lemma CopyReachesByte(m0: Memory, free0: set<nat>, pages0: seq<nat>, m1: Memory, free1: set<nat>, pages1: seq<nat>,
                        m2: Memory,
                        kroot: nat, uroot: nat, upages: seq<nat>, va: nat, data: seq<Byte>, thead: bool, pa: nat)
    requires WindowSoFar(m0, free0, pages0, m1, free1, pages1, kroot, uroot, va / PAGE_SIZE, Pages(va, |data|), thead)
    requires UserRange(m0, free0, PageMap(m0, uroot), va, |data|, pages0, upages)
    requires forall w :: w in PageRange(WINDOW_VPN, Pages(va, |data|)) ==> Mappable(m0, kroot, w)
    requires CopiedSoFar(m1, m2, free1, kroot, pages1, InWindow(va, va), data)
    requires pa / PAGE_SIZE in m0
    ensures pa / PAGE_SIZE in m2
    ensures var u := PageMap(m0, uroot);
      forall a :: va <= a < va + |data| && Resolve(u, a) == Some(pa) && LastAt(u, va, |data|, a) ==>
        ByteAt(m2, pa) == data[a - va]
    ensures (forall a :: va <= a < va + |data| ==> Resolve(PageMap(m0, uroot), a) != Some(pa)) ==>
      pa / PAGE_SIZE in m1 && ByteAt(m2, pa) == ByteAt(m1, pa)
  {
    hide PageMap, BigSlots, WindowMap, Resolve, Mappable, PageRange, TableOk, ByteAt, UserRange, Accessible;
    var start, u, v := InWindow(va, va), PageMap(m0, uroot), PageMap(m1, kroot);
    WindowReady(m0, free0, pages0, m1, free1, pages1, kroot, uroot, upages, va, |data|, thead);
    PokeReadsBack(m1, v, start, data, pa);
    forall a | va <= a < va + |data|
      ensures Resolve(v, start + (a - va)) == Resolve(u, a)
    {
      InWindowResolves(m0, free0, pages0, m1, free1, pages1, kroot, uroot, va, |data|, thead, a);
    }
    forall k | start <= k < start + |data|
      ensures Resolve(v, k) == Resolve(u, k - start + va)
    {
      assert start + ((k - start + va) - va) == k;
    }
    forall a | va <= a < va + |data| && LastAt(u, va, |data|, a) ensures LastAt(v, start, |data|, start + (a - va)) {
      LastInWindow(u, v, va, start, |data|, a);
    }
  }

  lemma LastInWindow(u: map<nat, nat>, v: map<nat, nat>, va: nat, start: nat, n: nat, a: nat)
    requires forall k :: start <= k < start + n ==> Resolve(v, k) == Resolve(u, k - start + va)
    requires va <= a < va + n && LastAt(u, va, n, a)
    ensures LastAt(v, start, n, start + (a - va))
  {
    hide Resolve;
  }

  lemma AccessWrites(m0: Memory, free0: set<nat>, pages0: seq<nat>, m1: Memory, free1: set<nat>, pages1: seq<nat>,
                     m2: Memory, m3: Memory,
                     kroot: nat, uroot: nat, upages: seq<nat>, va: nat, data: seq<Byte>, thead: bool)
    requires WindowSoFar(m0, free0, pages0, m1, free1, pages1, kroot, uroot, va / PAGE_SIZE, Pages(va, |data|), thead)
    requires UserRange(m0, free0, PageMap(m0, uroot), va, |data|, pages0, upages)
    requires forall w :: w in PageRange(WINDOW_VPN, Pages(va, |data|)) ==> Mappable(m0, kroot, w)
    requires CopiedSoFar(m1, m2, free1, kroot, pages1, InWindow(va, va), data)
    requires TableStep(m2, free1, pages1, m3, free1, pages1, kroot)
    ensures Written(m0, m3, PageMap(m0, uroot), va, data, pages1)
  {
    hide PageMap, BigSlots, WindowMap, Resolve, Mappable, PageRange, TableOk, Accessible, UserRange;
    var u := PageMap(m0, uroot);
    forall a | va <= a < va + |data|
      ensures Resolve(u, a).Some? && Resolve(u, a).value / PAGE_SIZE in m3
      ensures LastAt(u, va, |data|, a) ==> ByteAt(m3, Resolve(u, a).value) == data[a - va]
    {
      InWindowResolves(m0, free0, pages0, m1, free1, pages1, kroot, uroot, va, |data|, thead, a);
      var pa := Resolve(u, a).value;
      WindowKeepsUser(m0, free0, pages0, m1, free1, pages1, kroot, uroot, upages, va, |data|, thead, a);
      CopyReachesByte(m0, free0, pages0, m1, free1, pages1, m2, kroot, uroot, upages, va, data, thead, pa);
    }
    forall pa: nat | pa / PAGE_SIZE in m3 && pa / PAGE_SIZE !in pages1
      && (forall a :: va <= a < va + |data| ==> Resolve(u, a) != Some(pa))
      ensures ByteAt(m3, pa) == ByteAt(m0, pa)
    {
      CopyReachesByte(m0, free0, pages0, m1, free1, pages1, m2, kroot, uroot, upages, va, data, thead, pa);
    }
  }

  lemma AccessRestores(m0: Memory, free0: set<nat>, pages0: seq<nat>, m1: Memory, free1: set<nat>, pages1: seq<nat>,
                       m2: Memory, m3: Memory,
                       kroot: nat, uroot: nat, upages: seq<nat>, va: nat, data: seq<Byte>, thead: bool)
    requires WindowSoFar(m0, free0, pages0, m1, free1, pages1, kroot, uroot, va / PAGE_SIZE, Pages(va, |data|), thead)
    requires TableOk(m0, free0, uroot, upages) && Disjoint(upages, pages0)
    requires UserRange(m0, free0, PageMap(m0, uroot), va, |data|, pages0, upages)
    requires forall w :: w in PageRange(WINDOW_VPN, Pages(va, |data|)) ==> Mappable(m0, kroot, w)
    requires CopiedSoFar(m1, m2, free1, kroot, pages1, InWindow(va, va), data)
    requires TableStep(m2, free1, pages1, m3, free1, pages1, kroot)
    ensures TableOk(m3, free1, uroot, upages) && PageMap(m3, uroot) == PageMap(m0, uroot)
  {
    hide PageMap, BigSlots, WindowMap, Resolve, Mappable, PageRange, TableStep, Accessible, Tree;
    OtherTableKept(m0, free0, pages0, m1, free1, pages1, kroot, uroot, upages);
    var start := InWindow(va, va);
    forall f | f in upages ensures f in m2 && m2[f] == m1[f] {
      forall k | start <= k < start + |data|
        ensures Resolve(PageMap(m1, kroot), k).Some? && Resolve(PageMap(m1, kroot), k).value / PAGE_SIZE != f
      {
        var a := k - start + va;
        assert InWindow(va, a) == k;
        InWindowResolves(m0, free0, pages0, m1, free1, pages1, kroot, uroot, va, |data|, thead, a);
        WindowKeepsUser(m0, free0, pages0, m1, free1, pages1, kroot, uroot, upages, va, |data|, thead, a);
      }
      PokeKeepsFrames(m1, PageMap(m1, kroot), start, data, f);
    }
    TableFramed(m1, m2, uroot, upages);
    OtherTableKept(m2, free1, pages1, m3, free1, pages1, kroot, uroot, upages);
  }

  /**
   * access_continuously with an accessor that copies `data` to the address it is given. `during` is the memory when the
   * accessor starts.
   */
  method AccessContinuously(kt: PageTable, ut: PageTable, va: nat, data: seq<Byte>)
    returns (r: Outcome<()>, ghost during: Memory)
    requires kt.Valid() && ut.Valid() && kt.machine == ut.machine && kt != ut && Disjoint(ut.pages, kt.pages)
    requires forall w :: w in PageRange(va / PAGE_SIZE, Pages(va, |data|)) ==> Mappable(ut.machine.mem, ut.root, w)
    requires forall w :: w in PageRange(WINDOW_VPN, Pages(va, |data|)) ==> Mappable(kt.machine.mem, kt.root, w)
    requires UserRange(ut.machine.mem, ut.machine.free, PageMap(ut.machine.mem, ut.root), va, |data|, kt.pages,
        ut.pages)
    modifies kt, kt.machine
    ensures r == Panicked(OutOfFrames) ==> |old(kt.machine.free)| < 2 * Pages(va, |data|)
    ensures r != Panicked(OutOfFrames) ==>
      r ==
          Ending(WindowFault(old(PageMap(ut.machine.mem, ut.root)), old(PageMap(kt.machine.mem, kt.root)),
              va / PAGE_SIZE, Pages(va, |data|)))
    ensures r.Done? ==>
      forall a :: va <= a < va + |data| ==>
        && Resolve(PageMap(during, kt.root), InWindow(va, a)) == Resolve(old(PageMap(ut.machine.mem, ut.root)), a)
        && HartFinds(during, kt.root, old(PageMap(ut.machine.mem, ut.root)), va, a, kt.machine.thead)
    ensures r.Done? ==>
      && kt.Valid() && ut.Valid()
      && PageMap(kt.machine.mem, kt.root) == old(PageMap(kt.machine.mem, kt.root))
      && BigSlots(kt.machine.mem, kt.root) == old(BigSlots(kt.machine.mem, kt.root))
      && PageMap(ut.machine.mem, ut.root) == old(PageMap(ut.machine.mem, ut.root))
      && Written(old(ut.machine.mem), ut.machine.mem, old(PageMap(ut.machine.mem, ut.root)), va, data, kt.pages)
  {
    hide TableOk, TableStep, PageMap, BigSlots, Mappable, WindowMap, Resolve, Poke, UserRange, Written, InWindow,
         HartFinds, Accessible, OutsideTable, PageRange;
    var machine := kt.machine;
    var first, n := va / PAGE_SIZE, (va + |data|) / PAGE_SIZE - va / PAGE_SIZE + 1;
    ghost var m0, free0, pages0 := machine.mem, machine.free, kt.pages;
    during := m0;
    r := MapWindow(kt, ut, first, n);
    if r.Panicked? {
      return;
    }
    ghost var m1, free1, pages1 := machine.mem, machine.free, kt.pages;
    during := m1;
    forall a | va <= a < va + |data|
      ensures Resolve(PageMap(m1, kt.root), InWindow(va, a)) == Resolve(PageMap(m0, ut.root), a)
      ensures HartFinds(m1, kt.root, PageMap(m0, ut.root), va, a, machine.thead)
    {
      InWindowResolves(m0, free0, pages0, m1, free1, pages1, kt.root, ut.root, va, |data|, machine.thead, a);
      HartsFind(m0, free0, pages0, m1, free1, pages1, kt.root, ut.root, va, |data|, a, machine.thead);
    }
    WindowReady(m0, free0, pages0, m1, free1, pages1, kt.root, ut.root, ut.pages, va, |data|, machine.thead);
    StartOfWindow(va);
    CopyThrough(kt, WINDOW + va % PAGE_SIZE, data);
    ghost var m2 := machine.mem;
    WindowUndone(PageMap(m0, kt.root), PageMap(m0, ut.root), first, n, machine.thead);
    forall w | w in PageRange(WINDOW_VPN, n) ensures Mappable(m2, kt.root, w) { MappableFollows(m0, m2, kt.root, w); }
    r := kt.UnmapMany(WINDOW, n);
    AccessWrites(m0, free0, pages0, m1, free1, pages1, m2, machine.mem, kt.root, ut.root, ut.pages, va, data,
        machine.thead);
    AccessRestores(m0, free0, pages0, m1, free1, pages1, m2, machine.mem, kt.root, ut.root, ut.pages, va, data,
        machine.thead);
  }

  lemma StartOfWindow(va: nat)
    ensures InWindow(va, va) == WINDOW + va % PAGE_SIZE && WINDOW / PAGE_SIZE == WINDOW_VPN
  {
  }
}
