/**
 * The three-level table as a tree of frames: which frames are its nodes, when it is a tree, what it maps,
 * and how changing one entry changes that. Everything here is stated over the decoded entries of all frames,
 * so it does not depend on how an entry is encoded.
 */
module PageTrees {
  import opened Basics

  /** One decoded entry. `pristine` says that a pointer entry is exactly what find_pte_create writes. */
  datatype Cell = Cell(raw: nat, valid: bool, pointer: bool, page: nat, pristine: bool)

  /** The decoded contents of memory: entry k of frame f. */
  type Cells = (nat, nat) -> Cell

  /** The indexes of a page number, root first. */
  datatype Indexes = Indexes(i: nat, j: nat, k: nat)

  /** Where a table node hangs: the root, under root entry i, or under entry j of that. */
  datatype Path = Root | Mid(i: nat) | Low(i: nat, j: nat)

  /** The frame of the node at path p. A root entry with R, W or X set is a 1 GiB leaf and has no node. */
  function NodeAt(c: Cells, root: nat, p: Path): (r: Option<nat>) {
    match p
    case Root => Some(root)
    case Mid(i) => if i < 512 && c(root, i).valid && c(root, i).pointer then Some(c(root, i).page) else None
    case Low(i, j) =>
      if i < 512 && j < 512 && c(root, i).valid && c(root, i).pointer && c(c(root, i).page, j).valid
      then Some(c(c(root, i).page, j).page) else None
  }

  /** No frame is reached along two paths. */
  ghost predicate Separated(c: Cells, root: nat) {
    forall p, q :: NodeAt(c, root, p).Some? && NodeAt(c, root, p) == NodeAt(c, root, q) ==> p == q
  }

  /** `pages` lists exactly the reachable frames, each once. */
  ghost predicate Lists(c: Cells, root: nat, pages: seq<nat>) {
    && NoDup(pages)
    && (forall p :: NodeAt(c, root, p).Some? ==> NodeAt(c, root, p).value in pages)
    && (forall f :: f in pages ==> exists p :: NodeAt(c, root, p) == Some(f))
  }

  /** Every pointer above the last level is one that find_pte_create wrote. */
  ghost predicate Pristine(c: Cells, root: nat) {
    && (forall i :: 0 <= i < 512 && c(root, i).valid && c(root, i).pointer ==> c(root, i).pristine)
    && (forall i, j :: NodeAt(c, root, Low(i, j)).Some? ==> c(NodeAt(c, root, Mid(i)).value, j).pristine)
  }

  ghost predicate Tree(c: Cells, root: nat, pages: seq<nat>) {
    Separated(c, root) && Lists(c, root, pages) && Pristine(c, root)
  }

  // ---- what a table maps

  /** A page table entry in memory: frame and index. */
  datatype Slot = Slot(frame: nat, index: nat)

  /** find_pte: follow valid entries for two levels. It does not look at R, W and X on the way. */
  function Walk(c: Cells, root: nat, t: Indexes): (r: Option<Slot>) {
    var e0 := c(root, t.i);
    if !e0.valid then None else
    var e1 := c(e0.page, t.j);
    if !e1.valid then None else
    Some(Slot(e1.page, t.k))
  }

  /** The valid last-level entry that the walk ends at. */
  function Lookup(c: Cells, root: nat, t: Indexes): (r: Option<Cell>) {
    match Walk(c, root, t)
    case None => None
    case Some(s) => if c(s.frame, s.index).valid then Some(c(s.frame, s.index)) else None
  }

  /** t lies under a root entry that map_big filled. */
  predicate InBigSlot(c: Cells, root: nat, t: Indexes) {
    c(root, t.i).valid && !c(root, t.i).pointer
  }

  ghost predicate InRange(t: Indexes) { t.i < 512 && t.j < 512 && t.k < 512 }

  /** Outside 1 GiB slots the walk ends in a node of the last level. */
  lemma WalkIsNode(c: Cells, root: nat, t: Indexes)
    requires InRange(t) && !InBigSlot(c, root, t)
    ensures Walk(c, root, t) ==
        match NodeAt(c, root, Low(t.i, t.j)) case None => None case Some(f) => Some(Slot(f, t.k))
  {
  }

  // ---- one entry changes

  /** c' is c except at entry k of frame f. */
  ghost predicate Updated(c: Cells, c': Cells, f: nat, k: nat) {
    forall g, j :: (g != f || j != k) ==> c'(g, j) == c(g, j)
  }

  /** A store below the last pointer level moves no node. */
  lemma LeafStoreKeepsNodes(c: Cells, c': Cells, root: nat, i: nat, j: nat, k: nat)
    requires Separated(c, root) && NodeAt(c, root, Low(i, j)).Some?
    requires Updated(c, c', NodeAt(c, root, Low(i, j)).value, k)
    ensures forall p :: NodeAt(c', root, p) == NodeAt(c, root, p)
    ensures forall a :: c'(root, a) == c(root, a)
  {
    var low := Low(i, j);
    assert NodeAt(c, root, Root) != NodeAt(c, root, low);
    forall p ensures NodeAt(c', root, p) == NodeAt(c, root, p) {
      match p
      case Root =>
      case Mid(a) =>
      case Low(a, b) =>
        if NodeAt(c, root, Mid(a)).Some? {
          assert NodeAt(c, root, Mid(a)) != NodeAt(c, root, low);
        }
    }
  }

  lemma LeafStoreKeepsTree(c: Cells, c': Cells, root: nat, pages: seq<nat>, i: nat, j: nat, k: nat)
    requires Tree(c, root, pages) && NodeAt(c, root, Low(i, j)).Some?
    requires Updated(c, c', NodeAt(c, root, Low(i, j)).value, k)
    ensures Tree(c', root, pages)
  {
    LeafStoreKeepsNodes(c, c', root, i, j, k);
    ListsFollowsNodes(c, c', root, pages);
    forall a, b | NodeAt(c', root, Low(a, b)).Some? ensures c'(NodeAt(c', root, Mid(a)).value, b).pristine {
      assert NodeAt(c, root, Low(a, b)).Some?;
      assert NodeAt(c, root, Mid(a)) != NodeAt(c, root, Low(i, j));
    }
  }

  lemma ListsFollowsNodes(c: Cells, c': Cells, root: nat, pages: seq<nat>)
    requires Lists(c, root, pages)
    requires forall p :: NodeAt(c', root, p) == NodeAt(c, root, p)
    ensures Lists(c', root, pages)
  {
    forall f | f in pages ensures exists p :: NodeAt(c', root, p) == Some(f) {
      var p :| NodeAt(c, root, p) == Some(f);
      assert NodeAt(c', root, p) == Some(f);
    }
  }

  /** A store to the last-level entry for t changes the lookup of t alone. */
  lemma LeafStoreChangesOnePage(c: Cells, c': Cells, root: nat, t: Indexes, other: Indexes)
    requires InRange(t) && InRange(other)
    requires Separated(c, root) && !InBigSlot(c, root, t) && !InBigSlot(c, root, other) && Walk(c, root, t).Some?
    requires var s := Walk(c, root, t).value; Updated(c, c', s.frame, s.index)
    ensures Walk(c', root, t) == Walk(c, root, t)
    ensures !InBigSlot(c', root, other)
    ensures other != t ==> Lookup(c', root, other) == Lookup(c, root, other)
  {
    WalkIsNode(c, root, t);
    WalkIsNode(c, root, other);
    LeafStoreKeepsNodes(c, c', root, t.i, t.j, t.k);
    WalkIsNode(c', root, t);
    WalkIsNode(c', root, other);
    assert Walk(c', root, other) == Walk(c, root, other);
    if Walk(c, root, other) == Walk(c, root, t) {
      assert NodeAt(c, root, Low(other.i, other.j)) == NodeAt(c, root, Low(t.i, t.j));
      assert other == t;
    }
  }

  lemma LeafStoreKeepsRoot(c: Cells, c': Cells, root: nat, t: Indexes)
    requires InRange(t) && Separated(c, root) && !InBigSlot(c, root, t) && Walk(c, root, t).Some?
    requires var s := Walk(c, root, t).value; Updated(c, c', s.frame, s.index)
    ensures forall a :: c'(root, a) == c(root, a)
  {
    WalkIsNode(c, root, t);
    LeafStoreKeepsNodes(c, c', root, t.i, t.j, t.k);
  }

  // ---- a node is added

  /** The entry at which a node for path `at` would hang is still empty. */
  ghost predicate CanGrow(c: Cells, root: nat, at: Path) {
    match at
    case Root => false
    case Mid(i) => i < 512 && !c(root, i).valid
    case Low(i, j) => j < 512 && NodeAt(c, root, Mid(i)).Some? && !c(NodeAt(c, root, Mid(i)).value, j).valid
  }

  /** c' is c with the cleared frame `novel` hung at path `at`. */
  ghost predicate Grown(c: Cells, c': Cells, root: nat, at: Path, novel: nat)
    requires CanGrow(c, root, at)
  {
    var f := if at.Low? then NodeAt(c, root, Mid(at.i)).value else root;
    var k := if at.Low? then at.j else at.i;
    && (forall g, j :: (g != f || j != k) && g != novel ==> c'(g, j) == c(g, j))
    && (forall j :: !c'(novel, j).valid)
    && c'(f, k).valid && c'(f, k).pointer && c'(f, k).pristine && c'(f, k).page == novel
  }

  ghost predicate Unreached(c: Cells, root: nat, f: nat) {
    forall p :: NodeAt(c, root, p) != Some(f)
  }

  /** Hanging a cleared frame at an empty entry adds exactly that node. */
  lemma GrowAddsNode(c: Cells, c': Cells, root: nat, at: Path, novel: nat)
    requires Separated(c, root) && CanGrow(c, root, at) && Unreached(c, root, novel)
    requires Grown(c, c', root, at, novel)
    ensures forall p :: NodeAt(c', root, p) == if p == at then Some(novel) else NodeAt(c, root, p)
    ensures forall i :: (at.Low? || i != at.i) ==> c'(root, i) == c(root, i)
  {
    assert NodeAt(c, root, Root) == Some(root);
    assert novel != root;
    if at.Low? {
      assert NodeAt(c, root, Mid(at.i)) != NodeAt(c, root, Root);
      assert NodeAt(c, root, Mid(at.i)) != Some(novel);
    }
    forall p ensures NodeAt(c', root, p) == if p == at then Some(novel) else NodeAt(c, root, p) {
      match p
      case Root =>
      case Mid(a) =>
      case Low(a, b) =>
        if NodeAt(c, root, Mid(a)).Some? {
          assert NodeAt(c, root, Mid(a)) != Some(novel);
          assert NodeAt(c, root, Mid(a)) != NodeAt(c, root, Root);
          if at.Low? && a != at.i { assert NodeAt(c, root, Mid(at.i)) != NodeAt(c, root, Mid(a)); }
        }
    }
  }

  lemma GrowKeepsTree(c: Cells, c': Cells, root: nat, pages: seq<nat>, at: Path, novel: nat)
    requires Tree(c, root, pages) && CanGrow(c, root, at) && novel !in pages
    requires Grown(c, c', root, at, novel)
    ensures Tree(c', root, pages + [novel])
  {
    GrowAddsNode(c, c', root, at, novel);
    assert NodeAt(c', root, at) == Some(novel);
    forall g | g in pages + [novel] ensures exists p :: NodeAt(c', root, p) == Some(g) {
      if g != novel {
        var p :| NodeAt(c, root, p) == Some(g);
        assert NodeAt(c', root, p) == Some(g);
      }
    }
    GrowKeepsPristine(c, c', root, at, novel);
  }

  lemma GrowKeepsPristine(c: Cells, c': Cells, root: nat, at: Path, novel: nat)
    requires Separated(c, root) && Pristine(c, root) && CanGrow(c, root, at) && Unreached(c, root, novel)
    requires Grown(c, c', root, at, novel)
    ensures Pristine(c', root)
  {
    GrowAddsNode(c, c', root, at, novel);
    assert NodeAt(c, root, Root) == Some(root);
    forall a, b | NodeAt(c', root, Low(a, b)).Some? ensures c'(NodeAt(c', root, Mid(a)).value, b).pristine {
      if Low(a, b) != at {
        assert NodeAt(c, root, Low(a, b)).Some?;
        var g := NodeAt(c, root, Mid(a)).value;
        assert NodeAt(c, root, Mid(a)) != Some(novel);
        assert c(g, b).pristine;
        if at.Low? && a != at.i { assert NodeAt(c, root, Mid(at.i)) != NodeAt(c, root, Mid(a)); }
        if at.Mid? { assert NodeAt(c, root, Root) != NodeAt(c, root, Mid(a)); }
      }
    }
  }

  /** Growing the tree maps nothing. */
  lemma GrowKeepsLookups(c: Cells, c': Cells, root: nat, at: Path, novel: nat, other: Indexes)
    requires Separated(c, root) && CanGrow(c, root, at) && Unreached(c, root, novel)
    requires Grown(c, c', root, at, novel)
    requires InRange(other) && !InBigSlot(c, root, other)
    ensures !InBigSlot(c', root, other)
    ensures Lookup(c', root, other) == Lookup(c, root, other)
  {
    GrowAddsNode(c, c', root, at, novel);
    WalkIsNode(c, root, other);
    WalkIsNode(c', root, other);
    var here := Low(other.i, other.j);
    if here != at && NodeAt(c, root, here).Some? {
      assert NodeAt(c, root, here) != Some(novel);
      if at.Mid? { assert NodeAt(c, root, Root) != NodeAt(c, root, here); }
      else { assert NodeAt(c, root, Mid(at.i)) != NodeAt(c, root, here); }
    }
  }

  // ---- what a table depends on

  ghost predicate SameCells(c: Cells, c': Cells, pages: seq<nat>) {
    forall f, k :: f in pages ==> c'(f, k) == c(f, k)
  }

  /** A table is read out of its own frames only. */
  lemma TreeFramed(c: Cells, c': Cells, root: nat, pages: seq<nat>)
    requires Tree(c, root, pages) && SameCells(c, c', pages)
    ensures Tree(c', root, pages)
    ensures forall p :: NodeAt(c', root, p) == NodeAt(c, root, p)
    ensures forall k :: c'(root, k) == c(root, k)
  {
    assert NodeAt(c, root, Root) == Some(root);
    forall p ensures NodeAt(c', root, p) == NodeAt(c, root, p) {
      if p.Low? && NodeAt(c, root, Mid(p.i)).Some? { assert NodeAt(c, root, Mid(p.i)).value in pages; }
    }
    ListsFollowsNodes(c, c', root, pages);
    forall a, b | NodeAt(c', root, Low(a, b)).Some? ensures c'(NodeAt(c', root, Mid(a)).value, b).pristine {
      assert NodeAt(c, root, Low(a, b)).Some?;
      assert NodeAt(c, root, Mid(a)).value in pages;
    }
  }

  lemma LookupFramed(c: Cells, c': Cells, root: nat, pages: seq<nat>, t: Indexes)
    requires Tree(c, root, pages) && SameCells(c, c', pages)
    requires InRange(t) && !InBigSlot(c, root, t)
    ensures !InBigSlot(c', root, t)
    ensures Lookup(c', root, t) == Lookup(c, root, t)
    ensures Walk(c', root, t) == Walk(c, root, t)
  {
    TreeFramed(c, c', root, pages);
    WalkIsNode(c, root, t);
    WalkIsNode(c', root, t);
    var here := Low(t.i, t.j);
    if NodeAt(c, root, here).Some? { assert NodeAt(c, root, here).value in pages; }
  }

  /** A root frame without valid entries is an empty table. */
  lemma EmptyTree(c: Cells, root: nat)
    requires forall k :: !c(root, k).valid
    ensures Tree(c, root, [root])
    ensures forall t :: !InBigSlot(c, root, t) && Lookup(c, root, t).None?
  {
    assert NodeAt(c, root, Root) == Some(root);
  }

  // ---- the abstract page map

  /** How page numbers below `limit` split into indexes; distinct pages have distinct indexes. */
  ghost predicate Numbering(ix: nat -> Indexes, limit: nat) {
    && (forall v: nat :: InRange(ix(v)))
    && (forall v: nat, w: nat :: v < limit && w < limit && ix(v) == ix(w) ==> v == w)
  }

  /** Every mapped page below `limit` outside 1 GiB slots, with its entry. */
  function MapOf(c: Cells, root: nat, ix: nat -> Indexes, limit: nat): (v: map<nat, nat>) {
    map v | 0 <= v < limit && !InBigSlot(c, root, ix(v)) && Lookup(c, root, ix(v)).Some? ::
      Lookup(c, root, ix(v)).value.raw
  }

  /** The 1 GiB leaves: root entries that map_big filled. */
  function BigOf(c: Cells, root: nat): (v: map<nat, nat>) {
    map i | 0 <= i < 512 && c(root, i).valid && !c(root, i).pointer :: c(root, i).raw
  }

  /** A store to the last-level entry of page v changes the page map at v alone. */
  lemma LeafStoreView(c: Cells, c': Cells, root: nat, ix: nat -> Indexes, limit: nat, v: nat)
    requires Numbering(ix, limit) && v < limit && Separated(c, root)
    requires !InBigSlot(c, root, ix(v)) && Walk(c, root, ix(v)).Some?
    requires var s := Walk(c, root, ix(v)).value; Updated(c, c', s.frame, s.index)
    ensures var e := c'(Walk(c, root, ix(v)).value.frame, Walk(c, root, ix(v)).value.index);
      MapOf(c', root, ix, limit) == if e.valid then MapOf(c, root, ix, limit)[v := e.raw]
          else MapOf(c, root, ix, limit) - {v}
    ensures BigOf(c', root) == BigOf(c, root)
  {
    hide NodeAt, Walk, Separated;
    var t := ix(v);
    LeafStoreKeepsRoot(c, c', root, t);
    LeafStoreChangesOnePage(c, c', root, t, t);
    forall w | 0 <= w < limit && w != v && !InBigSlot(c, root, ix(w))
      ensures Lookup(c', root, ix(w)) == Lookup(c, root, ix(w))
    {
      LeafStoreChangesOnePage(c, c', root, t, ix(w));
    }
  }

  /** Hanging a cleared frame at an empty entry maps nothing. */
  lemma GrowView(c: Cells, c': Cells, root: nat, ix: nat -> Indexes, limit: nat, at: Path, novel: nat)
    requires Numbering(ix, limit) && Separated(c, root) && CanGrow(c, root, at) && Unreached(c, root, novel)
    requires Grown(c, c', root, at, novel)
    ensures MapOf(c', root, ix, limit) == MapOf(c, root, ix, limit)
    ensures BigOf(c', root) == BigOf(c, root)
  {
    GrowAddsNode(c, c', root, at, novel);
    forall w | 0 <= w < limit && !InBigSlot(c, root, ix(w))
      ensures !InBigSlot(c', root, ix(w)) && Lookup(c', root, ix(w)) == Lookup(c, root, ix(w))
    {
      GrowKeepsLookups(c, c', root, at, novel, ix(w));
    }
    forall w | 0 <= w < limit && InBigSlot(c, root, ix(w)) ensures InBigSlot(c', root, ix(w)) {
      assert c'(root, ix(w).i) == c(root, ix(w).i);
    }
  }

  /** Both views are read out of the table's own frames. */
  lemma ViewFramed(c: Cells, c': Cells, root: nat, pages: seq<nat>, ix: nat -> Indexes, limit: nat)
    requires Numbering(ix, limit) && Tree(c, root, pages) && SameCells(c, c', pages)
    ensures MapOf(c', root, ix, limit) == MapOf(c, root, ix, limit)
    ensures BigOf(c', root) == BigOf(c, root)
  {
    TreeFramed(c, c', root, pages);
    forall w | 0 <= w < limit && !InBigSlot(c, root, ix(w)) ensures Lookup(c', root, ix(w)) == Lookup(c, root, ix(w)) {
      LookupFramed(c, c', root, pages, ix(w));
    }
  }

  /** All that adding one node does and does not do. */
  lemma GrowTable(c: Cells, c': Cells, root: nat, pages: seq<nat>, ix: nat -> Indexes, limit: nat, at: Path, novel: nat)
    requires Numbering(ix, limit) && Tree(c, root, pages) && CanGrow(c, root, at) && novel !in pages
    requires Grown(c, c', root, at, novel)
    ensures Tree(c', root, pages + [novel])
    ensures MapOf(c', root, ix, limit) == MapOf(c, root, ix, limit)
    ensures BigOf(c', root) == BigOf(c, root)
    ensures NodeAt(c', root, at) == Some(novel)
    ensures forall p :: p != at ==> NodeAt(c', root, p) == NodeAt(c, root, p)
  {
    GrowAddsNode(c, c', root, at, novel);
    GrowKeepsTree(c, c', root, pages, at, novel);
    GrowView(c, c', root, ix, limit, at, novel);
  }

  /** Filling an empty root entry with a 1 GiB leaf moves no node. */
  lemma BigStoreKeepsTree(c: Cells, c': Cells, root: nat, pages: seq<nat>, i: nat)
    requires Tree(c, root, pages)
    requires i < 512 && !c(root, i).valid && Updated(c, c', root, i)
    requires c'(root, i).valid && !c'(root, i).pointer
    ensures Tree(c', root, pages)
    ensures forall p :: NodeAt(c', root, p) == NodeAt(c, root, p)
  {
    forall p ensures NodeAt(c', root, p) == NodeAt(c, root, p) {
      if p.Low? && NodeAt(c, root, Mid(p.i)).Some? { assert NodeAt(c, root, Mid(p.i)) != NodeAt(c, root, Root); }
    }
    ListsFollowsNodes(c, c', root, pages);
    forall a, b | NodeAt(c', root, Low(a, b)).Some? ensures c'(NodeAt(c', root, Mid(a)).value, b).pristine {
      assert NodeAt(c, root, Low(a, b)).Some?;
      assert NodeAt(c, root, Mid(a)) != NodeAt(c, root, Root);
    }
  }

  /** It adds that leaf and maps no 4 KiB page. */
  lemma BigStoreView(c: Cells, c': Cells, root: nat, pages: seq<nat>, ix: nat -> Indexes, limit: nat, i: nat)
    requires Numbering(ix, limit) && Tree(c, root, pages)
    requires i < 512 && !c(root, i).valid && Updated(c, c', root, i)
    requires c'(root, i).valid && !c'(root, i).pointer
    ensures MapOf(c', root, ix, limit) == MapOf(c, root, ix, limit)
    ensures BigOf(c', root) == BigOf(c, root)[i := c'(root, i).raw]
  {
    hide Separated, Lists, Pristine;
    BigStoreKeepsTree(c, c', root, pages, i);
    forall w | 0 <= w < limit && !InBigSlot(c, root, ix(w)) && ix(w).i != i
      ensures Lookup(c', root, ix(w)) == Lookup(c, root, ix(w))
    {
      var t := ix(w);
      WalkIsNode(c, root, t);
      WalkIsNode(c', root, t);
      LowIsNotRoot(c, root, t.i, t.j);
    }
  }

  lemma LowIsNotRoot(c: Cells, root: nat, i: nat, j: nat)
    requires Separated(c, root)
    ensures NodeAt(c, root, Low(i, j)) != Some(root)
  {
    assert NodeAt(c, root, Root) == Some(root);
  }
}
