/**
 * File descriptors, shared files and pipe ends across processes (src/syscall/file.rs, src/process/process.rs,
 * src/device/pipe.rs). A file is named by the order of its creation; refs is the strong count of its Arc; closed logs
 * the calls of File::close.
 */
module Descriptors {
  import opened Basics

  type Table = seq<Option<nat>>

  datatype Kind = Plain | Reader(pipe: nat) | Writer(pipe: nat)

  datatype Pipe = Pipe(reader: nat, writer: nat, readOpen: bool, writeOpen: bool)

  datatype World = World(tables: map<nat, Table>, refs: seq<nat>, kinds: seq<Kind>, pipes: seq<Pipe>, closed: seq<nat>)

  ghost predicate Names(tables: map<nat, Table>, p: nat, i: nat, f: nat) {
    p in tables && i < |tables[p]| && tables[p][i] == Some(f)
  }

  /** The descriptors that name file f. */
  ghost function Holders(tables: map<nat, Table>, f: nat): (r: set<(nat, nat)>)
    ensures forall p: nat, i: nat {:trigger Names(tables, p, i, f)} {:trigger (p, i) in r} :: (p, i) in r <==>
      Names(tables, p, i, f)
  {
    set p, i | p in tables && 0 <= i < |tables[p]| && tables[p][i] == Some(f) :: (p, i)
  }

  /** The strong count is the number of descriptors. */
  ghost predicate RefOk(w: World, f: nat)
    requires f < |w.refs|
  {
    w.refs[f] == |Holders(w.tables, f)|
  }

  /** close has run exactly once if no descriptor is left, and never otherwise. */
  ghost predicate CloseOk(w: World, f: nat)
    requires f < |w.refs|
  {
    multiset(w.closed)[f] == if w.refs[f] == 0 then 1 else 0
  }

  /** An end of a pipe is open exactly while some descriptor names it. */
  ghost predicate PipeOk(w: World, q: nat)
    requires q < |w.pipes|
  {
    && w.pipes[q].reader < |w.refs| == |w.kinds| && w.pipes[q].writer < |w.refs|
    && w.kinds[w.pipes[q].reader] == Reader(q) && w.kinds[w.pipes[q].writer] == Writer(q)
    && w.pipes[q].readOpen == (w.refs[w.pipes[q].reader] > 0)
    && w.pipes[q].writeOpen == (w.refs[w.pipes[q].writer] > 0)
  }

  ghost predicate KindOk(w: World, f: nat)
    requires f < |w.kinds|
  {
    match w.kinds[f]
    case Plain => true
    case Reader(q) => q < |w.pipes| && w.pipes[q].reader == f
    case Writer(q) => q < |w.pipes| && w.pipes[q].writer == f
  }

  ghost predicate NamesOk(w: World) {
    && |w.kinds| == |w.refs| && (forall f :: f in w.closed ==> f < |w.refs|)
    && (forall p: nat, i: nat, f: nat {:trigger Names(w.tables, p, i, f)} :: Names(w.tables, p, i, f) ==> f < |w.refs|)
  }

  ghost predicate Inv(w: World) {
    && NamesOk(w)
    && (forall f {:trigger RefOk(w, f)} :: 0 <= f < |w.refs| ==> RefOk(w, f))
    && (forall f {:trigger CloseOk(w, f)} :: 0 <= f < |w.refs| ==> CloseOk(w, f))
    && (forall f {:trigger KindOk(w, f)} :: 0 <= f < |w.refs| ==> KindOk(w, f))
    && (forall q {:trigger PipeOk(w, q)} :: 0 <= q < |w.pipes| ==> PipeOk(w, q))
  }

  // ---- one reference more, one reference less

  function WithSlot(tables: map<nat, Table>, p: nat, i: nat, v: Option<nat>): map<nat, Table>
    requires p in tables && i < |tables[p]|
  {
    tables[p := tables[p][i := v]]
  }

  /** A clone of file f is stored in an empty slot. */
  function Acquire(w: World, p: nat, i: nat, f: nat): World
    requires p in w.tables && i < |w.tables[p]| && f < |w.refs|
  {
    w.(tables := WithSlot(w.tables, p, i, Some(f)), refs := w.refs[f := w.refs[f] + 1])
  }

  /** PipeFile::close clears the flag of its end; the other files do nothing. */
  function Shut(pipes: seq<Pipe>, kind: Kind): (r: seq<Pipe>)
    ensures |r| == |pipes|
  {
    match kind
    case Plain => pipes
    case Reader(q) => if q < |pipes| then pipes[q := pipes[q].(readOpen := false)] else pipes
    case Writer(q) => if q < |pipes| then pipes[q := pipes[q].(writeOpen := false)] else pipes
  }

  /** The file in slot i is closed if this is its last reference; then the slot is emptied. */
  function Release(w: World, p: nat, i: nat, f: nat): World
    requires p in w.tables && i < |w.tables[p]| && f < |w.refs| == |w.kinds| && w.refs[f] > 0
  {
    w.(tables := WithSlot(w.tables, p, i, None), refs := w.refs[f := w.refs[f] - 1],
       closed := if w.refs[f] > 1 then w.closed else w.closed + [f],
       pipes := if w.refs[f] > 1 then w.pipes else Shut(w.pipes, w.kinds[f]))
  }

  lemma SlotSet(tables: map<nat, Table>, p: nat, i: nat, f: nat, g: nat)
    requires p in tables && i < |tables[p]| && tables[p][i].None?
    ensures |Holders(WithSlot(tables, p, i, Some(f)), g)| == |Holders(tables, g)| + if f == g then 1 else 0
  {
    hide Holders;
    var t := WithSlot(tables, p, i, Some(f));
    var a, b := Holders(tables, g), Holders(t, g);
    forall r: nat, j: nat ensures (r, j) in b <==> (r, j) in a || (r == p && j == i && f == g) {
      SlotNames(tables, p, i, f, g, r, j);
    }
    assert (p, i) !in a by { SlotNames(tables, p, i, f, g, p, i); }
    HolderSets(a, b, p, i, f == g);
  }

  lemma SlotNames(tables: map<nat, Table>, p: nat, i: nat, f: nat, g: nat, r: nat, j: nat)
    requires p in tables && i < |tables[p]| && tables[p][i].None?
    ensures Names(WithSlot(tables, p, i, Some(f)), r, j, g) <==> Names(tables, r, j, g) || (r == p && j == i && f == g)
    ensures !Names(tables, p, i, g)
  {
  }

  lemma HolderSets(a: set<(nat, nat)>, b: set<(nat, nat)>, p: nat, i: nat, more: bool)
    requires (p, i) !in a
    requires forall r: nat, j: nat :: (r, j) in b <==> (r, j) in a || (r == p && j == i && more)
    ensures |b| == |a| + if more then 1 else 0
  {
    forall k: (nat, nat) ensures k in b <==> k in a || (k == (p, i) && more) { assert k == (k.0, k.1); }
    if more { assert b == a + {(p, i)}; } else { assert b == a; }
  }

  lemma SlotCleared(tables: map<nat, Table>, p: nat, i: nat, f: nat, g: nat)
    requires Names(tables, p, i, f)
    ensures |Holders(WithSlot(tables, p, i, None), g)| == |Holders(tables, g)| - if f == g then 1 else 0
  {
    var t := WithSlot(tables, p, i, None);
    assert WithSlot(t, p, i, Some(f)) == tables by { assert tables[p][i := None][i := Some(f)] == tables[p]; }
    SlotSet(t, p, i, f, g);
  }

  lemma AcquireInv(w: World, p: nat, i: nat, f: nat)
    requires Inv(w) && p in w.tables && i < |w.tables[p]| && w.tables[p][i].None? && f < |w.refs| && w.refs[f] > 0
    ensures Inv(Acquire(w, p, i, f))
  {
    hide Holders;
    var v := Acquire(w, p, i, f);
    forall r: nat, j: nat, g: nat | Names(v.tables, r, j, g)
      ensures g < |v.refs|
    {
      assert Names(w.tables, r, j, g) || g == f;
    }
    forall g | 0 <= g < |v.refs| ensures RefOk(v, g) { assert RefOk(w, g); SlotSet(w.tables, p, i, f, g); }
    forall g | 0 <= g < |v.refs| ensures CloseOk(v, g) { assert CloseOk(w, g); }
    forall g | 0 <= g < |v.refs| ensures KindOk(v, g) { assert KindOk(w, g); }
    forall q | 0 <= q < |v.pipes| ensures PipeOk(v, q) { assert PipeOk(w, q); }
  }

  lemma ReleasePipes(w: World, p: nat, i: nat, f: nat)
    requires Inv(w) && Names(w.tables, p, i, f) && w.refs[f] > 0
    ensures forall g {:trigger KindOk(Release(w, p, i, f), g)} :: 0 <= g < |w.refs| ==> KindOk(Release(w, p, i, f), g)
    ensures forall q {:trigger PipeOk(Release(w, p, i, f), q)} :: 0 <= q < |w.pipes| ==> PipeOk(Release(w, p, i, f), q)
  {
    hide Holders;
    var v := Release(w, p, i, f);
    assert KindOk(w, f);
    forall g | 0 <= g < |v.refs| ensures KindOk(v, g) { assert KindOk(w, g); }
    forall q | 0 <= q < |v.pipes| ensures PipeOk(v, q) { assert PipeOk(w, q); }
  }

  lemma ReleaseInv(w: World, p: nat, i: nat, f: nat)
    requires Inv(w) && Names(w.tables, p, i, f)
    ensures w.refs[f] > 0 && Inv(Release(w, p, i, f))
  {
    hide Holders, PipeOk, KindOk;
    assert (p, i) in Holders(w.tables, f);
    assert RefOk(w, f);
    var v := Release(w, p, i, f);
    forall r: nat, j: nat, g: nat | Names(v.tables, r, j, g) ensures g < |v.refs| { assert Names(w.tables, r, j, g); }
    forall g | 0 <= g < |v.refs| ensures RefOk(v, g) { assert RefOk(w, g); SlotCleared(w.tables, p, i, f, g); }
    forall g | 0 <= g < |v.refs| ensures CloseOk(v, g) { assert CloseOk(w, g); }
    ReleasePipes(w, p, i, f);
  }

  // ---- tables that name the same files

  ghost predicate SameNames(t: map<nat, Table>, u: map<nat, Table>) {
    forall p: nat, i: nat, f: nat {:trigger Names(t, p, i, f)} {:trigger Names(u, p, i, f)} :: Names(t, p, i, f) <==>
      Names(u, p, i, f)
  }

  lemma SameHolders(t: map<nat, Table>, u: map<nat, Table>, f: nat)
    requires SameNames(t, u)
    ensures Holders(t, f) == Holders(u, f)
  {
    forall k | k in Holders(t, f) ensures k in Holders(u, f) { assert Names(t, k.0, k.1, f); }
    forall k | k in Holders(u, f) ensures k in Holders(t, f) { assert Names(u, k.0, k.1, f); }
  }

  lemma SameNamesInv(w: World, t: map<nat, Table>)
    requires Inv(w) && SameNames(w.tables, t)
    ensures Inv(w.(tables := t))
  {
    hide Holders;
    var v := w.(tables := t);
    forall g | 0 <= g < |v.refs| ensures RefOk(v, g) { assert RefOk(w, g); SameHolders(w.tables, t, g); }
    forall g | 0 <= g < |v.refs| ensures CloseOk(v, g) { assert CloseOk(w, g); }
    forall g | 0 <= g < |v.refs| ensures KindOk(v, g) { assert KindOk(w, g); }
    forall q | 0 <= q < |v.pipes| ensures PipeOk(v, q) { assert PipeOk(w, q); }
  }

  // ---- new files

  function Create(w: World, p: nat, i: nat): World
    requires p in w.tables && i < |w.tables[p]|
  {
    w.(tables := WithSlot(w.tables, p, i, Some(|w.refs|)), refs := w.refs + [1], kinds := w.kinds + [Plain])
  }

  function CreatePipe(w: World, p: nat, i: nat, j: nat): World
    requires p in w.tables && i < |w.tables[p]| && j < |w.tables[p]|
  {
    var n, q := |w.refs|, |w.pipes|;
    w.(tables := WithSlot(WithSlot(w.tables, p, i, Some(n)), p, j, Some(n + 1)), refs := w.refs + [1, 1],
       kinds := w.kinds + [Reader(q), Writer(q)], pipes := w.pipes + [Pipe(n, n + 1, true, true)])
  }

  lemma NoHolders(w: World, f: nat)
    requires NamesOk(w) && f >= |w.refs|
    ensures |Holders(w.tables, f)| == 0
  {
    assert Holders(w.tables, f) == {};
  }

  lemma NotCounted(q: seq<nat>, x: nat)
    requires x !in q
    ensures multiset(q)[x] == 0
  {
  }

  lemma CreateInv(w: World, p: nat, i: nat)
    requires Inv(w) && p in w.tables && i < |w.tables[p]| && w.tables[p][i].None?
    ensures Inv(Create(w, p, i))
  {
    hide Holders;
    var v, n := Create(w, p, i), |w.refs|;
    forall r: nat, j: nat, g: nat | Names(v.tables, r, j, g)
      ensures g < |v.refs|
    {
      assert Names(w.tables, r, j, g) || g == n;
    }
    NoHolders(w, n);
    NotCounted(w.closed, n);
    forall g | 0 <= g < |v.refs| ensures RefOk(v, g) { assert g < n ==> RefOk(w, g); SlotSet(w.tables, p, i, n, g); }
    forall g | 0 <= g < |v.refs| ensures CloseOk(v, g) { assert g < n ==> CloseOk(w, g); }
    forall g | 0 <= g < |v.refs| ensures KindOk(v, g) { assert g < n ==> KindOk(w, g); }
    forall q | 0 <= q < |v.pipes| ensures PipeOk(v, q) { assert PipeOk(w, q); }
  }

  lemma CreatePipeInv(w: World, p: nat, i: nat, j: nat)
    requires Inv(w) && p in w.tables && i < |w.tables[p]| && j < |w.tables[p]| && i != j
    requires w.tables[p][i].None? && w.tables[p][j].None?
    ensures Inv(CreatePipe(w, p, i, j))
  {
    hide Holders;
    var v, n := CreatePipe(w, p, i, j), |w.refs|;
    forall r: nat, k: nat, g: nat | Names(v.tables, r, k, g)
      ensures g < |v.refs|
    {
      assert Names(w.tables, r, k, g) || g == n || g == n + 1;
    }
    NoHolders(w, n);
    NoHolders(w, n + 1);
    NotCounted(w.closed, n);
    NotCounted(w.closed, n + 1);
    var t := WithSlot(w.tables, p, i, Some(n));
    forall g | 0 <= g < |v.refs| ensures RefOk(v, g) {
      assert g < n ==> RefOk(w, g);
      SlotSet(w.tables, p, i, n, g);
      SlotSet(t, p, j, n + 1, g);
    }
    forall g | 0 <= g < |v.refs| ensures CloseOk(v, g) { assert g < n ==> CloseOk(w, g); }
    forall g | 0 <= g < |v.refs| ensures KindOk(v, g) { assert g < n ==> KindOk(w, g); }
    forall q | 0 <= q < |v.pipes| ensures PipeOk(v, q) { assert q < |w.pipes| ==> PipeOk(w, q); }
  }

  // ---- the operations

  const AT_FDCWD: nat := 0x1_0000_0000_0000_0000 - 100

  /** The first empty slot, or the slot past the end. */
  function FreeFd(t: Table): (fd: nat)
    ensures fd <= |t| && (fd < |t| ==> t[fd].None?) && forall i :: 0 <= i < fd ==> t[i].Some?
    decreases |t|
  {
    if t == [] then 0 else if t[0].None? then 0 else 1 + FreeFd(t[1..])
  }

  function Grown(t: Table): Table { if FreeFd(t) < |t| then t else t + [None] }

  /** The table with v in its first empty slot. */
  function Stored(t: Table, v: nat): (r: Table)
    ensures |t| <= |r| <= |t| + 1 && FreeFd(t) < |r| && r[FreeFd(t)] == Some(v)
    ensures forall i :: 0 <= i < |t| && i != FreeFd(t) ==> r[i] == t[i]
    ensures |r| == |t| + 1 ==> FreeFd(t) == |t|
  {
    Grown(t)[FreeFd(t) := Some(v)]
  }

  /** What a child inherits of the first k descriptors of its parent: those from 3 on, up to the last one in use. */
  function Inherited(t: Table, k: nat): Table
    requires k <= |t|
  {
    if k <= 3 then [] else if t[k - 1].Some? then t[3..k] else Inherited(t, k - 1)
  }

  lemma {:induction false} InheritedIs(t: Table, k: nat)
    requires k <= |t|
    ensures |Inherited(t, k)| <= (if k <= 3 then 0 else k - 3)
    ensures forall i :: 0 <= i < |Inherited(t, k)| ==> Inherited(t, k)[i] == t[3 + i]
    ensures forall i :: 3 + |Inherited(t, k)| <= i < k ==> t[i].None?
  {
    if k > 3 && t[k - 1].None? { InheritedIs(t, k - 1); }
  }

  class FileTables {
    var tables: map<nat, Table>
    var refs: seq<nat>
    var kinds: seq<Kind>
    var pipes: seq<Pipe>
    var closed: seq<nat>

    ghost function Now(): World
      reads this
    {
      World(tables, refs, kinds, pipes, closed)
    }

    constructor ()
      ensures Inv(Now()) && Now() == World(map[], [], [], [], [])
    {
      tables, refs, kinds, pipes, closed := map[], [], [], [], [];
    }

    /** allocate_fd: an empty slot of p, appended if there is none. */
    method AllocateFd(p: nat) returns (fd: nat)
      requires p in tables
      modifies this`tables
      ensures fd == FreeFd(old(tables[p])) && tables == old(tables)[p := Grown(old(tables[p]))]
      ensures fd < |tables[p]| && tables[p][fd].None? && SameNames(old(tables), tables)
    {
      fd := 0;
      while fd < |tables[p]| && tables[p][fd].Some?
        invariant fd <= |tables[p]| && FreeFd(tables[p]) == fd + FreeFd(tables[p][fd..])
      {
        fd := fd + 1;
      }
      assert FreeFd(tables[p]) == fd;
      if fd == |tables[p]| {
        tables := tables[p := tables[p] + [None]];
      }
      assert tables == old(tables)[p := Grown(old(tables[p]))];
    }

    /** A new file that no other descriptor names goes into the first empty slot (open). */
    method Open(p: nat) returns (fd: nat)
      requires Inv(Now()) && p in tables
      modifies this
      ensures Inv(Now()) && closed == old(closed) && pipes == old(pipes) && kinds == old(kinds) + [Plain]
      ensures |refs| == |old(refs)| + 1
      ensures fd == FreeFd(old(tables[p])) && tables == old(tables)[p := Stored(old(tables[p]), |old(refs)|)]
    {
      hide Inv;
      fd := AllocateFd(p);
      SameNamesInv(old(Now()), tables);
      CreateInv(Now(), p, fd);
      tables := tables[p := tables[p][fd := Some(|refs|)]];
      refs, kinds := refs + [1], kinds + [Plain];
    }

    method Close(p: nat, fd: nat) returns (ok: bool)
      requires Inv(Now()) && p in tables
      modifies this
      ensures Inv(Now()) && |refs| == |old(refs)| && kinds == old(kinds) && SameEnds(old(pipes), pipes)
        && ok == (fd < |old(tables[p])| && old(tables[p])[fd].Some?)
      ensures !ok ==> Now() == old(Now())
      ensures ok ==> tables == old(tables)[p := old(tables[p])[fd := None]]
      ensures ok ==>
        closed == old(closed) + if old(Holders(tables, tables[p][fd].value)) == {(p, fd)}
            then [old(tables[p][fd].value)] else []
    {
      if fd >= |tables[p]| || tables[p][fd].None? {
        return false;
      }
      hide Inv;
      var f := tables[p][fd].value;
      LastHolder(Now(), p, fd, f);
      ReleaseInv(Now(), p, fd, f);
      DropSlot(p, fd, f);
      ok := true;
    }

    /** File::close if this is the last reference, then the slot is emptied. */
    method DropSlot(p: nat, fd: nat, f: nat)
      requires p in tables && fd < |tables[p]| && f < |refs| == |kinds| && refs[f] > 0
      modifies this
      ensures Now() == Release(old(Now()), p, fd, f)
    {
      if refs[f] <= 1 {
        match kinds[f] {
          case Plain =>
          case Reader(q) => if q < |pipes| { pipes := pipes[q := pipes[q].(readOpen := false)]; }
          case Writer(q) => if q < |pipes| { pipes := pipes[q := pipes[q].(writeOpen := false)]; }
        }
        closed := closed + [f];
      }
      tables := tables[p := tables[p][fd := None]];
      refs := refs[f := refs[f] - 1];
    }

    method Dup(p: nat, fd: nat) returns (r: Option<nat>)
      requires Inv(Now()) && p in tables
      modifies this
      ensures Inv(Now()) && closed == old(closed) && pipes == old(pipes)
        && |refs| == |old(refs)| + if fd == AT_FDCWD then 1 else 0
      ensures kinds == old(kinds) + if fd == AT_FDCWD then [Plain] else []
      ensures fd == AT_FDCWD ==> r.Some? && tables == old(tables)[p := Stored(old(tables[p]), |old(refs)|)]
      ensures fd != AT_FDCWD ==> (r.Some? <==> fd < |old(tables[p])| && old(tables[p])[fd].Some?)
      ensures r.None? ==> Now() == old(Now())
      ensures fd != AT_FDCWD && r.Some? ==> r.value == FreeFd(old(tables[p]))
      ensures fd != AT_FDCWD && r.Some? ==> tables == old(tables)[p := Stored(old(tables[p]), old(tables[p])[fd].value)]
    {
      if fd == AT_FDCWD {
        var new_ := Open(p);
        return Some(new_);
      }
      if fd >= |tables[p]| || tables[p][fd].None? {
        return None;
      }
      hide Inv;
      var f := tables[p][fd].value;
      HeldIsCounted(Now(), p, fd, f);
      var i := AllocateFd(p);
      SameNamesInv(old(Now()), tables);
      AcquireInv(Now(), p, i, f);
      tables := tables[p := tables[p][i := Some(f)]];
      refs := refs[f := refs[f] + 1];
      r := Some(i);
    }

    method Pipe2(p: nat) returns (i: nat, j: nat)
      requires Inv(Now()) && p in tables
      modifies this
      ensures Inv(Now()) && closed == old(closed) && |refs| == |old(refs)| + 2
      ensures pipes == old(pipes) + [Pipe(|old(refs)|, |old(refs)| + 1, true, true)]
      ensures kinds == old(kinds) + [Reader(|old(pipes)|), Writer(|old(pipes)|)]
      ensures tables == old(tables)[p := Stored(Stored(old(tables[p]), |old(refs)|), |old(refs)| + 1)]
      ensures i == FreeFd(old(tables[p])) && j == FreeFd(Stored(old(tables[p]), |old(refs)|)) && i != j
    {
      hide Inv, SameNames, FreeFd;
      ghost var t := tables;
      var n, q := |refs|, |pipes|;
      i := AllocateFd(p);
      ghost var t1 := tables;
      tables := tables[p := tables[p][i := Some(n)]];
      ghost var t2 := tables;
      j := AllocateFd(p);
      PipeTables(t, t1, t2, tables, p, i, n);
      ghost var u := tables[p := tables[p][i := None]];
      SameNamesInv(old(Now()), u);
      CreatePipeInv(Now().(tables := u), p, i, j);
      SlotBack(tables[p], i, Some(n));
      assert WithSlot(u, p, i, Some(n)) == tables;
      tables := tables[p := tables[p][j := Some(n + 1)]];
      refs, kinds, pipes := refs + [1, 1], kinds + [Reader(q), Writer(q)], pipes + [Pipe(n, n + 1, true, true)];
    }

    /** Process::new: standard input and twice standard output, as files of its own. */
    method Spawn(p: nat)
      requires Inv(Now()) && p !in tables
      modifies this
      ensures Inv(Now()) && closed == old(closed) && pipes == old(pipes)
      ensures kinds == old(kinds) + [Plain, Plain, Plain]
      ensures |refs| == |old(refs)| + 3 && tables == old(tables)[p := Stdio(|old(refs)|)]
    {
      hide Inv, SameNames;
      ghost var t := tables;
      tables := tables[p := []];
      NewTable(t, p);
      SameNamesInv(old(Now()), tables);
      Push(p);
      Push(p);
      Push(p);
      assert tables[p] == Stdio(|old(refs)|);
      assert tables == t[p := Stdio(|old(refs)|)];
      assert kinds == old(kinds) + [Plain] + [Plain] + [Plain] == old(kinds) + [Plain, Plain, Plain];
    }

    /** files.push of a new file. */
    method Push(p: nat)
      requires Inv(Now()) && p in tables
      modifies this
      ensures Inv(Now()) && closed == old(closed) && pipes == old(pipes)
      ensures kinds == old(kinds) + [Plain]
      ensures |refs| == |old(refs)| + 1 && tables == old(tables)[p := old(tables[p]) + [Some(|old(refs)|)]]
    {
      hide Inv, SameNames;
      var i := |tables[p]|;
      tables := tables[p := tables[p] + [None]];
      Padded(old(tables), p);
      SameNamesInv(old(Now()), tables);
      CreateInv(Now(), p, i);
      tables := tables[p := tables[p][i := Some(|refs|)]];
      refs, kinds := refs + [1], kinds + [Plain];
      assert tables[p] == old(tables[p]) + [Some(|old(refs)|)];
    }

    /** The files of a fork: the child keeps its own first three and shares the others with its parent. */
    method Fork(parent: nat, child: nat)
      requires Inv(Now()) && parent in tables && child !in tables
      modifies this
      ensures Inv(Now()) && closed == old(closed) && pipes == old(pipes) && |refs| == |old(refs)| + 3
      ensures kinds == old(kinds) + [Plain, Plain, Plain]
      ensures tables == old(tables)[child := Stdio(|old(refs)|) + Inherited(old(tables[parent]), |old(tables[parent])|)]
    {
      hide Inv, Inherited;
      ghost var t := tables;
      Spawn(child);
      var from := tables[parent];
      ghost var stdio := tables[child];
      assert Inherited(from, 0) == [] by { InheritedIs(from, 0); }
      assert stdio + [] == stdio;
      for fd := 0 to |from|
        invariant Inv(Now()) && closed == old(closed) && pipes == old(pipes) && |refs| == |old(refs)| + 3
        invariant kinds == old(kinds) + [Plain, Plain, Plain]
        invariant tables == t[child := stdio + Inherited(from, fd)]
      {
        InheritedStep(from, fd);
        if fd >= 3 && from[fd].Some? {
          Share(parent, child, fd);
          assert tables[child] == stdio + Inherited(from, fd + 1);
        }
      }
    }

    /** The child's table is filled up to fd, which then names the parent's file. */
    method Share(parent: nat, child: nat, fd: nat)
      requires Inv(Now()) && parent in tables && child in tables && parent != child
      requires |tables[child]| <= fd < |tables[parent]| && tables[parent][fd].Some?
      modifies this`tables, this`refs
      ensures Inv(Now()) && child in tables && |refs| == |old(refs)|
      ensures tables == old(tables)[child := tables[child]] && |tables[child]| == fd + 1
      ensures tables[child] ==
          old(tables[child]) + seq(fd - |old(tables[child])|, _ => None) + [old(tables[parent])[fd]]
    {
      hide Inv, SameNames;
      var f := tables[parent][fd].value;
      HeldIsCounted(Now(), parent, fd, f);
      ghost var mine := tables[child];
      while |tables[child]| <= fd
        invariant child in tables && |mine| <= |tables[child]| <= fd + 1
          && tables == old(tables)[child := tables[child]]
        invariant tables[child] == mine + seq(|tables[child]| - |mine|, _ => None)
        invariant Inv(Now()) && refs == old(refs)
      {
        ghost var u := tables;
        tables := tables[child := tables[child] + [None]];
        Padded(u, child);
        SameNamesInv(Now().(tables := u), tables);
      }
      AcquireInv(Now(), child, fd, f);
      tables := tables[child := tables[child][fd := Some(f)]];
      refs := refs[f := refs[f] + 1];
    }

    /** exit: the files are popped one by one, and each is closed if nobody else holds it. */
    method Exit(p: nat)
      requires Inv(Now()) && p in tables
      modifies this
      ensures Inv(Now()) && tables == old(tables)[p := []] && old(closed) <= closed && |refs| == |old(refs)|
      ensures kinds == old(kinds) && SameEnds(old(pipes), pipes)
    {
      hide Inv, SameNames;
      ghost var t := tables;
      while tables[p] != []
        invariant p in tables && tables == t[p := tables[p]] && Inv(Now()) && old(closed) <= closed
          && |refs| == |old(refs)|
        invariant kinds == old(kinds) && SameEnds(old(pipes), pipes)
        decreases |tables[p]|
      {
        var last := |tables[p]| - 1;
        var file := tables[p][last];
        if file.Some? {
          ReleaseInv(Now(), p, last, file.value);
          NamedExists(Now(), p, last, file.value);
          DropSlot(p, last, file.value);
        }
        ghost var u := tables;
        tables := tables[p := tables[p][..last]];
        Padded(tables, p);
        assert tables[p] + [None] == u[p];
        assert tables[p := tables[p] + [None]] == u;
        SameNamesBack(tables, u);
        SameNamesInv(Now().(tables := u), tables);
      }
    }
  }

  datatype Op =
    | NewOp(p: nat) | OpenOp(p: nat) | CloseOp(p: nat, fd: nat) | DupOp(p: nat, fd: nat)
    | PipeOp(p: nat) | ForkOp(p: nat, child: nat) | ExitOp(p: nat)

  /** The same pipes, with the same files as their ends. */
  ghost predicate SameEnds(a: seq<Pipe>, b: seq<Pipe>) {
    |b| == |a| && forall q :: 0 <= q < |a| ==> b[q].reader == a[q].reader && b[q].writer == a[q].writer
  }

  predicate Opens(t: Table, fd: nat) { fd < |t| && t[fd].Some? }

  /** The descriptors after an operation; calls for a process that does not exist are skipped. */
  function TablesAfter(w: World, op: Op): map<nat, Table> {
    var n := |w.refs|;
    match op
    case NewOp(p) => if p in w.tables then w.tables else w.tables[p := Stdio(n)]
    case OpenOp(p) => if p !in w.tables then w.tables else w.tables[p := Stored(w.tables[p], n)]
    case CloseOp(p, fd) =>
      if p in w.tables && Opens(w.tables[p], fd) then w.tables[p := w.tables[p][fd := None]] else w.tables
    case DupOp(p, fd) =>
      if p !in w.tables then w.tables
      else if fd == 0xFFFF_FFFF_FFFF_FF9C then w.tables[p := Stored(w.tables[p], n)]
      else if Opens(w.tables[p], fd) then w.tables[p := Stored(w.tables[p], w.tables[p][fd].value)]
      else w.tables
    case PipeOp(p) => if p !in w.tables then w.tables else w.tables[p := Stored(Stored(w.tables[p], n), n + 1)]
    case ForkOp(p, c) =>
      if p !in w.tables || c in w.tables then w.tables
      else w.tables[c := Stdio(n) + Inherited(w.tables[p], |w.tables[p]|)]
    case ExitOp(p) => if p !in w.tables then w.tables else w.tables[p := []]
  }

  /** The files an operation creates. */
  function NewKinds(w: World, op: Op): seq<Kind> {
    match op
    case NewOp(p) => if p in w.tables then [] else [Plain, Plain, Plain]
    case OpenOp(p) => if p in w.tables then [Plain] else []
    case DupOp(p, fd) => if p in w.tables && fd == AT_FDCWD then [Plain] else []
    case PipeOp(p) => if p in w.tables then [Reader(|w.pipes|), Writer(|w.pipes|)] else []
    case ForkOp(p, c) => if p in w.tables && c !in w.tables then [Plain, Plain, Plain] else []
    case _ => []
  }

  function NewPipes(w: World, op: Op): seq<Pipe> {
    if op.PipeOp? && op.p in w.tables then [Pipe(|w.refs|, |w.refs| + 1, true, true)] else []
  }

  /** What an operation does: the descriptors, the files and the pipes afterwards; what was closed is only added to. */
  ghost predicate StepOf(v: World, op: Op, w: World) {
    && Inv(v) && Inv(w) && v.closed <= w.closed
    && w.tables == TablesAfter(v, op) && w.kinds == v.kinds + NewKinds(v, op)
      && SameEnds(v.pipes + NewPipes(v, op), w.pipes)
  }

  method Perform(f: FileTables, op: Op)
    requires Inv(f.Now())
    modifies f
    ensures StepOf(old(f.Now()), op, f.Now())
  {
    hide Inv, SameNames, FreeFd, Inherited;
    match op
    case NewOp(p) => if p !in f.tables { f.Spawn(p); }
    case OpenOp(p) => if p in f.tables { var fd := f.Open(p); }
    case CloseOp(p, fd) => if p in f.tables { var ok := f.Close(p, fd); }
    case DupOp(p, fd) => if p in f.tables { var r := f.Dup(p, fd); }
    case PipeOp(p) => if p in f.tables { var i, j := f.Pipe2(p); }
    case ForkOp(p, c) => if p in f.tables && c !in f.tables { f.Fork(p, c); }
    case ExitOp(p) => if p in f.tables { f.Exit(p); }
  }

  /** In every run of such calls, every state is the step of the one before by its call, and satisfies the invariant. */
  method Run(ops: seq<Op>) returns (f: FileTables, ghost trace: seq<World>)
    ensures |trace| == |ops| + 1 && trace[0] == World(map[], [], [], [], []) && trace[|ops|] == f.Now() && fresh(f)
    ensures forall k :: 0 <= k < |ops| ==> StepOf(trace[k], ops[k], trace[k + 1])
  {
    hide Inv, StepOf;
    f := new FileTables();
    trace := [f.Now()];
    for n := 0 to |ops|
      invariant |trace| == n + 1 && trace[0] == World(map[], [], [], [], []) && trace[n] == f.Now() && fresh(f)
        && Inv(f.Now())
      invariant forall k :: 0 <= k < n ==> StepOf(trace[k], ops[k], trace[k + 1])
    {
      Perform(f, ops[n]);
      StepInv(trace[n], ops[n], f.Now());
      trace := trace + [f.Now()];
    }
  }

  lemma StepInv(v: World, op: Op, w: World)
    requires StepOf(v, op, w)
    ensures Inv(v) && Inv(w)
  {
  }

  /** A step leaves no choice but the order in which one exit closes its files. */
  lemma StepDetermined(v: World, op: Op, w: World, x: World)
    requires StepOf(v, op, w) && StepOf(v, op, x)
    ensures x.tables == w.tables && x.kinds == w.kinds && x.refs == w.refs && x.pipes == w.pipes
    ensures multiset(x.closed) == multiset(w.closed)
  {
    hide TablesAfter, NewKinds, NewPipes, Holders;
    forall f | 0 <= f < |w.refs| ensures x.refs[f] == w.refs[f] { assert RefOk(w, f) && RefOk(x, f); }
    assert x.refs == w.refs;
    forall q | 0 <= q < |w.pipes| ensures x.pipes[q] == w.pipes[q] { assert PipeOk(w, q) && PipeOk(x, q); }
    forall f: nat ensures multiset(x.closed)[f] == multiset(w.closed)[f] {
      if f < |w.refs| {
        assert CloseOk(w, f) && CloseOk(x, f);
      } else {
        NotCounted(w.closed, f);
        NotCounted(x.closed, f);
      }
    }
  }

  /** A file's close has run once if no descriptor names it any more, and not at all if one does. */
  lemma ClosedWhenUnnamed(w: World, f: nat)
    requires Inv(w) && f < |w.refs|
    ensures multiset(w.closed)[f] == if exists p: nat, i: nat :: Names(w.tables, p, i, f) then 0 else 1
  {
    hide KindOk, PipeOk;
    assert RefOk(w, f) && CloseOk(w, f);
    CountedIffNamed(w.tables, f);
  }

  /** close runs in exactly that step in which the last descriptor of the file goes away. */
  lemma ClosedAtTheLastMoment(v: World, op: Op, w: World, f: nat)
    requires StepOf(v, op, w) && f < |v.refs|
    ensures multiset(w.closed)[f] > multiset(v.closed)[f] <==>
      && (exists p: nat, i: nat :: Names(v.tables, p, i, f))
      && !(exists p: nat, i: nat :: Names(w.tables, p, i, f))
  {
    hide Inv, TablesAfter, NewKinds, NewPipes;
    StepGrows(v, op, w);
    ClosedWhenUnnamed(v, f);
    ClosedWhenUnnamed(w, f);
    assert w.closed == v.closed + w.closed[|v.closed|..];
    assert multiset(w.closed) == multiset(v.closed) + multiset(w.closed[|v.closed|..]);
  }

  lemma StepGrows(v: World, op: Op, w: World)
    requires StepOf(v, op, w)
    ensures |v.refs| <= |w.refs|
  {
    hide TablesAfter, NewKinds, NewPipes, RefOk, CloseOk, KindOk, PipeOk;
  }

  lemma CountedIffNamed(t: map<nat, Table>, f: nat)
    ensures |Holders(t, f)| > 0 <==> exists p: nat, i: nat :: Names(t, p, i, f)
  {
    var h := Holders(t, f);
    if |h| > 0 {
      var k :| k in h;
      assert Names(t, k.0, k.1, f);
    } else {
      assert h == {};
      forall p: nat, i: nat ensures !Names(t, p, i, f) { assert (p, i) !in h; }
    }
  }

  /** The end of a pipe is open exactly while some descriptor of some process names it. */
  lemma EndsOpenWhileNamed(w: World, q: nat)
    requires Inv(w) && q < |w.pipes|
    ensures w.pipes[q].readOpen <==> exists p: nat, i: nat :: Names(w.tables, p, i, w.pipes[q].reader)
    ensures w.pipes[q].writeOpen <==> exists p: nat, i: nat :: Names(w.tables, p, i, w.pipes[q].writer)
  {
    hide KindOk, CloseOk;
    assert PipeOk(w, q);
    assert RefOk(w, w.pipes[q].reader) && RefOk(w, w.pipes[q].writer);
    CountedIffNamed(w.tables, w.pipes[q].reader);
    CountedIffNamed(w.tables, w.pipes[q].writer);
  }

  function Stdio(n: nat): Table { [Some(n), Some(n + 1), Some(n + 2)] }

  lemma NewTable(t: map<nat, Table>, p: nat)
    requires p !in t
    ensures SameNames(t, t[p := []])
  {
    var u := t[p := []];
    forall r: nat, k: nat, f: nat ensures Names(t, r, k, f) <==> Names(u, r, k, f) {}
  }

  lemma Padded(t: map<nat, Table>, p: nat)
    requires p in t
    ensures SameNames(t, t[p := t[p] + [None]])
  {
    var u := t[p := t[p] + [None]];
    forall r: nat, k: nat, f: nat ensures Names(t, r, k, f) <==> Names(u, r, k, f) {}
  }

  lemma SameNamesBack(t: map<nat, Table>, u: map<nat, Table>)
    requires SameNames(t, u)
    ensures SameNames(u, t)
  {
  }

  lemma NamedExists(w: World, p: nat, i: nat, f: nat)
    requires Inv(w) && Names(w.tables, p, i, f)
    ensures f < |w.refs| == |w.kinds|
  {
  }

  lemma InheritedStep(t: Table, fd: nat)
    requires fd < |t|
    ensures !(fd >= 3 && t[fd].Some?) ==> Inherited(t, fd + 1) == Inherited(t, fd)
    ensures fd >= 3 && t[fd].Some? ==>
              && |Inherited(t, fd)| <= fd - 3
              && Inherited(t, fd + 1) == Inherited(t, fd) + seq(fd - 3 - |Inherited(t, fd)|, _ => None) + [t[fd]]
  {
    InheritedIs(t, fd);
  }

  /** Taking the new reader out again leaves what was named before. */
  lemma PipeTables(t: map<nat, Table>, t1: map<nat, Table>, t2: map<nat, Table>, t3: map<nat, Table>, p: nat, i: nat,
                   n: nat)
    requires p in t && p in t1 && i < |t1[p]| && t1[p][i].None? && SameNames(t, t1) && t1 == t[p := t1[p]]
    requires t2 == t1[p := t1[p][i := Some(n)]] && SameNames(t2, t3) && p in t3 && t3 == t2[p := t3[p]]
    requires t2[p] <= t3[p]
    ensures i < |t3[p]| && SameNames(t, t3[p := t3[p][i := None]])
  {
    var u := t3[p := t3[p][i := None]];
    forall r: nat, k: nat, f: nat ensures Names(t, r, k, f) <==> Names(u, r, k, f) {
      assert Names(t, r, k, f) <==> Names(t1, r, k, f);
      assert Names(t2, r, k, f) <==> Names(t3, r, k, f);
    }
  }

  lemma SlotBack(t: Table, i: nat, v: Option<nat>)
    requires i < |t| && t[i] == v
    ensures t[i := None][i := v] == t
  {
  }

  lemma HeldIsCounted(w: World, p: nat, i: nat, f: nat)
    requires Inv(w) && Names(w.tables, p, i, f)
    ensures f < |w.refs| && w.refs[f] > 0
  {
    ReleaseInv(w, p, i, f);
  }

  /** The count is one exactly if no other descriptor names the file. */
  lemma LastHolder(w: World, p: nat, i: nat, f: nat)
    requires Inv(w) && Names(w.tables, p, i, f)
    ensures f < |w.refs| == |w.kinds| && (w.refs[f] > 1 <==> Holders(w.tables, f) != {(p, i)})
  {
    hide Holders;
    assert RefOk(w, f);
    var h := Holders(w.tables, f);
    assert (p, i) in h;
    assert h == {(p, i)} + (h - {(p, i)});
    if h != {(p, i)} {
      assert h - {(p, i)} != {};
      assert |h| == 1 + |h - {(p, i)}|;
    }
  }
}
