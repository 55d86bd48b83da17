/**
 * dup3 (src/syscall/file.rs): it closes the file that its target names without asking whether another descriptor names
 * it too. When that keeps the descriptors and the files in step, and when not.
 */
module Duplicates {
  import opened Basics
  import opened Descriptors

  /** File::close without asking, then the slot is emptied. */
  function Forced(w: World, p: nat, i: nat, g: nat): World
    requires p in w.tables && i < |w.tables[p]| && g < |w.refs| == |w.kinds| && w.refs[g] > 0
  {
    w.(tables := WithSlot(w.tables, p, i, None), refs := w.refs[g := w.refs[g] - 1], closed := w.closed + [g],
       pipes := Shut(w.pipes, w.kinds[g]))
  }

  /** There is a file to duplicate: the working directory, opened anew, or what the descriptor names. */
  predicate HasSource(w: World, p: nat, fd: nat) { p in w.tables && (fd == AT_FDCWD || Opens(w.tables[p], fd)) }

  /** The world without what the target named. */
  ghost function Cleared(w: World, p: nat, to: nat): (v: World)
    requires Inv(w) && p in w.tables && to < |w.tables[p]|
    ensures p in v.tables && |v.tables[p]| == |w.tables[p]| && v.tables[p][to].None? && v.kinds == w.kinds
    ensures |v.refs| == |w.refs|
  {
    if w.tables[p][to].None? then w else
    HeldIsCounted(w, p, to, w.tables[p][to].value);
    Forced(w, p, to, w.tables[p][to].value)
  }

  ghost function Duplicated(w: World, p: nat, fd: nat, to: nat): (v: World)
    requires Inv(w) && HasSource(w, p, fd) && to < |w.tables[p]|
    ensures |v.refs| >= |w.refs|
  {
    var v := Cleared(w, p, to);
    if fd == AT_FDCWD then Create(v, p, to)
    else HeldIsCounted(w, p, fd, w.tables[p][fd].value); Acquire(v, p, to, w.tables[p][fd].value)
  }

  /** The file is closed, and its reference dropped. */
  method CloseNow(f: FileTables, p: nat, i: nat, g: nat)
    requires p in f.tables && i < |f.tables[p]| && g < |f.refs| == |f.kinds| && f.refs[g] > 0
    modifies f
    ensures f.Now() == Forced(old(f.Now()), p, i, g)
  {
    match f.kinds[g] {
      case Plain =>
      case Reader(q) => if q < |f.pipes| { f.pipes := f.pipes[q := f.pipes[q].(readOpen := false)]; }
      case Writer(q) => if q < |f.pipes| { f.pipes := f.pipes[q := f.pipes[q].(writeOpen := false)]; }
    }
    f.closed := f.closed + [g];
    f.tables := f.tables[p := f.tables[p][i := None]];
    f.refs := f.refs[g := f.refs[g] - 1];
  }

  /** A target outside the table stops the kernel, after the source was looked up. */
  method Dup3(f: FileTables, p: nat, fd: nat, to: nat) returns (r: Outcome<bool>)
    requires Inv(f.Now()) && p in f.tables
    modifies f
    ensures r == if !HasSource(old(f.Now()), p, fd) then Done(false)
                 else if to >= |old(f.tables)[p]| then Panicked(BadIndex) else Done(true)
    ensures r == Done(false) ==> f.Now() == old(f.Now())
    ensures r == Done(true) ==> f.Now() == Duplicated(old(f.Now()), p, fd, to)
  {
    hide Inv, Forced;
    ghost var w := f.Now();
    if fd != AT_FDCWD && !Opens(f.tables[p], fd) {
      return Done(false);
    }
    var file := if fd == AT_FDCWD then 0 else f.tables[p][fd].value;
    if to >= |f.tables[p]| {
      return Panicked(BadIndex);
    }
    if fd != AT_FDCWD { HeldIsCounted(w, p, fd, file); }
    if f.tables[p][to].Some? {
      HeldIsCounted(w, p, to, f.tables[p][to].value);
      CountsMatch(w);
      CloseNow(f, p, to, f.tables[p][to].value);
    }
    assert f.Now() == Cleared(w, p, to);
    if fd == AT_FDCWD {
      f.tables := f.tables[p := f.tables[p][to := Some(|f.refs|)]];
      f.refs, f.kinds := f.refs + [1], f.kinds + [Plain];
    } else {
      f.tables := f.tables[p := f.tables[p][to := Some(file)]];
      f.refs := f.refs[file := f.refs[file] + 1];
    }
    r := Done(true);
  }

  lemma CountsMatch(w: World)
    requires Inv(w)
    ensures |w.kinds| == |w.refs|
  {
  }

  /**
   * dup3 keeps counts, closes and pipe ends in step with the descriptors if and only if its target is empty, or the
   * target is the only descriptor of its file and not also the source.
   */
  lemma Dup3KeepsIff(w: World, p: nat, fd: nat, to: nat)
    requires Inv(w) && HasSource(w, p, fd) && to < |w.tables[p]|
    ensures Inv(Duplicated(w, p, fd, to)) <==>
      || w.tables[p][to].None?
      || ((fd == AT_FDCWD || fd != to) && Holders(w.tables, w.tables[p][to].value) == {(p, to)})
  {
    hide Inv, Holders;
    if w.tables[p][to].None? {
      if fd == AT_FDCWD { CreateInv(w, p, to); } else { SourceCounted(w, p, fd, to); }
    } else {
      var g := w.tables[p][to].value;
      LastHolder(w, p, to, g);
      HeldIsCounted(w, p, to, g);
      if w.refs[g] == 1 && (fd == AT_FDCWD || fd != to) {
        ReleaseInv(w, p, to, g);
        if fd == AT_FDCWD { CreateInv(Cleared(w, p, to), p, to); } else { OtherCounted(w, p, fd, to, g); }
      } else {
        ClosedTooEarly(w, p, fd, to, g);
      }
    }
  }

  lemma SourceCounted(w: World, p: nat, fd: nat, to: nat)
    requires Inv(w) && p in w.tables && Opens(w.tables[p], fd) && to < |w.tables[p]| && w.tables[p][to].None?
    ensures var f := w.tables[p][fd].value; f < |w.refs| && Inv(Acquire(w, p, to, f))
  {
    hide Inv;
    var f := w.tables[p][fd].value;
    HeldIsCounted(w, p, fd, f);
    AcquireInv(w, p, to, f);
  }

  /** The source is still counted after the only descriptor of another file is gone. */
  lemma OtherCounted(w: World, p: nat, fd: nat, to: nat, g: nat)
    requires Inv(w) && p in w.tables && Opens(w.tables[p], fd) && fd != to
    requires Names(w.tables, p, to, g) && g < |w.refs| == |w.kinds| && w.refs[g] == 1
    ensures var f := w.tables[p][fd].value; f < |w.refs| && Inv(Acquire(Forced(w, p, to, g), p, to, f))
  {
    hide Inv;
    ReleaseInv(w, p, to, g);
    var v := Release(w, p, to, g);
    assert v == Forced(w, p, to, g);
    assert v.tables[p][fd] == w.tables[p][fd];
    SourceCounted(v, p, fd, to);
  }

  /** Otherwise a file that a descriptor names is closed. */
  lemma ClosedTooEarly(w: World, p: nat, fd: nat, to: nat, g: nat)
    requires Inv(w) && HasSource(w, p, fd) && Names(w.tables, p, to, g) && g < |w.refs| && w.refs[g] > 0
    requires w.refs[g] > 1 || (fd != AT_FDCWD && fd == to)
    ensures !Inv(Duplicated(w, p, fd, to))
  {
    hide RefOk, KindOk, PipeOk, Holders;
    var v := Duplicated(w, p, fd, to);
    assert CloseOk(w, g);
    assert v.refs[g] > 0 && multiset(v.closed)[g] == multiset(w.closed)[g] + 1;
    assert !CloseOk(v, g);
  }
}
