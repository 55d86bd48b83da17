/**
 * The tree of directory entries and how a path is followed through it (src/filesystem/mod.rs). Entries are numbered in
 * the order of their creation; number 0 is the root. The children map of an entry is a cache in front of its inode.
 */
module Dentries {
  import opened Basics

  datatype Node = Node(parent: Option<nat>, name: string, inode: Option<nat>, isDir: bool, children: map<string, nat>)

  type Tree = seq<Node>

  datatype Found = Found(inode: nat, isDir: bool)

  /** Inode::lookup: what an inode has under a name. The entry it returns carries that name. */
  type Lookup = (nat, string) -> Option<Found>

  /** What matters of an entry besides its identity. */
  datatype Content = Content(inode: Option<nat>, isDir: bool)

  // ---- well-formed trees

  ghost predicate NodeOk(t: Tree, d: nat)
    requires d < |t|
  {
    && (t[d].parent.Some? ==> t[d].parent.value < d) && (t[d].parent.None? <==> d == 0)
    && (!t[d].isDir ==> t[d].children == map[] && t[d].inode.Some?)
  }

  /** The child is younger, knows its parent, and has the name it is listed under. */
  ghost predicate ChildOk(t: Tree, d: nat, n: string)
    requires d < |t| && n in t[d].children
  {
    var c := t[d].children[n];
    d < c < |t| && t[c].parent == Some(d) && t[c].name == n
  }

  ghost predicate WellFormed(t: Tree) {
    && |t| > 0 && t[0].isDir && t[0].name == "/"
    && (forall d {:trigger NodeOk(t, d)} :: 0 <= d < |t| ==> NodeOk(t, d))
    && (forall d, n {:trigger ChildOk(t, d, n)} :: 0 <= d < |t| && n in t[d].children ==> ChildOk(t, d, n))
  }

  /** The inode finds nothing. */
  ghost predicate Barren(look: Lookup, x: nat) { forall n :: look(x, n).None? }

  /** Inodes of files find nothing. */
  ghost predicate LookupOk(look: Lookup) {
    forall x, n {:trigger look(x, n)} :: look(x, n).Some? && !look(x, n).value.isDir ==>
      Barren(look, look(x, n).value.inode)
  }

  ghost predicate FileOk(t: Tree, look: Lookup, d: nat)
    requires d < |t|
  {
    !t[d].isDir && t[d].inode.Some? ==> Barren(look, t[d].inode.value)
  }

  ghost predicate TreeOk(t: Tree, look: Lookup) {
    WellFormed(t) && LookupOk(look) && forall d {:trigger FileOk(t, look, d)} :: 0 <= d < |t| ==> FileOk(t, look, d)
  }

  // ---- one component

  /** A child from the cache, or from the inode and then entered in the cache. */
  function Down(t: Tree, look: Lookup, d: nat, name: string): (Tree, Option<nat>)
    requires d < |t|
  {
    if name in t[d].children then (t, Some(t[d].children[name]))
    else if t[d].inode.None? then (t, None)
    else
      match look(t[d].inode.value, name)
      case None => (t, None)
      case Some(f) => (Cached(t, d, name, f), Some(|t|))
  }

  function Cached(t: Tree, d: nat, name: string, f: Found): Tree
    requires d < |t|
  {
    t[d := t[d].(children := t[d].children[name := |t|])] + [Node(Some(d), name, Some(f.inode), f.isDir, map[])]
  }

  predicate IsDot(name: string) { name == "." || name == "" }

  function Up(t: Tree, d: nat): nat
    requires d < |t|
  {
    if t[d].parent.Some? then t[d].parent.value else 0
  }

  function Step(t: Tree, look: Lookup, d: nat, name: string): (Tree, Option<nat>)
    requires d < |t|
  {
    if name == ".." then (t, Some(Up(t, d))) else if IsDot(name) then (t, Some(d)) else Down(t, look, d, name)
  }

  lemma CachedOk(t: Tree, look: Lookup, d: nat, name: string, f: Found)
    requires TreeOk(t, look) && d < |t| && name !in t[d].children && t[d].inode.Some?
      && look(t[d].inode.value, name) == Some(f)
    ensures TreeOk(Cached(t, d, name, f), look)
  {
    var u, c := Cached(t, d, name, f), |t|;
    assert NodeOk(t, d) && FileOk(t, look, d);
    assert t[d].isDir;
    forall e | 0 <= e < |u| ensures NodeOk(u, e) && FileOk(u, look, e) {
      if e < c { assert NodeOk(t, e) && FileOk(t, look, e); }
    }
    forall e, n | 0 <= e < |u| && n in u[e].children ensures ChildOk(u, e, n) {
      if !(e == d && n == name) { assert ChildOk(t, e, n); }
    }
  }

  lemma StepOk(t: Tree, look: Lookup, d: nat, name: string)
    requires TreeOk(t, look) && d < |t|
    ensures TreeOk(Step(t, look, d, name).0, look) && |t| <= |Step(t, look, d, name).0|
    ensures Step(t, look, d, name).1.Some? ==> Step(t, look, d, name).1.value < |Step(t, look, d, name).0|
  {
    assert NodeOk(t, d);
    if name in t[d].children { assert ChildOk(t, d, name); }
    if name !in t[d].children && t[d].inode.Some? && look(t[d].inode.value, name).Some? {
      CachedOk(t, look, d, name, look(t[d].inode.value, name).value);
    }
  }

  // ---- several components

  /** Following components from entry d: the tree afterwards, and where it leads. */
  ghost function Walk(t: Tree, look: Lookup, d: nat, names: seq<string>): (r: (Tree, Option<nat>))
    requires TreeOk(t, look) && d < |t|
    ensures TreeOk(r.0, look) && |t| <= |r.0| && (r.1.Some? ==> r.1.value < |r.0|)
    decreases |names|
  {
    if names == [] then (t, Some(d)) else
    StepOk(t, look, d, names[0]);
    var s := Step(t, look, d, names[0]);
    if s.1.None? then (s.0, None) else Walk(s.0, look, s.1.value, names[1..])
  }

  /** Following p and then q is following p, and q from where p leads, to the same entry and the same tree. */
  lemma {:induction false} WalkComposes(t: Tree, look: Lookup, d: nat, p: seq<string>, q: seq<string>)
    requires TreeOk(t, look) && d < |t|
    ensures var r := Walk(t, look, d, p);
            Walk(t, look, d, p + q) == if r.1.None? then r else Walk(r.0, look, r.1.value, q)
    decreases |p|
  {
    hide TreeOk;
    if p == [] {
      assert p + q == q;
    } else {
      StepOk(t, look, d, p[0]);
      var s := Step(t, look, d, p[0]);
      assert (p + q)[1..] == p[1..] + q;
      if s.1.Some? { WalkComposes(s.0, look, s.1.value, p[1..], q); }
    }
  }
}
