/** Paths as strings: resolution, printing, and the entry operations with their loops (src/filesystem/mod.rs). */
module Vfs {
  import opened Basics
  import opened Paths
  import opened Dentries
  import opened Resolution

  predicate Absolute(path: string) { |path| > 0 && path[0] == '/' }

  function Relative(path: string): string { if Absolute(path) then path[1..] else path }

  function Start(path: string, cwd: Option<nat>): nat { if cwd.Some? && !Absolute(path) then cwd.value else 0 }

  ghost predicate CwdOk(t: Tree, cwd: Option<nat>) { |t| > 0 && (cwd.Some? ==> cwd.value < |t|) }

  /** Where a path string leads from a working directory. */
  ghost function Resolve(t: Tree, look: Lookup, path: string, cwd: Option<nat>): (Tree, Option<nat>)
    requires Dentries.TreeOk(t, look) && CwdOk(t, cwd)
  {
    Walk(t, look, Start(path, cwd), Split(Relative(path)))
  }

  /** Resolving p/q is resolving p, and then q from there. */
  lemma ResolveComposes(t: Tree, look: Lookup, p: string, q: string, cwd: Option<nat>)
    requires Dentries.TreeOk(t, look) && CwdOk(t, cwd) && p != "" && !Absolute(q)
    ensures var r := Resolve(t, look, p, cwd);
            Resolve(t, look, p + "/" + q, cwd) == if r.1.None? then r else Resolve(r.0, look, q, r.1)
  {
    hide Walk, Split, Dentries.TreeOk;
    var s := p + "/" + q;
    assert Relative(s) == Relative(p) + "/" + q && Start(s, cwd) == Start(p, cwd);
    SplitJoined(Relative(p), q);
    WalkComposes(t, look, Start(p, cwd), Split(Relative(p)), Split(q));
  }

  datatype Query = Query(path: string, cwd: Option<nat>)

  /** The tree after a sequence of resolutions. */
  ghost function AfterAll(t: Tree, look: Lookup, queries: seq<Query>): (u: Tree)
    requires Dentries.TreeOk(t, look) && forall k :: 0 <= k < |queries| ==> CwdOk(t, queries[k].cwd)
    ensures Dentries.TreeOk(u, look) && |t| <= |u|
    decreases |queries|
  {
    if queries == [] then t
    else
      var n := |queries| - 1;
      assert CwdOk(t, queries[n].cwd);
      Resolve(AfterAll(t, look, queries[..n]), look, queries[n].path, queries[n].cwd).0
  }

  lemma {:induction false} AfterAllKeepsView(t: Tree, look: Lookup, queries: seq<Query>)
    requires Dentries.TreeOk(t, look) && forall k :: 0 <= k < |queries| ==> CwdOk(t, queries[k].cwd)
    ensures SameView(t, AfterAll(t, look, queries), look)
    decreases |queries|
  {
    hide WellFormed, LookupOk, SameView, Walk, Split;
    if queries == [] {
      ReflexiveView(t, look);
    } else {
      var n := |queries| - 1;
      var u := AfterAll(t, look, queries[..n]);
      AfterAllKeepsView(t, look, queries[..n]);
      var q := queries[n];
      assert CwdOk(t, q.cwd);
      WalkKeepsView(u, look, Start(q.path, q.cwd), Split(Relative(q.path)));
      SameViewTransitive(t, u, AfterAll(t, look, queries), look);
    }
  }

  /** No sequence of earlier resolutions changes what a later one finds: the same name and inode, or nothing. */
  lemma EarlierResolutionsDoNotMatter(t: Tree, look: Lookup, queries: seq<Query>, path: string, cwd: Option<nat>)
    requires Dentries.TreeOk(t, look) && CwdOk(t, cwd) && forall k :: 0 <= k < |queries| ==> CwdOk(t, queries[k].cwd)
    ensures var a, b := Resolve(t, look, path, cwd), Resolve(AfterAll(t, look, queries), look, path, cwd);
            && (a.1.Some? <==> b.1.Some?) && (a.1.Some? ==> SameEntry(a.0, a.1.value, b.0, b.1.value))
  {
    hide WellFormed, LookupOk, SameView, Walk, Split, AfterAll;
    AfterAllKeepsView(t, look, queries);
    CacheIsTransparent(t, AfterAll(t, look, queries), look, Start(path, cwd), Split(Relative(path)));
  }

  // ---- names of entries

  /** The names from the root down to d. */
  ghost function PathOf(t: Tree, d: nat): seq<string>
    requires WellFormed(t) && d < |t|
    decreases d
  {
    if t[d].parent.None? then [] else assert NodeOk(t, d); PathOf(t, t[d].parent.value) + [t[d].name]
  }

  /** Every entry on the way from the root is the one its parent lists under its name. */
  ghost predicate Attached(t: Tree, d: nat)
    requires WellFormed(t) && d < |t|
    decreases d
  {
    t[d].parent.None? ||
    (assert NodeOk(t, d); var p := t[d].parent.value;
     t[d].name in t[p].children && t[p].children[t[d].name] == d && Attached(t, p))
  }

  ghost predicate GoodName(n: string) { n != "" && n != "." && n != ".." && SlashFree(n) }

  ghost predicate Good(names: seq<string>) { forall i :: 0 <= i < |names| ==> GoodName(names[i]) }

  function Shown(n: string): string { if n != "/" then n + "/" else n }

  ghost function Prefix(t: Tree, d: nat): string
    requires WellFormed(t) && d < |t|
    decreases d
  {
    if t[d].parent.None? then "" else
    assert NodeOk(t, d);
    var p := t[d].parent.value;
    Prefix(t, p) + Shown(t[p].name)
  }

  ghost function FullPath(t: Tree, d: nat): string
    requires WellFormed(t) && d < |t|
  {
    Prefix(t, d) + t[d].name
  }

  lemma {:induction false} JoinSnoc(names: seq<string>, n: string)
    requires names != []
    ensures Join(names + [n]) == Join(names) + "/" + n
    decreases |names|
  {
    if |names| == 1 {
      assert (names + [n])[1..] == [n];
    } else {
      assert (names + [n])[1..] == names[1..] + [n];
      JoinSnoc(names[1..], n);
    }
  }

  lemma {:induction false} GoodFullPath(t: Tree, d: nat)
    requires WellFormed(t) && d < |t| && t[d].parent.Some? && Good(PathOf(t, d))
    ensures FullPath(t, d) == "/" + Join(PathOf(t, d))
    decreases d
  {
    assert NodeOk(t, d);
    var p := t[d].parent.value;
    assert NodeOk(t, p);
    var names := PathOf(t, p);
    assert PathOf(t, d) == names + [t[d].name];
    if t[p].parent.None? {
      assert p == 0 && names == [];
      assert names + [t[d].name] == [t[d].name];
      assert Prefix(t, d) == "" + "/";
    } else {
      forall i | 0 <= i < |names| ensures GoodName(names[i]) { assert PathOf(t, d)[i] == names[i]; }
      GoodFullPath(t, p);
      JoinSnoc(names, t[d].name);
      assert GoodName(t[p].name) by { assert names[|names| - 1] == t[p].name; }
      assert !SlashFree("/") by { assert "/"[0] == '/'; }
      assert Prefix(t, d) == Prefix(t, p) + (t[p].name + "/");
      assert FullPath(t, d) == FullPath(t, p) + "/" + t[d].name;
      assert "/" + Join(names) + "/" + t[d].name == "/" + (Join(names) + "/" + t[d].name);
    }
  }

  lemma {:induction false} FullPathIsAbsolute(t: Tree, d: nat)
    requires WellFormed(t) && d < |t|
    ensures Absolute(FullPath(t, d)) && (t[d].parent.Some? ==> Absolute(Prefix(t, d)))
    decreases d
  {
    assert NodeOk(t, d);
    if t[d].parent.Some? {
      var p := t[d].parent.value;
      FullPathIsAbsolute(t, p);
      assert NodeOk(t, p);
    }
  }

  // ---- resolving the printed path

  lemma {:induction false} WalkToAttached(t: Tree, look: Lookup, d: nat)
    requires Dentries.TreeOk(t, look) && d < |t| && Attached(t, d) && Good(PathOf(t, d))
    ensures Walk(t, look, 0, PathOf(t, d)) == (t, Some(d))
    decreases d
  {
    assert NodeOk(t, d);
    if t[d].parent.Some? {
      var p, n := t[d].parent.value, t[d].name;
      var names := PathOf(t, p);
      assert PathOf(t, d) == names + [n];
      forall i | 0 <= i < |names| ensures GoodName(names[i]) { assert PathOf(t, d)[i] == names[i]; }
      assert GoodName(n) by { assert PathOf(t, d)[|names|] == n; }
      WalkToAttached(t, look, p);
      WalkComposes(t, look, 0, names, [n]);
      assert [n][1..] == [];
    }
  }

  /** From the root, components without slashes lead to a place below the root with good names only. */
  lemma {:induction false} PlacesAreGood(t: Tree, look: Lookup, p: Place, names: seq<string>)
    requires WellFormed(t) && p.base == 0 && Good(p.rest) && forall n :: n in names ==> SlashFree(n)
    ensures Follow(t, look, p, names).Some? ==>
      Follow(t, look, p, names).value.base == 0 && Good(Follow(t, look, p, names).value.rest)
    decreases |names|
  {
    hide Look;
    if names != [] {
      assert NodeOk(t, 0);
      var q := Onward(t, look, p, names[0]);
      if q.Some? { PlacesAreGood(t, look, q.value, names[1..]); }
    }
  }

  lemma {:induction false} ReachPath(t: Tree, names: seq<string>)
    requires WellFormed(t) && Reach(t, 0, names).Some?
    ensures PathOf(t, Reach(t, 0, names).value) == names
    decreases |names|
  {
    var e := Reach(t, 0, names).value;
    assert NodeOk(t, 0) && NodeOk(t, e);
    if names != [] {
      var n := |names| - 1;
      ReachUp(t, 0, names);
      ReachPath(t, names[..n]);
      assert names == names[..n] + [names[n]];
    }
  }

  lemma {:induction false} SamePath(t: Tree, u: Tree, look: Lookup, d: nat)
    requires SameView(t, u, look) && d < |t|
    ensures PathOf(u, d) == PathOf(t, d)
    decreases d
  {
    hide Look;
    if t[d].parent.Some? {
      assert NodeOk(t, d);
      SamePath(t, u, look, t[d].parent.value);
    }
  }

  /** Whatever a path string from the root leads to has only good names on its way. */
  lemma ResultIsGood(t: Tree, look: Lookup, path: string, cwd: Option<nat>, d: nat)
    requires Dentries.TreeOk(t, look) && CwdOk(t, cwd) && Absolute(path) && d < |t|
      && Resolve(t, look, path, cwd).1 == Some(d)
    ensures Good(PathOf(t, d))
  {
    hide Walk, Follow, Split, Look, SameView, GoodName;
    var names := Split(path[1..]);
    PiecesAreSlashFree(path[1..]);
    ReflexiveView(t, look);
    WalkFollows(t, t, look, Place(0, []), 0, names);
    PlacesAreGood(t, look, Place(0, []), names);
    var w, q := Walk(t, look, 0, names), Follow(t, look, Place(0, []), names).value;
    ReachPath(w.0, q.rest);
    SamePath(t, w.0, look, d);
  }

  /**
   * The printed path of an attached entry resolves to that very entry, from any working directory and without touching
   * the tree, if and only if no name on its way is empty, a dot, two dots, or contains a slash.
   */
  lemma FullPathResolvesIff(t: Tree, look: Lookup, d: nat, cwd: Option<nat>)
    requires Dentries.TreeOk(t, look) && CwdOk(t, cwd) && d < |t| && Attached(t, d)
    ensures Resolve(t, look, FullPath(t, d), cwd).1 == Some(d) <==> Good(PathOf(t, d))
    ensures Good(PathOf(t, d)) ==> Resolve(t, look, FullPath(t, d), cwd) == (t, Some(d))
  {
    hide Walk, Split, Attached, FullPath, GoodName, PathOf;
    var path := FullPath(t, d);
    FullPathIsAbsolute(t, d);
    if Good(PathOf(t, d)) { GoodResolves(t, look, d, cwd); }
    if Resolve(t, look, path, cwd).1 == Some(d) { ResultIsGood(t, look, path, cwd, d); }
  }

  lemma GoodResolves(t: Tree, look: Lookup, d: nat, cwd: Option<nat>)
    requires Dentries.TreeOk(t, look) && CwdOk(t, cwd) && d < |t| && Attached(t, d) && Good(PathOf(t, d))
    ensures Resolve(t, look, FullPath(t, d), cwd) == (t, Some(d))
  {
    var names := PathOf(t, d);
    assert NodeOk(t, d);
    if t[d].parent.None? {
      assert FullPath(t, d) == "/" && Relative("/") == "";
      assert [""][1..] == [];
    } else {
      GoodFullPath(t, d);
      assert Relative(FullPath(t, d)) == Join(names);
      forall n | n in names
        ensures SlashFree(n)
      {
        var i :| 0 <= i < |names| && names[i] == n;
        assert GoodName(names[i]);
      }
      SplitOfJoin(names);
      WalkToAttached(t, look, d);
    }
  }

  // ---- the operations

  /** What mkdir adds: an entry without an inode. */
  function Made(t: Tree, d: nat, name: string): Tree
    requires d < |t|
  {
    t[d := t[d].(children := t[d].children[name := |t|])] + [Node(Some(d), name, None, true, map[])]
  }

  /** A new directory is attached if its parent is, below it. */
  lemma MadeOk(t: Tree, look: Lookup, d: nat, name: string)
    requires Dentries.TreeOk(t, look) && d < |t| && t[d].isDir && name !in t[d].children
    ensures Dentries.TreeOk(Made(t, d, name), look)
    ensures PathOf(Made(t, d, name), |t|) == PathOf(t, d) + [name]
    ensures forall e: nat :: e < |t| && Attached(t, e) ==> Attached(Made(t, d, name), e)
    ensures Attached(t, d) ==> Attached(Made(t, d, name), |t|)
  {
    var u, c := Made(t, d, name), |t|;
    assert NodeOk(t, d) && FileOk(t, look, d);
    forall e | 0 <= e < |u| ensures NodeOk(u, e) && FileOk(u, look, e) {
      if e < c { assert NodeOk(t, e) && FileOk(t, look, e); }
    }
    forall e, n | 0 <= e < |u| && n in u[e].children ensures ChildOk(u, e, n) {
      if !(e == d && n == name) { assert ChildOk(t, e, n); }
    }
    MadeKeeps(t, u, d);
    forall e: nat | e < |t| && Attached(t, e) ensures Attached(u, e) { MadeAttached(t, d, name, e); }
  }

  lemma {:induction false} MadeKeeps(t: Tree, u: Tree, d: nat)
    requires WellFormed(t) && WellFormed(u) && d < |t| <= |u|
    requires forall e :: 0 <= e < |t| ==> u[e].parent == t[e].parent && u[e].name == t[e].name
    ensures PathOf(u, d) == PathOf(t, d)
    decreases d
  {
    assert NodeOk(t, d);
    if t[d].parent.Some? { MadeKeeps(t, u, t[d].parent.value); }
  }

  lemma {:induction false} MadeAttached(t: Tree, d: nat, name: string, e: nat)
    requires WellFormed(t) && d < |t| && name !in t[d].children && WellFormed(Made(t, d, name)) && e < |t|
      && Attached(t, e)
    ensures Attached(Made(t, d, name), e)
    decreases e
  {
    assert NodeOk(t, e);
    if t[e].parent.Some? { MadeAttached(t, d, name, t[e].parent.value); }
  }

  // ---- what mkdir does to the name space

  /** Going down these names from e, component k is the new name in d. */
  ghost predicate Through(t: Tree, d: nat, name: string, e: nat, names: seq<string>, k: nat)
    requires WellFormed(t) && e < |t|
  {
    k < |names| && Reach(t, e, names[..k]) == Some(d) && names[k] == name
  }

  /** The new directory has nothing below it: no name leads anywhere, and so no path through one does. */
  lemma MadeIsEmpty(t: Tree, look: Lookup, d: nat, name: string, n: string, more: seq<string>)
    requires Dentries.TreeOk(t, look) && d < |t| && Dentries.TreeOk(Made(t, d, name), look)
    ensures Look(Made(t, d, name), look, |t|, [n] + more) == None
    ensures Look(Made(t, d, name), look, |t|, []) == Some(Content(None, true))
    ensures n != ".." && n != "." && n != "" ==>
      Walk(Made(t, d, name), look, |t|, [n] + more) == (Made(t, d, name), None)
  {
    assert ([n] + more)[0] == n;
  }

  /**
   * The name space below every entry there was is as before, except that the new name in d, which led nowhere, is now a
   * directory, and nothing below it.
   */
  lemma {:induction false} MadeShows(t: Tree, look: Lookup, d: nat, name: string, e: nat, names: seq<string>)
    requires d < |t| && e < |t| && name !in t[d].children && t[d].inode.None?
    requires Dentries.TreeOk(t, look) && Dentries.TreeOk(Made(t, d, name), look)
    ensures (forall k: nat :: !Through(t, d, name, e, names, k)) ==>
      Look(Made(t, d, name), look, e, names) == Look(t, look, e, names)
    ensures forall k: nat :: Through(t, d, name, e, names, k) ==>
      && Look(t, look, e, names) == None
      && Look(Made(t, d, name), look, e, names) == if k == |names| - 1 then Some(Content(None, true)) else None
    decreases |names|
  {
    hide LookupOk, FileOk, NodeOk;
    var u := Made(t, d, name);
    if names != [] {
      var n, rest := names[0], names[1..];
      if e == d && n == name {
        assert names[..0] == [];
        assert Through(t, d, name, e, names, 0);
        MadeIsEmpty(t, look, d, name, if rest == [] then "" else rest[0], if rest == [] then [] else rest[1..]);
        assert rest != [] ==> [rest[0]] + rest[1..] == rest;
        forall k: nat | 0 < k < |names| ensures Reach(t, e, names[..k]) == None { assert names[..k][0] == n; }
      } else if n in t[e].children {
        var c := Listed(t, e, n);
        MadeShows(t, look, d, name, c, rest);
        forall k: nat ensures Through(t, d, name, e, names, k) <==> k > 0 && Through(t, d, name, c, rest, k - 1) {
          if 0 < k < |names| { assert names[..k][0] == n && names[..k][1..] == rest[..k - 1]; }
          if k == 0 { assert names[..0] == []; }
        }
        forall k: nat | Through(t, d, name, c, rest, k) ensures Through(t, d, name, e, names, k + 1) {}
      } else {
        forall k: nat | 0 < k < |names| ensures Reach(t, e, names[..k]) == None { assert names[..k][0] == n; }
        assert names[..0] == [];
      }
    }
  }

  class FileSystem {
    var tree: Tree
    const look: Lookup

    ghost predicate Valid()
      reads this
    {
      Dentries.TreeOk(tree, look)
    }

    /** filesystem::init: the root and /dev. */
    constructor (look: Lookup)
      requires LookupOk(look)
      ensures Valid() && this.look == look && tree == Made([Node(None, "/", None, true, map[])], 0, "dev")
      ensures Attached(tree, 1) && PathOf(tree, 1) == ["dev"]
    {
      this.look := look;
      tree := [Node(None, "/", None, true, map[])];
      new;
      assert NodeOk(tree, 0) && FileOk(tree, look, 0);
      assert PathOf(tree, 0) + ["dev"] == ["dev"];
      var r := Mkdir(0, "dev");
    }

    /** The search at the end of from_path: from the cache, or looked up and entered in it. */
    method Search(d: nat, name: string) returns (r: Option<nat>)
      requires Valid() && d < |tree|
      modifies this`tree
      ensures (tree, r) == Down(old(tree), look, d, name)
    {
      if name in tree[d].children {
        return Some(tree[d].children[name]);
      }
      if tree[d].inode.None? {
        return None;
      }
      var found := look(tree[d].inode.value, name);
      if found.None? {
        return None;
      }
      r := Some(|tree|);
      var f := found.value;
      var child := Node(Some(d), name, Some(f.inode), f.isDir, map[]);
      tree := tree[d := tree[d].(children := tree[d].children[name := |tree|])] + [child];
    }

    /** The search inside get_parent: only in directories, and repeated until the cache has the name. */
    method Descend(d: nat, name: string) returns (r: Option<nat>)
      requires Valid() && d < |tree|
      modifies this`tree
      ensures (tree, r) == Down(old(tree), look, d, name)
    {
      hide WellFormed, LookupOk;
      ghost var t := tree;
      FilesHaveNoChildren(t, look, d, name);
      while true
        invariant d < |tree| && (tree == t || (Down(t, look, d, name).0 == tree && name in tree[d].children))
        invariant tree[d].isDir == t[d].isDir && tree[d].inode == t[d].inode
        invariant name in tree[d].children ==> Down(t, look, d, name) == (tree, Some(tree[d].children[name]))
        decreases if name in tree[d].children then 0 else 1
      {
        if !tree[d].isDir {
          return None;
        }
        if name in tree[d].children {
          return Some(tree[d].children[name]);
        }
        if tree[d].inode.None? {
          return None;
        }
        var found := look(tree[d].inode.value, name);
        if found.None? {
          return None;
        }
        var child := Node(Some(d), name, Some(found.value.inode), found.value.isDir, map[]);
        tree := tree[d := tree[d].(children := tree[d].children[name := |tree|])] + [child];
      }
    }

    /** get_parent: all components but the last are followed; on the way everything searched in must be a directory. */
    method GetParent(path: string, cwd: Option<nat>) returns (r: Option<(nat, string)>)
      requires Valid() && CwdOk(tree, cwd)
      modifies this`tree
      ensures Valid()
      ensures var names := Split(Relative(path));
              var w := Walk(old(tree), look, Start(path, cwd), names[..|names| - 1]);
              tree == w.0 && r == if w.1.None? then None else Some((w.1.value, names[|names| - 1]))
    {
      hide WellFormed, LookupOk, Split;
      ghost var t := tree;
      var names := Split(Relative(path));
      var n := |names| - 1;
      var parent: nat := Start(path, cwd);
      ghost var goal := Walk(t, look, parent, names[..n]);
      var i := 0;
      while i < n
        invariant 0 <= i <= n && Valid() && parent < |tree|
        invariant Walk(tree, look, parent, names[i..n]) == goal
      {
        var name := names[i];
        StepOk(tree, look, parent, name);
        assert names[i..n][0] == name && names[i..n][1..] == names[i + 1..n];
        if name == ".." {
          parent := if tree[parent].parent.Some? then tree[parent].parent.value else 0;
        } else if name == "." || name == "" {
        } else {
          var next := Descend(parent, name);
          if next.None? {
            return None;
          }
          parent := next.value;
        }
        i := i + 1;
      }
      r := Some((parent, names[n]));
    }

    /** from_path. */
    method FromPath(path: string, cwd: Option<nat>) returns (r: Option<nat>)
      requires Valid() && CwdOk(tree, cwd)
      modifies this`tree
      ensures Valid() && (tree, r) == Resolve(old(tree), look, path, cwd)
    {
      hide WellFormed, LookupOk, Split;
      ghost var t := tree;
      if path == "/" {
        RootPath(tree, look, cwd);
        return Some(0);
      }
      var at := GetParent(path, cwd);
      ghost var names := Split(Relative(path));
      ghost var n := |names| - 1;
      assert names == names[..n] + [names[n]];
      WalkComposes(t, look, Start(path, cwd), names[..n], [names[n]]);
      if at.None? {
        return None;
      }
      var parent, name := at.value.0, at.value.1;
      assert [name][1..] == [];
      StepOk(tree, look, parent, name);
      if name == ".." {
        r := Some(if tree[parent].parent.Some? then tree[parent].parent.value else 0);
      } else if name == "." || name == "" {
        r := Some(parent);
      } else {
        r := Search(parent, name);
      }
    }

    /** fullpath: the names are put in front while going up. */
    method Fullpath(d: nat) returns (path: string)
      requires Valid() && d < |tree|
      ensures path == FullPath(tree, d)
    {
      hide WellFormed, LookupOk, Prefix;
      path := "";
      var cur: nat := d;
      while tree[cur].parent.Some?
        invariant cur < |tree|
        invariant Prefix(tree, d) == Prefix(tree, cur) + path
        decreases cur
      {
        PrefixUp(tree, cur);
        var p: nat := tree[cur].parent.value;
        var front := tree[p].name;
        if front != "/" {
          front := front + "/";
        }
        assert Prefix(tree, p) + (front + path) == Prefix(tree, p) + front + path;
        path := front + path;
        cur := p;
      }
      PrefixUp(tree, cur);
      path := path + tree[d].name;
    }

    /** mkdir: refused for dots and for a name that is cached; the inodes there are do not implement it. */
    method Mkdir(d: nat, name: string) returns (r: Outcome<Option<nat>>)
      requires Valid() && d < |tree|
      modifies this`tree
      ensures Valid()
      ensures r == if name == "." || name == ".." || name in old(tree)[d].children then Done(None)
                   else if old(tree)[d].inode.Some? then Panicked(Unimplemented) else Done(Some(|old(tree)|))
      ensures tree == if r.Done? && r.value.Some? then Made(old(tree), d, name) else old(tree)
      ensures r.Done? && r.value.Some? && Attached(old(tree), d) ==> Attached(tree, r.value.value)
      ensures r.Done? && r.value.Some? ==> PathOf(tree, r.value.value) == PathOf(old(tree), d) + [name]
    {
      if name == "." || name == ".." || name in tree[d].children {
        return Done(None);
      }
      if tree[d].inode.Some? {
        return Panicked(Unimplemented);
      }
      assert NodeOk(tree, d);
      MadeOk(tree, look, d, name);
      r := Done(Some(|tree|));
      tree := tree[d := tree[d].(children := tree[d].children[name := |tree|])]
          + [Node(Some(d), name, None, true, map[])];
    }
  }

  /** An entry that is no directory has nothing under any name, so searching in it is the same as refusing to. */
  lemma FilesHaveNoChildren(t: Tree, look: Lookup, d: nat, name: string)
    requires Dentries.TreeOk(t, look) && d < |t|
    ensures !t[d].isDir ==> Down(t, look, d, name) == (t, None)
  {
    assert NodeOk(t, d) && FileOk(t, look, d);
  }

  lemma PrefixUp(t: Tree, d: nat)
    requires WellFormed(t) && d < |t|
    ensures t[d].parent.None? ==> Prefix(t, d) == ""
    ensures t[d].parent.Some? ==> t[d].parent.value < d
    ensures t[d].parent.Some? ==> Prefix(t, d) == Prefix(t, t[d].parent.value) + Shown(t[t[d].parent.value].name)
  {
    assert NodeOk(t, d);
  }

  lemma RootPath(t: Tree, look: Lookup, cwd: Option<nat>)
    requires Dentries.TreeOk(t, look) && CwdOk(t, cwd)
    ensures Resolve(t, look, "/", cwd) == (t, Some(0))
  {
    assert Relative("/") == "";
    assert [""][1..] == [];
  }
}
