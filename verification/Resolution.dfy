/**
 * Path resolution sees one name space whatever has been cached (src/filesystem/mod.rs): what is below an entry never
 * changes by resolving, and where a path leads is given by names alone.
 */
module Resolution {
  import opened Basics
  import opened Dentries

  // ---- the name space

  /** What the inode x has below it under a sequence of names. */
  ghost function LookInode(look: Lookup, x: nat, names: seq<string>): Option<Content>
    requires names != []
    decreases |names|
  {
    match look(x, names[0])
    case None => None
    case Some(f) => if |names| == 1 then Some(Content(Some(f.inode), f.isDir)) else LookInode(look, f.inode, names[1..])
  }

  /** What is below entry d under a sequence of names, cached or not. */
  ghost function Look(t: Tree, look: Lookup, d: nat, names: seq<string>): Option<Content>
    requires WellFormed(t) && d < |t|
    decreases |names|
  {
    if names == [] then Some(Content(t[d].inode, t[d].isDir))
    else if names[0] in t[d].children then
      assert ChildOk(t, d, names[0]);
      Look(t, look, t[d].children[names[0]], names[1..])
    else if t[d].inode.None? then None
    else LookInode(look, t[d].inode.value, names)
  }

  /**
   * u has the entries of t, with the same names, contents and parents, and the name space below each of them is the
   * same.
   */
  ghost predicate SameView(t: Tree, u: Tree, look: Lookup) {
    && WellFormed(t) && WellFormed(u) && |t| <= |u|
    && (forall d :: 0 <= d < |t| ==> u[d].parent == t[d].parent && u[d].name == t[d].name)
    && (forall d, n :: 0 <= d < |t| && n in t[d].children ==>
      n in u[d].children && u[d].children[n] == t[d].children[n])
    && (forall d, names {:trigger Look(u, look, d, names)} :: 0 <= d < |t| ==>
      Look(u, look, d, names) == Look(t, look, d, names))
  }

  lemma SameViewTransitive(t: Tree, u: Tree, v: Tree, look: Lookup)
    requires SameView(t, u, look) && SameView(u, v, look)
    ensures SameView(t, v, look)
  {
    hide Look, WellFormed;
    forall d, names | 0 <= d < |t| ensures Look(v, look, d, names) == Look(t, look, d, names) {
      assert Look(u, look, d, names) == Look(t, look, d, names);
    }
  }

  /** Entering a lookup in the cache hides nothing and shows nothing new. */
  lemma {:induction false} CachedLook(t: Tree, u: Tree, look: Lookup, d: nat, name: string, f: Found, e: nat,
                                      names: seq<string>)
    requires WellFormed(t) && WellFormed(u) && d < |t| && e < |t| && name !in t[d].children
    requires t[d].inode.Some? && look(t[d].inode.value, name) == Some(f) && u == Cached(t, d, name, f)
    ensures Look(u, look, e, names) == Look(t, look, e, names)
    decreases |names|
  {
    if names != [] {
      if names[0] in t[e].children {
        assert ChildOk(t, e, names[0]);
        CachedLook(t, u, look, d, name, f, t[e].children[names[0]], names[1..]);
      }
    }
  }

  lemma StepKeepsView(t: Tree, look: Lookup, d: nat, name: string)
    requires Dentries.TreeOk(t, look) && d < |t|
    ensures SameView(t, Step(t, look, d, name).0, look)
  {
    hide Look;
    StepOk(t, look, d, name);
    var u := Step(t, look, d, name).0;
    if u != t {
      var f := look(t[d].inode.value, name).value;
      forall e, names | 0 <= e < |t| ensures Look(u, look, e, names) == Look(t, look, e, names) {
        CachedLook(t, u, look, d, name, f, e, names);
      }
    }
  }

  /** Resolving a path changes nothing that any later resolution could see. */
  lemma {:induction false} WalkKeepsView(t: Tree, look: Lookup, d: nat, names: seq<string>)
    requires Dentries.TreeOk(t, look) && d < |t|
    ensures SameView(t, Walk(t, look, d, names).0, look)
    decreases |names|
  {
    hide SameView, Step;
    if names == [] {
      ReflexiveView(t, look);
    } else {
      StepOk(t, look, d, names[0]);
      var s := Step(t, look, d, names[0]);
      StepKeepsView(t, look, d, names[0]);
      if s.1.Some? {
        WalkKeepsView(s.0, look, s.1.value, names[1..]);
        SameViewTransitive(t, s.0, Walk(s.0, look, s.1.value, names[1..]).0, look);
      }
    }
  }

  lemma ReflexiveView(t: Tree, look: Lookup)
    requires WellFormed(t)
    ensures SameView(t, t, look)
  {
    hide Look, WellFormed;
  }

  // ---- where a path leads

  /** The entry reached from an entry of the tree by going down these names. */
  datatype Place = Place(base: nat, rest: seq<string>)

  /** Where the components lead, in terms of the name space alone. */
  ghost function Follow(t: Tree, look: Lookup, p: Place, names: seq<string>): (r: Option<Place>)
    requires WellFormed(t) && p.base < |t|
    ensures r.Some? ==> r.value.base < |t|
    decreases |names|
  {
    if names == [] then Some(p) else
    match Onward(t, look, p, names[0])
    case None => None
    case Some(q) => Follow(t, look, q, names[1..])
  }

  ghost function Onward(t: Tree, look: Lookup, p: Place, name: string): (r: Option<Place>)
    requires WellFormed(t) && p.base < |t|
    ensures r.Some? ==> r.value.base < |t|
  {
    if name == ".." then
      if p.rest != [] then Some(p.(rest := p.rest[..|p.rest| - 1]))
          else assert NodeOk(t, p.base); Some(Place(Up(t, p.base), []))
    else if IsDot(name) then Some(p)
    else if Look(t, look, p.base, p.rest + [name]).Some? then Some(p.(rest := p.rest + [name]))
    else None
  }

  /** The entry at a place, if everything on the way is cached. */
  ghost function Reach(t: Tree, d: nat, names: seq<string>): (r: Option<nat>)
    requires WellFormed(t) && d < |t|
    ensures r.Some? ==> d <= r.value < |t|
    decreases |names|
  {
    if names == [] then Some(d)
    else if names[0] in t[d].children then assert ChildOk(t, d, names[0]); Reach(t, t[d].children[names[0]], names[1..])
    else None
  }

  lemma {:induction false} ReachLook(t: Tree, look: Lookup, d: nat, names: seq<string>, more: seq<string>)
    requires WellFormed(t) && d < |t| && Reach(t, d, names).Some?
    ensures Look(t, look, d, names + more) == Look(t, look, Reach(t, d, names).value, more)
    decreases |names|
  {
    hide WellFormed;
    if names == [] {
      assert names + more == more;
    } else {
      var c := Listed(t, d, names[0]);
      assert (names + more)[1..] == names[1..] + more;
      ReachLook(t, look, c, names[1..], more);
    }
  }

  lemma Listed(t: Tree, d: nat, n: string) returns (c: nat)
    requires WellFormed(t) && d < |t| && n in t[d].children
    ensures c == t[d].children[n] && d < c < |t| && t[c].parent == Some(d) && t[c].name == n
  {
    c := t[d].children[n];
    assert ChildOk(t, d, n);
  }

  lemma {:induction false} ReachKept(t: Tree, u: Tree, look: Lookup, d: nat, names: seq<string>)
    requires SameView(t, u, look) && d < |t| && Reach(t, d, names).Some?
    ensures Reach(u, d, names) == Reach(t, d, names)
    decreases |names|
  {
    hide WellFormed, Look;
    if names != [] {
      var c := Listed(t, d, names[0]);
      ReachKept(t, u, look, c, names[1..]);
    }
  }

  lemma {:induction false} ReachSnoc(t: Tree, d: nat, names: seq<string>, n: string)
    requires WellFormed(t) && d < |t| && Reach(t, d, names).Some? && n in t[Reach(t, d, names).value].children
    ensures Reach(t, d, names + [n]) == Some(t[Reach(t, d, names).value].children[n])
    decreases |names|
  {
    hide WellFormed;
    if names == [] {
      var c := Listed(t, d, n);
      assert (names + [n])[1..] == [];
    } else {
      var c := Listed(t, d, names[0]);
      assert (names + [n])[1..] == names[1..] + [n];
      ReachSnoc(t, c, names[1..], n);
    }
  }

  /** The entry at a place below another knows its parent and its name. */
  lemma {:induction false} ReachUp(t: Tree, d: nat, names: seq<string>)
    requires WellFormed(t) && d < |t| && names != [] && Reach(t, d, names).Some?
    ensures var e, n := Reach(t, d, names).value, |names| - 1;
            && Reach(t, d, names[..n]).Some? && t[e].parent == Reach(t, d, names[..n]) && t[e].name == names[n]
    decreases |names|
  {
    hide WellFormed;
    var c := Listed(t, d, names[0]);
    if |names| == 1 {
      assert names[..0] == [] && names[1..] == [];
    } else {
      var n := |names| - 1;
      assert names[1..][..n - 1] == names[..n][1..] && names[1..][n - 1] == names[n];
      ReachUp(t, c, names[1..]);
    }
  }

  /** One component leads where the name space says, from whatever tree has the same name space. */
  lemma StepFollows(t: Tree, u: Tree, look: Lookup, p: Place, e: nat, name: string)
    requires Dentries.TreeOk(u, look) && SameView(t, u, look) && p.base < |t| && Reach(u, p.base, p.rest) == Some(e)
    ensures var s, q := Step(u, look, e, name), Onward(t, look, p, name);
            && (s.1.Some? <==> q.Some?) && WellFormed(s.0) && |u| <= |s.0|
            && (q.Some? ==> Reach(s.0, q.value.base, q.value.rest) == s.1)
  {
    hide WellFormed, SameView;
    ViewIsWell(t, u, look);
    var s, q := Step(u, look, e, name), Onward(t, look, p, name);
    StepOk(u, look, e, name);
    StepKeepsView(u, look, e, name);
    assert |t| <= |u| && Up(t, p.base) == Up(u, p.base) by { SameUp(t, u, look, p.base); }
    if name == ".." {
      if p.rest != [] { ReachUp(u, p.base, p.rest); }
    } else if !IsDot(name) {
      SameLook(t, u, look, p.base, p.rest + [name]);
      ReachLook(u, look, p.base, p.rest, [name]);
      if s.1.Some? {
        ReachKept(u, s.0, look, p.base, p.rest);
        ReachSnoc(s.0, p.base, p.rest, name);
      }
    }
  }

  lemma ViewIsWell(t: Tree, u: Tree, look: Lookup)
    requires SameView(t, u, look)
    ensures WellFormed(t) && WellFormed(u) && |t| <= |u|
  {
  }

  lemma SameUp(t: Tree, u: Tree, look: Lookup, d: nat)
    requires SameView(t, u, look) && d < |t|
    ensures |t| <= |u| && Up(t, d) == Up(u, d) && t[d].name == u[d].name && t[d].parent == u[d].parent
  {
  }

  lemma SameLook(t: Tree, u: Tree, look: Lookup, d: nat, names: seq<string>)
    requires SameView(t, u, look) && d < |t|
    ensures d < |u| && Look(u, look, d, names) == Look(t, look, d, names)
  {
  }

  /** A path leads where the name space of t says, from whatever tree u has the same name space as t. */
  lemma {:induction false} WalkFollows(t: Tree, u: Tree, look: Lookup, p: Place, e: nat, names: seq<string>)
    requires Dentries.TreeOk(u, look) && SameView(t, u, look) && p.base < |t| && e < |u|
      && Reach(u, p.base, p.rest) == Some(e)
    ensures var w, q := Walk(u, look, e, names), Follow(t, look, p, names);
            && (w.1.Some? <==> q.Some?) && SameView(t, w.0, look)
            && (q.Some? ==> Reach(w.0, q.value.base, q.value.rest) == w.1)
    decreases |names|
  {
    hide WellFormed, SameView, Step, Onward;
    ViewIsWell(t, u, look);
    if names != [] {
      StepOk(u, look, e, names[0]);
      StepFollows(t, u, look, p, e, names[0]);
      StepKeepsView(u, look, e, names[0]);
      var s, q := Step(u, look, e, names[0]), Onward(t, look, p, names[0]);
      SameViewTransitive(t, u, s.0, look);
      if q.Some? { WalkFollows(t, s.0, look, q.value, s.1.value, names[1..]); }
    }
  }

  ghost predicate SameEntry(t: Tree, d: nat, u: Tree, e: nat)
    requires d < |t| && e < |u|
  {
    t[d].name == u[e].name && t[d].inode == u[e].inode && t[d].isDir == u[e].isDir
  }

  /**
   * Prior resolutions never change a later result: from a tree u that shows the same name space as t, for instance
   * because it came from t by resolving other paths, the same path leads to the same name and inode, or fails in both.
   */
  lemma CacheIsTransparent(t: Tree, u: Tree, look: Lookup, d: nat, names: seq<string>)
    requires Dentries.TreeOk(t, look) && Dentries.TreeOk(u, look) && SameView(t, u, look) && d < |t|
    ensures var a, b := Walk(t, look, d, names), Walk(u, look, d, names);
            && (a.1.Some? <==> b.1.Some?) && (a.1.Some? ==> SameEntry(a.0, a.1.value, b.0, b.1.value))
  {
    hide WellFormed, SameView, Walk, Follow, Look;
    assert |t| <= |u| by { SameUp(t, u, look, d); }
    ReflexiveView(t, look);
    WalkFollows(t, t, look, Place(d, []), d, names);
    WalkFollows(t, u, look, Place(d, []), d, names);
    var a, b, q := Walk(t, look, d, names), Walk(u, look, d, names), Follow(t, look, Place(d, []), names);
    if q.Some? { SamePlace(t, a.0, b.0, look, q.value); }
  }

  lemma SamePlace(t: Tree, u: Tree, v: Tree, look: Lookup, q: Place)
    requires SameView(t, u, look) && SameView(t, v, look) && q.base < |t|
    requires Reach(u, q.base, q.rest).Some? && Reach(v, q.base, q.rest).Some?
    ensures SameEntry(u, Reach(u, q.base, q.rest).value, v, Reach(v, q.base, q.rest).value)
  {
    hide WellFormed, SameView;
    ViewIsWell(t, u, look);
    ViewIsWell(t, v, look);
    var d, e := Reach(u, q.base, q.rest).value, Reach(v, q.base, q.rest).value;
    ReachLook(u, look, q.base, q.rest, []);
    ReachLook(v, look, q.base, q.rest, []);
    SameLook(t, u, look, q.base, q.rest + []);
    SameLook(t, v, look, q.base, q.rest + []);
    if q.rest != [] {
      ReachUp(u, q.base, q.rest);
      ReachUp(v, q.base, q.rest);
    } else {
      SameUp(t, u, look, q.base);
      SameUp(t, v, look, q.base);
    }
  }
}
