/**
 * Reading a directory with getdents64 (src/syscall/file.rs, src/filesystem/mod.rs): the children in key order, as many
 * records a call as fit, and the cursor kept in the open file.
 */
module Getdents {
  import opened Basics
  import opened Words
  import opened DirEntries

  // ---- the order of the keys

  /** The order of strings: byte by byte. */
  predicate Less(a: Name, b: Name) {
    b != [] && (a == [] || a[0] < b[0] || (a[0] == b[0] && Less(a[1..], b[1..])))
  }

  /** One name is before another if it is its beginning, or has the smaller byte where they first differ. */
  lemma {:induction false} LessMeans(a: Name, b: Name)
    ensures Less(a, b) <==> exists k: nat :: BeforeAt(a, b, k)
    decreases |a|
  {
    if a == [] {
      if b != [] { assert BeforeAt(a, b, 0); }
    } else if b != [] {
      LessMeans(a[1..], b[1..]);
      assert BeforeAt(a, b, 0) <==> a[0] < b[0];
      if Less(a, b) && a[0] == b[0] {
        var k: nat :| BeforeAt(a[1..], b[1..], k);
        BeforeNext(a, b, k);
      }
      if k: nat :| BeforeAt(a, b, k) {
        if k > 0 { BeforeNext(a, b, k - 1); }
      }
    }
  }

  lemma BeforeNext(a: Name, b: Name, k: nat)
    requires a != [] && b != []
    ensures BeforeAt(a, b, k + 1) <==> a[0] == b[0] && BeforeAt(a[1..], b[1..], k)
  {
    if k + 1 <= |a| && k + 1 < |b| {
      assert a[..k + 1] == [a[0]] + a[1..][..k] && b[..k + 1] == [b[0]] + b[1..][..k];
    }
  }

  ghost predicate BeforeAt(a: Name, b: Name, k: nat) {
    k <= |a| && k < |b| && a[..k] == b[..k] && (k == |a| || a[k] < b[k])
  }

  lemma {:induction false} LessIsTotal(a: Name, b: Name)
    ensures a == b || Less(a, b) || Less(b, a)
  {
    if a != [] && b != [] && a[0] == b[0] {
      LessIsTotal(a[1..], b[1..]);
      if a[1..] == b[1..] {
        assert [a[0]] + a[1..] == [b[0]] + b[1..];
        assert a == [a[0]] + a[1..] && b == [b[0]] + b[1..];
      }
    }
  }

  lemma {:induction false} LessIsTransitive(a: Name, b: Name, c: Name)
    requires Less(a, b) && Less(b, c)
    ensures Less(a, c)
  {
    if a != [] && a[0] == b[0] && b[0] == c[0] { LessIsTransitive(a[1..], b[1..], c[1..]); }
  }

  lemma {:induction false} LessIsIrreflexive(a: Name)
    ensures !Less(a, a)
  {
    if a != [] { LessIsIrreflexive(a[1..]); }
  }

  ghost predicate Least(keys: set<Name>, m: Name) { m in keys && forall k :: k in keys ==> k == m || Less(m, k) }

  /** The next key of an iteration in order. */
  method Smallest(keys: set<Name>) returns (m: Name)
    requires keys != {}
    ensures Least(keys, m)
  {
    m :| m in keys;
    var rest := keys - {m};
    while rest != {}
      invariant m in keys && rest <= keys
      invariant forall k :: k in keys - rest ==> k == m || Less(m, k)
      decreases |rest|
    {
      var x :| x in rest;
      LessIsTotal(x, m);
      if x != m && Less(x, m) {
        forall k | k in keys - rest ensures k == x || Less(x, k) { if k != m { LessIsTransitive(x, m, k); } }
        m := x;
      }
      rest := rest - {x};
    }
  }

  // ---- the listing of a directory

  type Children = map<Name, Entry>

  ghost predicate Sorted(l: seq<Entry>) { forall i, j :: 0 <= i < j < |l| ==> Less(l[i].name, l[j].name) }

  ghost function NamesOf(l: seq<Entry>): set<Name> { set i | 0 <= i < |l| :: l[i].name }

  /** Every child exactly once, in the order of the keys. */
  ghost predicate IsListing(m: Children, l: seq<Entry>) {
    Sorted(l) && m.Keys == NamesOf(l) && forall i :: 0 <= i < |l| ==> m[l[i].name] == l[i]
  }

  lemma {:induction false} NoNameTwice(l: seq<Entry>, i: nat, j: nat)
    requires Sorted(l) && i < |l| && j < |l| && l[i].name == l[j].name
    ensures i == j
  {
    LessIsIrreflexive(l[i].name);
  }

  /** The head of a listing has the smallest key; the rest lists the others. */
  lemma ListingHead(l: seq<Entry>, m: Name)
    requires Sorted(l) && l != [] && Least(NamesOf(l), m)
    ensures m == l[0].name && Sorted(l[1..]) && NamesOf(l[1..]) == NamesOf(l) - {m}
  {
    hide Less;
    assert l[0].name in NamesOf(l);
    if m != l[0].name {
      var i :| 0 <= i < |l| && l[i].name == m;
      LessIsTransitive(m, l[0].name, m);
      LessIsIrreflexive(m);
      assert false;
    }
    forall n ensures n in NamesOf(l[1..]) <==> n in NamesOf(l) - {m} {
      if n in NamesOf(l[1..]) {
        var i :| 0 <= i < |l[1..]| && l[1..][i].name == n;
        assert l[i + 1].name == n;
        if n == m { NoNameTwice(l, 0, i + 1); }
      }
      if n in NamesOf(l) - {m} {
        var i :| 0 <= i < |l| && l[i].name == n;
        assert l[1..][i - 1].name == n;
      }
    }
  }

  lemma {:induction false} LeastExists(keys: set<Name>) returns (m: Name)
    requires keys != {}
    ensures Least(keys, m)
    decreases |keys|
  {
    hide Less;
    m :| m in keys;
    var rest := keys - {m};
    if rest == {} {
      assert keys == {m};
    } else {
      var k := LeastExists(rest);
      LessIsTotal(k, m);
      if Less(k, m) {
        m := k;
      } else {
        forall x | x in keys && x != m ensures Less(m, x) { if x != k { LessIsTransitive(m, k, x); } }
      }
    }
  }

  /** Every directory has a listing. */
  lemma {:induction false} ListingExists(m: Children) returns (l: seq<Entry>)
    requires forall n :: n in m ==> m[n].name == n
    ensures IsListing(m, l)
    decreases |m|
  {
    hide Less;
    if m == map[] {
      l := [];
    } else {
      assert m.Keys != {};
      var k := LeastExists(m.Keys);
      var rest := m - {k};
      assert rest.Keys == m.Keys - {k};
      assert |m.Keys - {k}| < |m.Keys|;
      var tail := ListingExists(rest);
      l := [m[k]] + tail;
      ConsListing(m, k, tail);
    }
  }

  lemma ConsListing(m: Children, k: Name, tail: seq<Entry>)
    requires (forall n :: n in m ==> m[n].name == n) && Least(m.Keys, k) && IsListing(m - {k}, tail)
    ensures IsListing(m, [m[k]] + tail)
  {
    hide Less;
    var l := [m[k]] + tail;
    NamesCons(m[k], tail);
    assert NamesOf(l) == {k} + (m - {k}).Keys == m.Keys;
    forall i | 0 <= i < |tail|
      ensures tail[i].name in m.Keys && tail[i].name != k
    {
      assert tail[i].name in NamesOf(tail);
    }
    assert Sorted(l);
    forall i | 0 <= i < |l| ensures m[l[i].name] == l[i] { if i > 0 { assert l[i] == tail[i - 1]; } }
  }

  lemma NamesCons(e: Entry, tail: seq<Entry>)
    ensures NamesOf([e] + tail) == {e.name} + NamesOf(tail)
  {
    var l := [e] + tail;
    forall n | n in NamesOf(tail)
      ensures n in NamesOf(l)
    {
      var i :| 0 <= i < |tail| && tail[i].name == n;
      assert l[i + 1].name == n;
    }
    assert l[0].name == e.name;
    forall n | n in NamesOf(l) ensures n in {e.name} + NamesOf(tail) {
      var i :| 0 <= i < |l| && l[i].name == n;
      if i > 0 { assert tail[i - 1].name == n; }
    }
  }

  // ---- the records that fit

  /** How many records from position i on fit in this much room. */
  function Taken(l: seq<Entry>, i: nat, room: nat): (n: nat)
    ensures n == 0 || i + n <= |l|
    decreases |l| - i
  {
    if i < |l| && RecLen(l[i]) <= room then 1 + Taken(l, i + 1, room - RecLen(l[i])) else 0
  }

  /** The records of n entries from position i on, each with its position. */
  function Records(l: seq<Entry>, i: nat, n: nat): seq<Byte>
    requires n == 0 || i + n <= |l|
    decreases n
  {
    if n == 0 then [] else Record(l[i], i) + Records(l, i + 1, n - 1)
  }

  /** As many records as fit: the next one, if there is one, would not. */
  lemma {:induction false} TakenIsMost(l: seq<Entry>, i: nat, room: nat)
    ensures var n := Taken(l, i, room);
      && |Records(l, i, n)| <= room
      && (i + n < |l| ==> |Records(l, i, n)| + |Record(l[i + n], i + n)| > room)
    decreases |l| - i
  {
    hide RecLen, Record;
    if i < |l| {
      RecordLength(l[i], i);
      if RecLen(l[i]) <= room { TakenIsMost(l, i + 1, room - RecLen(l[i])); }
    }
  }

  lemma RecordLength(e: Entry, off: nat)
    ensures |Record(e, off)| == RecLen(e)
  {
  }

  lemma NoRecords(l: seq<Entry>)
    ensures Records(l, 0, 0) == []
  {
  }

  lemma {:induction false} RecordsJoin(l: seq<Entry>, i: nat, n: nat, k: nat)
    requires i + n + k <= |l|
    ensures Records(l, i, n + k) == Records(l, i, n) + Records(l, i + n, k)
    decreases n
  {
    hide Record, RecLen;
    if n == 0 {
      assert Records(l, i, 0) + Records(l, i, k) == Records(l, i, k);
    } else {
      RecordsJoin(l, i + 1, n - 1, k);
      var a, b, c := Record(l[i], i), Records(l, i + 1, n - 1), Records(l, i + n, k);
      assert a + (b + c) == a + b + c;
    }
  }

  /** What is read back from the records of n entries are those entries. */
  lemma {:induction false} RecordsReadBack(l: seq<Entry>, i: nat, n: nat)
    requires i + n <= |l| < SPAN64 && forall k :: 0 <= k < |l| ==> Readable(l[k])
    ensures ParseAll(Records(l, i, n)) == Some(l[i..i + n])
    decreases n
  {
    hide Record, RecLen, ParseOne, Readable;
    if n > 0 {
      var a, b := Record(l[i], i), Records(l, i + 1, n - 1);
      RecordReadsBack(l[i], i, b);
      assert (a + b)[RecLen(l[i])..] == b;
      RecordsReadBack(l, i + 1, n - 1);
      assert [l[i]] + l[i + 1..i + n] == l[i..i + n];
    }
  }

  /** Each record carries the position of its entry. */
  lemma {:induction false} OffsetsReadBack(l: seq<Entry>, i: nat, n: nat)
    requires i + n <= |l| < SPAN64 && forall k :: 0 <= k < |l| ==> Readable(l[k])
    ensures |ParseOffsets(Records(l, i, n))| == n
    ensures forall k :: 0 <= k < n ==> ParseOffsets(Records(l, i, n))[k] == i + k
    decreases n
  {
    hide Record, RecLen, ParseOne, Readable;
    if n > 0 {
      var a, b := Record(l[i], i), Records(l, i + 1, n - 1);
      RecordReadsBack(l[i], i, b);
      assert (a + b)[RecLen(l[i])..] == b;
      OffsetsReadBack(l, i + 1, n - 1);
    } else {
      NothingParsed();
    }
  }

  lemma NothingParsed()
    ensures ParseOne([]) == None
  {
  }

  lemma RecordReadsBack(e: Entry, off: nat, more: seq<Byte>)
    requires Readable(e) && off < SPAN64
    ensures ParseOne(Record(e, off) + more) == Some(Parsed(e, off, RecLen(e)))
  {
    RecordReadsBackIff(e, off, more);
  }

  // ---- any sequence of calls

  /** The cursor after calls with buffers of these lengths. */
  function Cursor(l: seq<Entry>, lens: seq<nat>): (i: nat)
    ensures i <= |l|
    decreases |lens|
  {
    if lens == [] then 0 else
    var n := |lens| - 1;
    var i := Cursor(l, lens[..n]);
    i + Taken(l, i, lens[n])
  }

  /** The bytes all these calls have returned, one after another. */
  function Output(l: seq<Entry>, lens: seq<nat>): seq<Byte>
    decreases |lens|
  {
    if lens == [] then [] else
    var n := |lens| - 1;
    var i := Cursor(l, lens[..n]);
    Output(l, lens[..n]) + Records(l, i, Taken(l, i, lens[n]))
  }

  lemma {:induction false} OutputIsRecords(l: seq<Entry>, lens: seq<nat>)
    ensures Output(l, lens) == Records(l, 0, Cursor(l, lens))
    decreases |lens|
  {
    hide Taken, Records;
    NoRecords(l);
    if lens != [] {
      var n := |lens| - 1;
      OutputIsRecords(l, lens[..n]);
      var i := Cursor(l, lens[..n]);
      RecordsJoin(l, 0, i, Taken(l, i, lens[n]));
    }
  }

  /** Every buffer has room for every record. */
  ghost predicate Roomy(l: seq<Entry>, lens: seq<nat>) {
    forall k, i :: 0 <= k < |lens| && 0 <= i < |l| ==> RecLen(l[i]) <= lens[k]
  }

  lemma {:induction false} CursorAdvances(l: seq<Entry>, lens: seq<nat>)
    requires Roomy(l, lens)
    ensures Cursor(l, lens) >= if |lens| < |l| then |lens| else |l|
    decreases |lens|
  {
    hide RecLen;
    if lens != [] {
      var n := |lens| - 1;
      assert Roomy(l, lens[..n]);
      CursorAdvances(l, lens[..n]);
    }
  }

  /**
   * For every sequence of calls with roomy buffers: the bytes returned so far read back as the first entries of the
   * listing, each once and in order; a call returns nothing if and only if all have been returned; and they have been
   * after as many calls as there are entries.
   */
  lemma EveryChildOnce(l: seq<Entry>, lens: seq<nat>, len: nat)
    requires |l| < SPAN64 && (forall k :: 0 <= k < |l| ==> Readable(l[k])) && Roomy(l, lens + [len])
    ensures ParseAll(Output(l, lens)) == Some(l[..Cursor(l, lens)])
    ensures Taken(l, Cursor(l, lens), len) == 0 <==> Cursor(l, lens) == |l|
    ensures |lens| >= |l| ==> Cursor(l, lens) == |l|
    ensures Cursor(l, lens) == |l| ==> Cursor(l, lens + [len]) == |l| && Output(l, lens + [len]) == Output(l, lens)
  {
    hide RecLen, Readable, ParseAll, Record, Taken, Records, Output, Cursor;
    OutputIsRecords(l, lens);
    RecordsReadBack(l, 0, Cursor(l, lens));
    var all := lens + [len];
    assert Roomy(l, lens) by {
      forall k, j | 0 <= k < |lens| && 0 <= j < |l|
        ensures RecLen(l[j]) <= lens[k]
      {
        assert all[k] == lens[k];
      }
    }
    CursorAdvances(l, lens);
    assert all[|lens|] == len;
    NextCall(l, lens, len);
  }

  /** One call more. */
  lemma NextCall(l: seq<Entry>, lens: seq<nat>, len: nat)
    requires forall i :: 0 <= i < |l| ==> RecLen(l[i]) <= len
    ensures Taken(l, Cursor(l, lens), len) == 0 <==> Cursor(l, lens) == |l|
    ensures Cursor(l, lens) == |l| ==> Cursor(l, lens + [len]) == |l| && Output(l, lens + [len]) == Output(l, lens)
  {
    hide RecLen, Record;
    var all := lens + [len];
    assert all[..|lens|] == lens;
    assert Output(l, lens) + [] == Output(l, lens);
  }

  // ---- the directory and the open file

  /** BTreeMap::extend: later entries replace earlier ones of the same name. */
  function Extended(m: Children, es: seq<Entry>): (r: Children)
    ensures (forall n :: n in m ==> m[n].name == n) ==> forall n :: n in r ==> r[n].name == n
    decreases |es|
  {
    if es == [] then m else Extended(m, es[..|es| - 1])[es[|es| - 1].name := es[|es| - 1]]
  }

  ghost predicate NamedIn(es: seq<Entry>, n: Name) { exists i :: 0 <= i < |es| && es[i].name == n }

  /** No later entry has the name of entry i. */
  ghost predicate LastOfName(es: seq<Entry>, i: nat) {
    i < |es| && forall j :: i < j < |es| ==> es[j].name != es[i].name
  }

  /**
   * The children after extending: the names of the cache and of the entries, with the last entry of a name if there is
   * one and the cached child otherwise.
   */
  ghost predicate Merges(m: Children, es: seq<Entry>, r: Children) {
    && (forall n :: n in r <==> n in m || NamedIn(es, n))
    && (forall i: nat :: LastOfName(es, i) ==> es[i].name in r && r[es[i].name] == es[i])
    && (forall n :: n in m && !NamedIn(es, n) ==> n in r && r[n] == m[n])
  }

  lemma NamedGrows(es: seq<Entry>, n: Name)
    requires es != []
    ensures NamedIn(es, n) <==> NamedIn(es[..|es| - 1], n) || n == es[|es| - 1].name
  {
    var k := |es| - 1;
    var front := es[..k];
    if NamedIn(front, n) {
      var i :| 0 <= i < |front| && front[i].name == n;
      assert es[i].name == n;
    }
    if NamedIn(es, n) {
      var i :| 0 <= i < |es| && es[i].name == n;
      if i < k { assert front[i].name == n; }
    }
  }

  /** One more entry. */
  lemma MergesOne(m: Children, es: seq<Entry>, r: Children)
    requires es != [] && Merges(m, es[..|es| - 1], r)
    ensures Merges(m, es, r[es[|es| - 1].name := es[|es| - 1]])
  {
    hide NamedIn;
    var k := |es| - 1;
    var front, e := es[..k], es[k];
    forall n ensures NamedIn(es, n) <==> NamedIn(front, n) || n == e.name { NamedGrows(es, n); }
    forall i: nat | LastOfName(es, i) && i < k
      ensures es[i].name in r && r[es[i].name] == es[i] && es[i].name != e.name
    {
      assert LastOfName(front, i) && front[i] == es[i];
    }
  }

  lemma {:induction false} ExtendedMerges(m: Children, es: seq<Entry>)
    ensures Merges(m, es, Extended(m, es)) && |Extended(m, es)| <= |m| + |es|
    decreases |es|
  {
    hide Merges;
    if es == [] {
      NothingMerged(m);
    } else {
      var k := |es| - 1;
      ExtendedMerges(m, es[..k]);
      var r := Extended(m, es[..k]);
      MergesOne(m, es, r);
      assert Extended(m, es).Keys == r.Keys + {es[k].name};
    }
  }

  lemma NothingExtended(m: Children)
    ensures Extended(m, []) == m
  {
  }

  lemma NothingMerged(m: Children)
    ensures Merges(m, [], m)
  {
  }

  /** What the inode's read_dir gives: there may be no inode, or the read may fail. */
  datatype Source = NoInode | Unreadable | Holds(entries: seq<Entry>)

  function EntriesOf(source: Source): seq<Entry> { if source.Holds? then source.entries else [] }

  /** An open directory: the entry's cached children, whether they are complete, and the cursor of the file. */
  class DirFile {
    var children: Children
    var loaded: bool
    var cursor: nat
    const source: Source

    ghost function All(): Children
      reads this
    {
      if loaded || !source.Holds? then children else Extended(children, source.entries)
    }

    constructor (children: Children, source: Source)
      ensures this.children == children && this.source == source && !loaded && cursor == 0
    {
      this.children, this.source, this.loaded, this.cursor := children, source, false, 0;
    }

    /** The children are all read once; reading them again changes nothing. */
    method Load() returns (ok: bool)
      modifies this`children, this`loaded
      ensures ok == (old(loaded) || !source.Unreadable?)
      ensures ok ==> loaded && children == old(All())
      ensures ok && !old(loaded) ==> Merges(old(children), EntriesOf(source), children)
      ensures !ok ==> loaded == old(loaded) && children == old(children)
    {
      if loaded {
        return true;
      }
      if source.Unreadable? {
        return false;
      }
      hide Merges;
      ExtendedMerges(children, EntriesOf(source));
      if source.Holds? {
        var es := source.entries;
        ghost var m := children;
        for i := 0 to |es|
          invariant children == Extended(m, es[..i])
        {
          assert es[..i + 1][..i] == es[..i];
          children := children[es[i].name := es[i]];
        }
        assert es[..|es|] == es;
      }
      loaded := true;
      ok := true;
    }

    /** get_child: the child at position i of the order. */
    method GetChild(i: nat, ghost l: seq<Entry>) returns (ok: bool, r: Option<Entry>)
      requires IsListing(All(), l)
      modifies this`children, this`loaded
      ensures ok == (old(loaded) || !source.Unreadable?) && All() == old(All()) && (ok ==> loaded)
      ensures ok ==> r == if i < |l| then Some(l[i]) else None
    {
      ok := Load();
      if !ok {
        return false, None;
      }
      hide Less, Sorted;
      var all := children;
      var rest := all.Keys;
      var k := 0;
      assert l[0..] == l;
      while k < i && rest != {}
        invariant 0 <= k <= i && k <= |l| && Sorted(l[k..]) && rest == NamesOf(l[k..])
        invariant children == all && loaded
      {
        assert l[k..] != [];
        var m := Smallest(rest);
        ListingHead(l[k..], m);
        assert l[k..][1..] == l[k + 1..];
        rest := rest - {m};
        k := k + 1;
      }
      if rest == {} {
        SomeName(l[k..]);
        return true, None;
      }
      assert l[k..] != [];
      var m := Smallest(rest);
      ListingHead(l[k..], m);
      assert m == l[i].name;
      r := Some(all[m]);
    }

    /** seek with SeekPosition::Set. */
    method SeekSet(offset: int)
      modifies this`cursor
      ensures cursor == if offset <= 0 then 0 else offset
    {
      cursor := if offset <= 0 then 0 else offset;
    }

    /** getdents64: what goes into a buffer of length len, or an error. */
    method Getdents64(len: nat, ghost l: seq<Entry>) returns (r: Option<seq<Byte>>)
      requires IsListing(All(), l)
      modifies this
      ensures All() == old(All()) && r.Some? == (old(loaded) || !source.Unreadable?)
      ensures r.None? ==> cursor == old(cursor)
      ensures r.Some? ==> loaded && cursor == old(cursor) + Taken(l, old(cursor), len)
      ensures r.Some? ==> r.value == Records(l, old(cursor), Taken(l, old(cursor), len)) && |r.value| <= len
    {
      hide IsListing, Record, RecLen;
      ghost var start := cursor;
      var i := cursor;
      var out: seq<Byte> := [];
      while true
        invariant start <= i && (i <= |l| || i == start) && |out| <= len && All() == old(All()) && cursor == start
        invariant loaded || (i == start && loaded == old(loaded))
        invariant old(loaded) ==> loaded
        invariant loaded ==> old(loaded) || !source.Unreadable?
        invariant out == Records(l, start, i - start)
        invariant Taken(l, start, len) == i - start + Taken(l, i, len - |out|)
        decreases |l| - i
      {
        var ok, child := GetChild(i, l);
        if !ok {
          return None;
        }
        if child.None? {
          break;
        }
        var rec := FromDentry(child.value, i);
        if |out| + |rec| > len {
          break;
        }
        OneMore(l, start, i);
        out := out + rec;
        i := i + 1;
      }
      SeekSet(i);
      r := Some(out);
    }

    /** Calls with buffers of these lengths, one after another, on a directory just opened. */
    method Calls(lens: seq<nat>, ghost l: seq<Entry>) returns (out: seq<Byte>)
      requires IsListing(All(), l) && cursor == 0 && !source.Unreadable?
      modifies this
      ensures out == Output(l, lens) && cursor == Cursor(l, lens)
    {
      hide IsListing, Records, Taken;
      out := [];
      for k := 0 to |lens|
        invariant IsListing(All(), l) && cursor == Cursor(l, lens[..k]) && out == Output(l, lens[..k])
      {
        assert lens[..k + 1][..k] == lens[..k];
        var r := Getdents64(lens[k], l);
        out := out + r.value;
      }
      assert lens[..|lens|] == lens;
    }
  }

  /** A listing is as long as the directory is large. */
  lemma {:induction false} ListingLength(l: seq<Entry>)
    requires Sorted(l)
    ensures |NamesOf(l)| == |l|
    decreases |l|
  {
    hide Less;
    if l != [] {
      var tail := l[1..];
      assert l == [l[0]] + tail;
      NamesCons(l[0], tail);
      assert Sorted(tail);
      ListingLength(tail);
      if l[0].name in NamesOf(tail) {
        var i :| 0 <= i < |tail| && tail[i].name == l[0].name;
        NoNameTwice(l, 0, i + 1);
      }
    }
  }

  /** Every entry of the directory can be read back, and has room in every buffer. */
  ghost predicate Fits(e: Entry, lens: seq<nat>) {
    Readable(e) && forall k :: 0 <= k < |lens| ==> RecLen(e) <= lens[k]
  }

  /**
   * A directory with these cached children over this inode, just opened and read by enough calls with enough room: the
   * reader finds the cached names and the names of the inode's entries, all of them, each once and in order, with the
   * inode's last entry of a name if it has one.
   */
  method ReadDirectory(children: Children, source: Source, lens: seq<nat>) returns (out: seq<Byte>)
    requires !source.Unreadable? && forall n :: n in children ==> children[n].name == n && Fits(children[n], lens)
    requires forall i :: 0 <= i < |EntriesOf(source)| ==> Fits(EntriesOf(source)[i], lens)
    requires |children| + |EntriesOf(source)| < SPAN64 && |lens| >= |children| + |EntriesOf(source)|
    ensures exists l :: ParseAll(out) == Some(l) && Sorted(l) && ListsAll(children, EntriesOf(source), l)
    ensures forall k :: 0 <= k < |ParseOffsets(out)| ==> ParseOffsets(out)[k] == k
  {
    hide Less, Readable, RecLen, ParseAll, ParseOffsets, Output, Cursor, Records, Extended, Merges, IsListing, Roomy;
    var d := new DirFile(children, source);
    ghost var all, entries := d.All(), EntriesOf(source);
    ExtendedMerges(children, entries);
    NothingExtended(children);
    ghost var l := ListingExists(all);
    MergedListing(children, entries, all, lens, l);
    out := d.Calls(lens, l);
    ghost var len := if lens == [] then 0 else lens[0];
    EveryChildOnce(l, lens, len);
    OutputIsRecords(l, lens);
    OffsetsReadBack(l, 0, |l|);
    assert l[..|l|] == l;
  }

  ghost predicate ListsAll(children: Children, entries: seq<Entry>, l: seq<Entry>) {
    && (forall n :: n in NamesOf(l) <==> n in children || NamedIn(entries, n))
    && (forall i: nat :: LastOfName(entries, i) ==> entries[i] in l)
    && (forall n :: n in children && !NamedIn(entries, n) ==> children[n] in l)
  }

  lemma MergedListing(children: Children, entries: seq<Entry>, all: Children, lens: seq<nat>, l: seq<Entry>)
    requires Merges(children, entries, all) && IsListing(all, l)
    requires forall n :: n in children ==> children[n].name == n && Fits(children[n], lens)
    requires forall i :: 0 <= i < |entries| ==> Fits(entries[i], lens)
    ensures |l| == |all| && Sorted(l) && ListsAll(children, entries, l)
    ensures forall k :: 0 <= k < |l| ==> Readable(l[k])
    ensures lens != [] ==> Roomy(l, lens + [lens[0]])
    ensures lens == [] && l == [] ==> Roomy(l, lens + [0])
  {
    hide Less, Readable, RecLen;
    ListingLength(l);
    forall n | n in all ensures all[n] in l && Fits(all[n], lens) {
      InListing(all, l, n);
      FromEither(children, entries, all, n);
    }
    forall k | 0 <= k < |l| ensures Fits(l[k], lens) { assert l[k].name in NamesOf(l); }
    var more := if lens == [] then [] else lens + [lens[0]];
    assert forall k :: 0 <= k < |more| ==> more[k] in lens;
  }

  lemma InListing(all: Children, l: seq<Entry>, n: Name)
    requires IsListing(all, l) && n in all
    ensures all[n] in l
  {
    assert n in NamesOf(l);
  }

  /** Every child is one of the cache or one of the entries. */
  lemma FromEither(children: Children, entries: seq<Entry>, all: Children, n: Name)
    requires Merges(children, entries, all) && n in all
    ensures (n in children && all[n] == children[n]) || exists i :: 0 <= i < |entries| && all[n] == entries[i]
  {
    if NamedIn(entries, n) {
      var i := LastNamed(entries, n);
      assert LastOfName(entries, i);
    }
  }

  lemma {:induction false} LastNamed(es: seq<Entry>, n: Name) returns (i: nat)
    requires NamedIn(es, n)
    ensures LastOfName(es, i) && es[i].name == n
    decreases |es|
  {
    var k := |es| - 1;
    NamedGrows(es, n);
    if es[k].name == n {
      i := k;
    } else {
      i := LastNamed(es[..k], n);
    }
  }

  lemma SomeName(l: seq<Entry>)
    ensures l != [] ==> NamesOf(l) != {}
  {
    if l != [] { assert l[0].name in NamesOf(l); }
  }

  lemma OneMore(l: seq<Entry>, start: nat, i: nat)
    requires start <= i < |l|
    ensures Records(l, start, i + 1 - start) == Records(l, start, i - start) + Record(l[i], i)
  {
    hide Record, RecLen;
    RecordsJoin(l, start, i - start, 1);
    assert Records(l, i, 1) == Record(l[i], i) + [];
  }
}
