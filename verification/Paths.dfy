/** Path strings: splitting at slashes, as str::split("/") does, and joining. */
module Paths {

  /** The pieces between slashes; there is always at least one. */
  function Split(s: string): (r: seq<string>)
    ensures |r| >= 1
    decreases |s|
  {
    if s == "" then [""]
    else if s[0] == '/' then [""] + Split(s[1..])
    else var r := Split(s[1..]); [[s[0]] + r[0]] + r[1..]
  }

  predicate SlashFree(s: string) { '/' !in s }

  function Join(names: seq<string>): string
    requires names != []
  {
    if |names| == 1 then names[0] else names[0] + "/" + Join(names[1..])
  }

  lemma {:induction false} PiecesAreSlashFree(s: string)
    ensures forall n :: n in Split(s) ==> SlashFree(n)
    decreases |s|
  {
    if s != "" {
      var r := Split(s[1..]);
      PiecesAreSlashFree(s[1..]);
      assert r[0] in r;
      forall n | n in Split(s) ensures SlashFree(n) {
        assert n == "" || n in r || n == [s[0]] + r[0];
      }
    }
  }

  /** Splitting a path p/q gives the pieces of p and then those of q. */
  lemma {:induction false} SplitJoined(p: string, q: string)
    ensures Split(p + "/" + q) == Split(p) + Split(q)
    decreases |p|
  {
    var s := p + "/" + q;
    if p == "" {
      assert s[1..] == q;
    } else {
      assert s[1..] == p[1..] + "/" + q;
      SplitJoined(p[1..], q);
      if p[0] == '/' {
        assert [""] + (Split(p[1..]) + Split(q)) == [""] + Split(p[1..]) + Split(q);
      } else {
        var a, b := Split(p[1..]), Split(q);
        assert (a + b)[0] == a[0] && (a + b)[1..] == a[1..] + b;
      }
    }
  }

  lemma {:induction false} SplitPiece(s: string)
    requires SlashFree(s)
    ensures Split(s) == [s]
    decreases |s|
  {
    if s != "" {
      assert s[0] in s;
      assert SlashFree(s[1..]) by { forall c | c in s[1..] ensures c in s {} }
      SplitPiece(s[1..]);
      assert [s[0]] + s[1..] == s;
    }
  }

  /** Joining and splitting invert on slash-free pieces. */
  lemma {:induction false} SplitOfJoin(names: seq<string>)
    requires names != [] && forall n :: n in names ==> SlashFree(n)
    ensures Split(Join(names)) == names
    decreases |names|
  {
    SplitPiece(names[0]);
    if |names| > 1 {
      SplitOfJoin(names[1..]);
      SplitJoined(names[0], Join(names[1..]));
      assert [names[0]] + names[1..] == names;
    } else {
      assert names == [names[0]];
    }
  }
}
