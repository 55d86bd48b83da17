/** Little-endian words: how the kernel's integers lie in bytes. */
module Words {

  type Byte = b: int | 0 <= b < 256

  /** 256 to the n: the number of values an n-byte word can hold. */
  function Span(n: nat): (s: nat)
    ensures s >= 1
  {
    if n == 0 then 1 else 256 * Span(n - 1)
  }

  /** The n low bytes of x, least significant first; what a store of an n-byte integer writes. */
  function ToBytes(x: nat, n: nat): (s: seq<Byte>)
    ensures |s| == n
  {
    if n == 0 then [] else [x % 256] + ToBytes(x / 256, n - 1)
  }

  /** The value a little-endian load reads. */
  function FromBytes(s: seq<Byte>): (x: nat)
    ensures x < Span(|s|)
  {
    if s == [] then 0 else s[0] + 256 * FromBytes(s[1..])
  }

  lemma {:induction false} LoadAfterStore(x: nat, n: nat)
    requires x < Span(n)
    ensures FromBytes(ToBytes(x, n)) == x
  {
    if n > 0 {
      LoadAfterStore(x / 256, n - 1);
      assert ToBytes(x, n)[1..] == ToBytes(x / 256, n - 1);
    }
  }

  /** Byte i of a stored integer is its i-th least significant one. */
  lemma {:induction false} LeastFirst(x: nat, n: nat, i: nat)
    requires i < n
    ensures ToBytes(x, n)[i] == x / Span(i) % 256
  {
    if i > 0 {
      LeastFirst(x / 256, n - 1, i - 1);
      DivideTwice(x, Span(i - 1));
    }
  }

  lemma DivideTwice(x: nat, d: nat)
    requires d >= 1
    ensures x / 256 / d == x / (256 * d)
  {
    var q, r := x / 256, x % 256;
    var p, t := q / d, q % d;
    assert x == 256 * (d * p + t) + r == 256 * d * p + (256 * t + r);
    assert 256 * t + r < 256 * d;
    DivideExactly(x, 256 * d, p, 256 * t + r);
  }

  lemma DivideExactly(x: nat, d: nat, p: nat, r: nat)
    requires d >= 1 && r < d && x == d * p + r
    ensures x / d == p
  {
    var q := x / d;
    assert d * q <= x < d * q + d;
    if q < p { TimesGrows(d, q + 1, p); }
    if q > p { TimesGrows(d, p + 1, q); }
  }

  lemma TimesGrows(d: nat, a: nat, b: nat)
    requires a <= b
    ensures d * a <= d * b
  {
  }

  lemma {:induction false} StoreAfterLoad(s: seq<Byte>)
    ensures ToBytes(FromBytes(s), |s|) == s
  {
    if s != [] {
      StoreAfterLoad(s[1..]);
      var rest := FromBytes(s[1..]);
      assert (s[0] + 256 * rest) % 256 == s[0] && (s[0] + 256 * rest) / 256 == rest;
      assert s == [s[0]] + s[1..];
    }
  }

  lemma {:induction false} ZerosLoadZero(s: seq<Byte>)
    requires forall i :: 0 <= i < |s| ==> s[i] == 0
    ensures FromBytes(s) == 0
  {
    if s != [] {
      ZerosLoadZero(s[1..]);
    }
  }

  function Zeros(n: nat): (s: seq<Byte>)
    ensures |s| == n && forall i :: 0 <= i < n ==> s[i] == 0
  {
    if n == 0 then [] else Zeros(n - 1) + [0]
  }

  ghost predicate NulFree(s: seq<Byte>) { forall i :: 0 <= i < |s| ==> s[i] != 0 }

  const SPAN64: nat := 0x1_0000_0000_0000_0000

  lemma Span8()
    ensures Span(8) == SPAN64
  {
    assert Span(2) == 0x1_0000;
    assert Span(4) == 0x1_0000_0000;
    assert Span(6) == 0x1_0000_0000_0000;
  }
}
