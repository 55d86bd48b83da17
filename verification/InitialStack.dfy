/**
 * Process::execve builds the initial user stack downward in place: strings, then the auxiliary table, the environment
 * table, the argument table and argc (src/process/process.rs). Addresses are distances below the stack base, so that
 * a push never moves what is already there.
 */
module InitialStack {
  import opened Words
  import opened Physical

  type Str = seq<Byte>

  /** One entry of the auxiliary table. */
  datatype Aux = Aux(kind: nat, value: nat)

  const AT_NULL: nat := 0
  const AT_EXECFN: nat := 31

  function RoundUp16(d: nat): (r: nat)
    ensures d <= r < d + 16 && r % 16 == 0
  {
    (d + 15) / 16 * 16
  }

  function RoundDown16(d: nat): nat { d / 16 * 16 }

  /** How far below the base the stack pointer is after pushing a string of this length from distance d. */
  function Pushed(d: nat, len: nat): nat { RoundUp16(d + len + 1) }

  /** The distance after pushing all of them. */
  function Depth(d: nat, strs: seq<Str>): nat {
    if strs == [] then d else Pushed(Depth(d, strs[..|strs| - 1]), |strs[|strs| - 1]|)
  }

  /** The part of the stack from distance d up to the base. */
  function From(stack: seq<Byte>, d: nat): (t: seq<Byte>)
    requires d <= |stack|
    ensures |t| == d
  {
    stack[|stack| - d..]
  }

  lemma FromBelow(x: seq<Byte>, stack: seq<Byte>, d: nat)
    requires d <= |stack|
    ensures From(x + stack, d) == From(stack, d)
  {
  }

  /** A NUL-terminated string lies at distance d. */
  ghost predicate HasString(stack: seq<Byte>, d: nat, s: Str) {
    |s| < d <= |stack| && From(stack, d)[..|s| + 1] == s + [0]
  }

  lemma HasStringBelow(x: seq<Byte>, stack: seq<Byte>, d: nat, s: Str)
    requires HasString(stack, d, s)
    ensures HasString(x + stack, d, s)
  {
    FromBelow(x, stack, d);
  }

  // ---- the tables

  function WordBytes(ws: seq<nat>): (t: seq<Byte>)
    ensures |t| == 8 * |ws|
  {
    if ws == [] then [] else ToBytes(ws[0], 8) + WordBytes(ws[1..])
  }

  lemma {:induction false} WordBytesConcat(a: seq<nat>, b: seq<nat>)
    ensures WordBytes(a + b) == WordBytes(a) + WordBytes(b)
  {
    if a == [] {
      assert a + b == b;
    } else {
      assert (a + b)[1..] == a[1..] + b;
      WordBytesConcat(a[1..], b);
    }
  }

  function AuxWords(aux: seq<Aux>): (ws: seq<nat>)
    ensures |ws| == 2 * |aux|
  {
    if aux == [] then [] else [aux[0].kind, aux[0].value] + AuxWords(aux[1..])
  }

  // ---- a reader, as a C library start-up routine walks the stack

  function ReadWord(t: seq<Byte>): nat {
    if |t| < 8 then 0 else FromBytes(t[..8])
  }

  /** Words up to a zero word. */
  function ReadPointers(t: seq<Byte>): (ws: seq<nat>)
    decreases |t|
  {
    if |t| < 8 || ReadWord(t) == 0 then [] else [ReadWord(t)] + ReadPointers(t[8..])
  }

  /** Auxiliary entries up to one of kind 0, AT_NULL. */
  function ReadAux(t: seq<Byte>): (aux: seq<Aux>)
    decreases |t|
  {
    if |t| < 16 || ReadWord(t) == 0 then []
    else [Aux(ReadWord(t), ReadWord(t[8..]))] + ReadAux(t[16..])
  }

  function ReadString(t: seq<Byte>): (s: Str)
    decreases |t|
  {
    if t == [] || t[0] == 0 then [] else [t[0]] + ReadString(t[1..])
  }

  /** The string at a user address; the stack ends at virtual address `base`. */
  function ReadStringAt(stack: seq<Byte>, base: nat, va: nat): Str {
    if va <= base && base - va <= |stack| then ReadString(From(stack, base - va)) else []
  }

  function ReadStrings(stack: seq<Byte>, base: nat, vas: seq<nat>): (strs: seq<Str>)
    ensures |strs| == |vas|
  {
    seq(|vas|, i requires 0 <= i < |vas| => ReadStringAt(stack, base, vas[i]))
  }

  datatype Args = Args(argc: nat, argv: seq<Str>, env: seq<Str>, aux: seq<Aux>)

  function Skip(t: seq<Byte>, n: nat): seq<Byte> { if n <= |t| then t[n..] else [] }

  /** What a program finds from its initial stack pointer on. */
  function ReadArgs(stack: seq<Byte>, base: nat): Args {
    var argv := ReadPointers(Skip(stack, 8));
    var afterArgv := Skip(stack, 8 + 8 * (|argv| + 1));
    var env := ReadPointers(afterArgv);
    var afterEnv := Skip(afterArgv, 8 * (|env| + 1));
    Args(ReadWord(stack), ReadStrings(stack, base, argv), ReadStrings(stack, base, env), ReadAux(afterEnv))
  }

  // ---- reading back what was written

  lemma ReadFirstWord(w: nat, rest: seq<Byte>)
    requires w < SPAN64
    ensures ReadWord(ToBytes(w, 8) + rest) == w && (ToBytes(w, 8) + rest)[8..] == rest
  {
    var t := ToBytes(w, 8) + rest;
    assert t[..8] == ToBytes(w, 8);
    Span8();
    LoadAfterStore(w, 8);
  }

  lemma {:induction false} ReadPointersBack(ws: seq<nat>, rest: seq<Byte>)
    requires forall i :: 0 <= i < |ws| ==> 0 < ws[i] < SPAN64
    ensures ReadPointers(WordBytes(ws + [0]) + rest) == ws
    decreases |ws|
  {
    var t := WordBytes(ws + [0]) + rest;
    if ws == [] {
      ReadFirstWord(0, rest);
      assert ws + [0] == [0] && [0][1..] == [];
      assert WordBytes([0]) == ToBytes(0, 8) + [];
      assert t == ToBytes(0, 8) + rest;
    } else {
      assert (ws + [0])[1..] == ws[1..] + [0];
      assert t == ToBytes(ws[0], 8) + (WordBytes(ws[1..] + [0]) + rest);
      ReadFirstWord(ws[0], WordBytes(ws[1..] + [0]) + rest);
      ReadPointersBack(ws[1..], rest);
    }
  }

  ghost predicate AuxOk(aux: seq<Aux>) {
    forall i :: 0 <= i < |aux| ==> 0 < aux[i].kind < SPAN64 && aux[i].value < SPAN64
  }

  lemma {:induction false} ReadAuxBack(aux: seq<Aux>, rest: seq<Byte>)
    requires AuxOk(aux)
    ensures ReadAux(WordBytes(AuxWords(aux + [Aux(AT_NULL, 0)])) + rest) == aux
    decreases |aux|
  {
    hide ToBytes, ReadWord, WordBytes, AuxWords;
    var all := aux + [Aux(AT_NULL, 0)];
    var tail := WordBytes(AuxWords(all[1..])) + rest;
    AuxBytes(all, rest);
    TwoWords(all[0].kind, all[0].value, tail);
    if aux != [] {
      assert all[1..] == aux[1..] + [Aux(AT_NULL, 0)];
      ReadAuxBack(aux[1..], rest);
    }
  }

  lemma AuxBytes(all: seq<Aux>, rest: seq<Byte>)
    requires all != []
    ensures WordBytes(AuxWords(all)) + rest
            == ToBytes(all[0].kind, 8) + (ToBytes(all[0].value, 8) + (WordBytes(AuxWords(all[1..])) + rest))
  {
    hide ToBytes, WordBytes;
    var k, v, more := all[0].kind, all[0].value, AuxWords(all[1..]);
    assert AuxWords(all) == [k] + ([v] + more);
    WordCons(k, [v] + more);
    WordCons(v, more);
    Assoc(ToBytes(k, 8), ToBytes(v, 8), WordBytes(more), [], rest);
    assert WordBytes(more) + [] == WordBytes(more) && [] + rest == rest;
  }

  lemma WordCons(w: nat, ws: seq<nat>)
    ensures WordBytes([w] + ws) == ToBytes(w, 8) + WordBytes(ws)
  {
    hide ToBytes;
    assert ([w] + ws)[1..] == ws;
  }

  lemma Assoc(a: seq<Byte>, b: seq<Byte>, c: seq<Byte>, d: seq<Byte>, e: seq<Byte>)
    ensures a + (b + (c + (d + e))) == a + b + c + d + e == (a + (b + (c + d))) + e
  {
  }

  lemma TwoWords(v: nat, w: nat, rest: seq<Byte>)
    requires v < SPAN64 && w < SPAN64
    ensures var t := ToBytes(v, 8) + (ToBytes(w, 8) + rest);
            ReadWord(t) == v && ReadWord(t[8..]) == w && t[16..] == rest
  {
    hide ToBytes, ReadWord;
    var t := ToBytes(v, 8) + (ToBytes(w, 8) + rest);
    ReadFirstWord(v, ToBytes(w, 8) + rest);
    ReadFirstWord(w, rest);
    assert t[16..] == t[8..][8..];
  }

  lemma {:induction false} ReadStringBack(s: Str, t: seq<Byte>)
    requires NulFree(s) && |s| < |t| && t[..|s| + 1] == s + [0]
    ensures ReadString(t) == s
    decreases |s|
  {
    if s == [] {
      assert t[0] == t[..1][0] == 0;
    } else {
      assert t[0] == t[..|s| + 1][0] == s[0];
      assert t[1..][..|s|] == t[..|s| + 1][1..] == (s + [0])[1..] == s[1..] + [0];
      ReadStringBack(s[1..], t[1..]);
    }
  }

  /** Every pointer of the table leads to its string. */
  ghost predicate PointsTo(stack: seq<Byte>, base: nat, ptrs: seq<nat>, strs: seq<Str>) {
    |ptrs| == |strs| && forall i :: 0 <= i < |ptrs| ==> 0 < ptrs[i] <= base && HasString(stack, base - ptrs[i], strs[i])
  }

  lemma PointsToBelow(x: seq<Byte>, stack: seq<Byte>, base: nat, ptrs: seq<nat>, strs: seq<Str>)
    requires PointsTo(stack, base, ptrs, strs)
    ensures PointsTo(x + stack, base, ptrs, strs)
  {
    forall i | 0 <= i < |ptrs| ensures HasString(x + stack, base - ptrs[i], strs[i]) {
      HasStringBelow(x, stack, base - ptrs[i], strs[i]);
    }
  }

  lemma ReadStringsBack(stack: seq<Byte>, base: nat, ptrs: seq<nat>, strs: seq<Str>)
    requires PointsTo(stack, base, ptrs, strs) && forall i :: 0 <= i < |strs| ==> NulFree(strs[i])
    ensures ReadStrings(stack, base, ptrs) == strs
  {
    forall i | 0 <= i < |ptrs| ensures ReadStringAt(stack, base, ptrs[i]) == strs[i] {
      ReadStringBack(strs[i], From(stack, base - ptrs[i]));
    }
  }

  /** The stack as execve leaves it: argc, the three tables, and the strings above them. */
  function Layout(argc: nat, argvPtrs: seq<nat>, envPtrs: seq<nat>, aux: seq<Aux>, strings: seq<Byte>): seq<Byte> {
    WordBytes([argc])
        + (WordBytes(argvPtrs + [0])
            + (WordBytes(envPtrs + [0]) + (WordBytes(AuxWords(aux + [Aux(AT_NULL, 0)])) + strings)))
  }

  /** A reader starting at the stack pointer recovers the counts, the strings and the auxiliary table. */
  lemma ReadArgsBack(base: nat, argv: seq<Str>, env: seq<Str>, aux: seq<Aux>, argvPtrs: seq<nat>, envPtrs: seq<nat>,
                     strings: seq<Byte>)
    requires base < SPAN64 && |argv| < SPAN64 && AuxOk(aux)
    requires PointsTo(strings, base, argvPtrs, argv) && PointsTo(strings, base, envPtrs, env)
    requires (forall i :: 0 <= i < |argv| ==> NulFree(argv[i])) && (forall i :: 0 <= i < |env| ==> NulFree(env[i]))
    ensures ReadArgs(Layout(|argv|, argvPtrs, envPtrs, aux, strings), base) == Args(|argv|, argv, env, aux)
  {
    hide ReadPointers, ReadAux, PointsTo, NulFree, ToBytes, ReadStrings, FromBytes, WordBytes, ReadWord;
    var w0, w1, w2 := WordBytes([|argv|]), WordBytes(argvPtrs + [0]), WordBytes(envPtrs + [0]);
    var w3 := WordBytes(AuxWords(aux + [Aux(AT_NULL, 0)]));
    var t0 := w0 + (w1 + (w2 + (w3 + strings)));
    PointersInRange(strings, base, argvPtrs, argv);
    PointersInRange(strings, base, envPtrs, env);
    Skips(w0, w1, w2, w3 + strings);
    ReadPointersBack(argvPtrs, w2 + (w3 + strings));
    ReadPointersBack(envPtrs, w3 + strings);
    ReadAuxBack(aux, strings);
    OneWord(|argv|);
    ReadFirstWord(|argv|, w1 + (w2 + (w3 + strings)));
    Assoc(w0, w1, w2, w3, strings);
    StringsAbove(t0, w0 + w1 + w2 + w3, strings, base, argvPtrs, argv);
    StringsAbove(t0, w0 + w1 + w2 + w3, strings, base, envPtrs, env);
  }

  lemma OneWord(w: nat)
    ensures WordBytes([w]) == ToBytes(w, 8)
  {
    hide ToBytes;
    assert [w][1..] == [];
    assert ToBytes(w, 8) + [] == ToBytes(w, 8);
  }

  lemma Skips(a: seq<Byte>, b: seq<Byte>, c: seq<Byte>, d: seq<Byte>)
    ensures var t := a + (b + (c + d));
            Skip(t, |a|) == b + (c + d) && Skip(t, |a| + |b|) == c + d && Skip(c + d, |c|) == d
  {
  }

  lemma StringsAbove(t: seq<Byte>, x: seq<Byte>, strings: seq<Byte>, base: nat, ptrs: seq<nat>, strs: seq<Str>)
    requires t == x + strings && PointsTo(strings, base, ptrs, strs) && forall i :: 0 <= i < |strs| ==> NulFree(strs[i])
    ensures ReadStrings(t, base, ptrs) == strs
  {
    hide PointsTo, NulFree, ReadStrings;
    PointsToBelow(x, strings, base, ptrs, strs);
    ReadStringsBack(t, base, ptrs, strs);
  }

  lemma PointersInRange(stack: seq<Byte>, base: nat, ptrs: seq<nat>, strs: seq<Str>)
    requires PointsTo(stack, base, ptrs, strs) && base < SPAN64
    ensures |ptrs| == |strs| && forall i :: 0 <= i < |ptrs| ==> 0 < ptrs[i] < SPAN64
  {
  }

  // ---- building the stack in place

  ghost predicate InRam(m: Memory, lo: nat, hi: nat) { forall pa: nat :: lo <= pa < hi ==> pa / PAGE_SIZE in m }

  /** The bytes of physical memory from lo up to hi. */
  ghost function Region(m: Memory, lo: nat, hi: nat): (r: seq<Byte>)
    requires lo <= hi && InRam(m, lo, hi)
    ensures |r| == hi - lo && forall i :: 0 <= i < hi - lo ==> r[i] == ByteAt(m, lo + i)
  {
    seq<Byte>(hi - lo, i requires 0 <= i < hi - lo => ByteAt(m, lo + i))
  }

  /** Of all memory only the bytes from sp up to sp0 changed. */
  ghost predicate OnlyPushed(m0: Memory, m: Memory, sp: nat, sp0: nat) {
    && sp <= sp0 && m.Keys == m0.Keys
    && forall pa: nat {:trigger ByteAt(m, pa)} :: pa / PAGE_SIZE in m && !(sp <= pa < sp0) ==>
      ByteAt(m, pa) == ByteAt(m0, pa)
  }

  lemma StillRam(m0: Memory, m: Memory, sp: nat, sp0: nat, lo: nat, hi: nat)
    requires OnlyPushed(m0, m, sp, sp0) && InRam(m0, lo, hi)
    ensures InRam(m, lo, hi)
  {
    hide ByteAt;
  }

  lemma SmallerRam(m: Memory, lo: nat, lo': nat, hi: nat)
    requires InRam(m, lo, hi) && lo <= lo'
    ensures InRam(m, lo', hi)
  {
  }

  lemma OnlyPushedTrans(m0: Memory, m1: Memory, m2: Memory, sp2: nat, sp1: nat, sp0: nat)
    requires OnlyPushed(m0, m1, sp1, sp0) && OnlyPushed(m1, m2, sp2, sp1)
    ensures OnlyPushed(m0, m2, sp2, sp0)
  {
    hide ByteAt;
    forall pa: nat | pa / PAGE_SIZE in m2 && !(sp2 <= pa < sp0) ensures ByteAt(m2, pa) == ByteAt(m0, pa) {
      assert ByteAt(m1, pa) == ByteAt(m0, pa);
    }
  }

  lemma RegionSplit(m: Memory, lo: nat, mid: nat, hi: nat)
    requires lo <= mid <= hi && InRam(m, lo, hi)
    ensures Region(m, lo, hi) == Region(m, lo, mid) + Region(m, mid, hi)
  {
    hide ByteAt;
  }

  /** The stack grew at its lower end only. */
  lemma OnlyPushedTail(m0: Memory, m: Memory, sp: nat, sp0: nat, hi: nat)
    requires OnlyPushed(m0, m, sp, sp0) && sp0 <= hi && InRam(m0, sp, hi)
    ensures InRam(m, sp, hi) && Region(m, sp, hi) == Region(m, sp, sp0) + Region(m0, sp0, hi)
  {
    hide ByteAt;
    StillRam(m0, m, sp, sp0, sp, hi);
    RegionSplit(m, sp, sp0, hi);
    assert Region(m, sp0, hi) == Region(m0, sp0, hi);
  }

  lemma OneByte(m0: Memory, m: Memory, at: nat, data: seq<Byte>, b: Byte)
    requires InRam(m0, at, at + |data| + 1) && OnlyPushed(m0, m, at, at + |data|)
    requires InRam(m, at, at + |data|) && Region(m, at, at + |data|) == data
    ensures (at + |data|) / PAGE_SIZE in m
    ensures var m' := StoreByte(m, at + |data|, b);
      OnlyPushed(m0, m', at, at + |data| + 1) && InRam(m', at, at + |data| + 1)
        && Region(m', at, at + |data| + 1) == data + [b]
  {
    hide ByteAt, StoreByte;
    StillRam(m0, m, at, at + |data|, at, at + |data| + 1);
    var pa := at + |data|;
    var m' := StoreByte(m, pa, b);
    assert m'.Keys == m.Keys by { StoreKeepsFrames(m, pa, b); }
    forall q: nat | q / PAGE_SIZE in m'
      ensures ByteAt(m', q) == if q == pa then b else ByteAt(m, q)
    {
      ByteAfterStore(m, pa, b, q);
    }
    assert InRam(m', at, pa + 1);
    var r := Region(m', at, pa + 1);
    forall i | 0 <= i < |data| + 1 ensures r[i] == (data + [b])[i] {
      if i < |data| { assert Region(m, at, pa)[i] == ByteAt(m, at + i); }
    }
  }

  lemma StoreKeepsFrames(m: Memory, pa: nat, b: Byte)
    requires pa / PAGE_SIZE in m
    ensures StoreByte(m, pa, b).Keys == m.Keys
  {
  }

  /** Copy data to a physical address. */
  method WriteBytes(machine: Machine, at: nat, data: seq<Byte>)
    requires machine.Valid() && InRam(machine.mem, at, at + |data|)
    modifies machine`mem
    ensures machine.Valid() && OnlyPushed(old(machine.mem), machine.mem, at, at + |data|)
    ensures InRam(machine.mem, at, at + |data|) && Region(machine.mem, at, at + |data|) == data
  {
    hide OnlyPushed, ByteAt, StoreByte, Region;
    ghost var m0 := machine.mem;
    NothingWritten(m0, at);
    var i := 0;
    assert data[..0] == [];
    while i < |data|
      invariant 0 <= i <= |data| && machine.Valid() && OnlyPushed(m0, machine.mem, at, at + i)
      invariant InRam(machine.mem, at, at + i) && Region(machine.mem, at, at + i) == data[..i]
    {
      OneByte(m0, machine.mem, at, data[..i], data[i]);
      StoreKeepsFrames(machine.mem, at + i, data[i]);
      machine.mem := StoreByte(machine.mem, at + i, data[i]);
      assert data[..i] + [data[i]] == data[..i + 1];
      i := i + 1;
    }
    assert data[..i] == data;
  }

  lemma NothingWritten(m: Memory, at: nat)
    ensures OnlyPushed(m, m, at, at) && InRam(m, at, at) && Region(m, at, at) == []
  {
  }

  lemma RoundDownFromBase(bottom: nat, d: nat, n: nat)
    requires bottom % 16 == 0 && RoundUp16(d + n) <= bottom && n <= bottom - d
    ensures RoundDown16(bottom - d - n) == bottom - RoundUp16(d + n) <= bottom - d - n
  {
  }

  /** The pusher closure: copy the string and its NUL to the next 16-byte boundary below. */
  method PushString(machine: Machine, bottom: nat, sp: nat, s: Str) returns (sp': nat)
    requires machine.Valid() && sp <= bottom && bottom % 16 == 0 && Pushed(bottom - sp, |s|) <= bottom
    requires InRam(machine.mem, bottom - Pushed(bottom - sp, |s|), bottom)
    modifies machine`mem
    ensures machine.Valid() && sp' <= sp && bottom - sp' == Pushed(bottom - sp, |s|)
    ensures OnlyPushed(old(machine.mem), machine.mem, sp', sp)
    ensures InRam(machine.mem, sp', bottom) && HasString(Region(machine.mem, sp', bottom), bottom - sp', s)
  {
    hide RoundUp16, RoundDown16, OnlyPushed, ByteAt, HasString, Region;
    RoundDownFromBase(bottom, bottom - sp, |s| + 1);
    sp' := RoundDown16(sp - (|s| + 1));
    assert sp' + |s| + 1 <= sp;
    ghost var m0 := machine.mem;
    WriteBytes(machine, sp', s + [0]);
    PushedString(m0, machine.mem, sp', sp, bottom, s);
  }

  lemma PushedString(m0: Memory, m: Memory, sp': nat, sp: nat, bottom: nat, s: Str)
    requires sp' + |s| + 1 <= sp <= bottom && InRam(m0, sp', bottom)
    requires OnlyPushed(m0, m, sp', sp' + |s| + 1) && InRam(m, sp', sp' + |s| + 1)
      && Region(m, sp', sp' + |s| + 1) == s + [0]
    ensures OnlyPushed(m0, m, sp', sp) && InRam(m, sp', bottom) && HasString(Region(m, sp', bottom), bottom - sp', s)
  {
    hide ByteAt;
    StillRam(m0, m, sp', sp' + |s| + 1, sp', bottom);
    RegionSplit(m, sp', sp' + |s| + 1, bottom);
    var r := Region(m, sp', bottom);
    assert From(r, bottom - sp') == r;
  }

  lemma {:induction false} DepthGrows(d: nat, strs: seq<Str>, n: nat)
    requires n <= |strs|
    ensures d <= Depth(d, strs[..n]) <= Depth(d, strs)
    decreases |strs|
  {
    if n == |strs| {
      assert strs[..n] == strs;
      if n > 0 { DepthGrows(d, strs[..n - 1], n - 1); assert strs[..n - 1][..n - 1] == strs[..n - 1]; }
    } else {
      assert strs[..|strs| - 1][..n] == strs[..n];
      DepthGrows(d, strs[..|strs| - 1], n);
    }
  }

  lemma PointsToOneMore(stack: seq<Byte>, x: seq<Byte>, base: nat, ptrs: seq<nat>, strs: seq<Str>, s: Str)
    requires PointsTo(stack, base, ptrs, strs) && HasString(x + stack, |x + stack|, s) && |x + stack| < base
    ensures PointsTo(x + stack, base, ptrs + [base - |x + stack|], strs + [s])
  {
    hide HasString;
    PointsToBelow(x, stack, base, ptrs, strs);
  }

  /** What holds when the strings have been pushed from sp0 down to sp. */
  ghost predicate StringsPushed(m0: Memory, m: Memory, bottom: nat, sp: nat, sp0: nat, base: nat, ptrs: seq<nat>,
                                strs: seq<Str>)
  {
    && sp <= sp0 <= bottom && bottom - sp == Depth(bottom - sp0, strs) && OnlyPushed(m0, m, sp, sp0)
    && InRam(m, sp, bottom) && PointsTo(Region(m, sp, bottom), base, ptrs, strs)
  }

  lemma StringsPushedStep(m0: Memory, m1: Memory, m: Memory, bottom: nat, sp: nat, sp1: nat, sp0: nat, base: nat,
                          ptrs: seq<nat>, strs: seq<Str>, s: Str)
    requires StringsPushed(m0, m1, bottom, sp1, sp0, base, ptrs, strs) && bottom - sp < base && InRam(m1, sp, bottom)
    requires sp <= sp1 && bottom - sp == Pushed(bottom - sp1, |s|) && OnlyPushed(m1, m, sp, sp1)
    requires InRam(m, sp, bottom) && HasString(Region(m, sp, bottom), bottom - sp, s)
    ensures StringsPushed(m0, m, bottom, sp, sp0, base, ptrs + [base - (bottom - sp)], strs + [s])
  {
    hide OnlyPushed, ByteAt, HasString, PointsTo, Region, Pushed;
    OnlyPushedTrans(m0, m1, m, sp, sp1, sp0);
    OnlyPushedTail(m1, m, sp, sp1, bottom);
    SmallerRam(m1, sp, sp1, bottom);
    PointsToOneMore(Region(m1, sp1, bottom), Region(m, sp, sp1), base, ptrs, strs, s);
    assert (strs + [s])[..|strs|] == strs;
  }

  /** Push strings one after the other and collect the user addresses they get. */
  method PushStrings(machine: Machine, bottom: nat, sp: nat, base: nat, strs: seq<Str>)
    returns (sp': nat, ptrs: seq<nat>)
    requires machine.Valid() && sp <= bottom && bottom % 16 == 0 && Depth(bottom - sp, strs) <= bottom
      && Depth(bottom - sp, strs) < base
    requires InRam(machine.mem, bottom - Depth(bottom - sp, strs), bottom)
    modifies machine`mem
    ensures machine.Valid() && StringsPushed(old(machine.mem), machine.mem, bottom, sp', sp, base, ptrs, strs)
  {
    hide HasString, PointsTo, OnlyPushed, Pushed, StringsPushed, Region, ByteAt;
    ghost var m0, lo := machine.mem, bottom - Depth(bottom - sp, strs);
    sp', ptrs := sp, [];
    DepthGrows(bottom - sp, strs, 0);
    SmallerRam(m0, lo, sp, bottom);
    NothingPushed(m0, sp, bottom, base);
    var i := 0;
    assert strs[..0] == [];
    while i < |strs|
      invariant 0 <= i <= |strs| && machine.Valid() && InRam(machine.mem, lo, bottom)
      invariant StringsPushed(m0, machine.mem, bottom, sp', sp, base, ptrs, strs[..i])
    {
      ghost var m1, sp1 := machine.mem, sp';
      StringsDepth(m0, m1, bottom, sp1, sp, base, ptrs, strs[..i]);
      DepthGrows(bottom - sp, strs, i + 1);
      assert strs[..i + 1][..i] == strs[..i];
      SmallerRam(m1, lo, bottom - Depth(bottom - sp, strs[..i + 1]), bottom);
      sp' := PushString(machine, bottom, sp', strs[i]);
      StillRam(m1, machine.mem, sp', sp1, lo, bottom);
      StringsPushedStep(m0, m1, machine.mem, bottom, sp', sp1, sp, base, ptrs, strs[..i], strs[i]);
      assert strs[..i] + [strs[i]] == strs[..i + 1];
      ptrs := ptrs + [base - (bottom - sp')];
      i := i + 1;
    }
    assert strs[..i] == strs;
  }

  lemma NothingPushed(m: Memory, sp: nat, bottom: nat, base: nat)
    requires sp <= bottom && InRam(m, sp, bottom)
    ensures StringsPushed(m, m, bottom, sp, sp, base, [], [])
  {
  }

  lemma StringsDepth(m0: Memory, m: Memory, bottom: nat, sp: nat, sp0: nat, base: nat, ptrs: seq<nat>, strs: seq<Str>)
    requires StringsPushed(m0, m, bottom, sp, sp0, base, ptrs, strs)
    ensures sp <= sp0 <= bottom && bottom - sp == Depth(bottom - sp0, strs) && OnlyPushed(m0, m, sp, sp0)
    ensures InRam(m, sp, bottom) && PointsTo(Region(m, sp, bottom), base, ptrs, strs) && |ptrs| == |strs|
  {
  }

  /** Write a table of words just below sp. */
  method PushWords(machine: Machine, bottom: nat, sp: nat, ws: seq<nat>) returns (sp': nat)
    requires machine.Valid() && 8 * |ws| <= sp <= bottom && InRam(machine.mem, sp - 8 * |ws|, bottom)
    modifies machine`mem
    ensures machine.Valid() && sp' == sp - 8 * |ws| && OnlyPushed(old(machine.mem), machine.mem, sp', sp)
    ensures InRam(machine.mem, sp', bottom) && InRam(old(machine.mem), sp, bottom)
    ensures Region(machine.mem, sp', bottom) == WordBytes(ws) + Region(old(machine.mem), sp, bottom)
  {
    hide WordBytes, OnlyPushed, ByteAt, Region;
    sp' := sp - 8 * |ws|;
    ghost var m0 := machine.mem;
    SmallerRam(m0, sp', sp, bottom);
    WriteBytes(machine, sp', WordBytes(ws));
    OnlyPushedTail(m0, machine.mem, sp', sp, bottom);
  }

  /** The auxiliary table, the environment table, the argument table and argc, each below the one before. */
  method PushTables(machine: Machine, bottom: nat, sp: nat, argc: nat, argvPtrs: seq<nat>, envPtrs: seq<nat>,
                    full: seq<Aux>)
    returns (sp': nat)
    requires machine.Valid() && TableSize(|argvPtrs|, |envPtrs|, |full|) <= sp <= bottom
    requires InRam(machine.mem, sp - TableSize(|argvPtrs|, |envPtrs|, |full|), bottom)
    modifies machine`mem
    ensures machine.Valid() && sp' == sp - TableSize(|argvPtrs|, |envPtrs|, |full|)
    ensures OnlyPushed(old(machine.mem), machine.mem, sp', sp)
    ensures InRam(machine.mem, sp', bottom) && InRam(old(machine.mem), sp, bottom)
    ensures Region(machine.mem, sp', bottom) ==
        Layout(argc, argvPtrs, envPtrs, full, Region(old(machine.mem), sp, bottom))
  {
    hide OnlyPushed, WordBytes, AuxWords, ByteAt, Region;
    ghost var m0, lo := machine.mem, sp - TableSize(|argvPtrs|, |envPtrs|, |full|);
    SmallerRam(m0, lo, sp - 16 * (|full| + 1), bottom);
    sp' := PushWords(machine, bottom, sp, AuxWords(full + [Aux(AT_NULL, 0)]));
    ghost var m1, sp1 := machine.mem, sp';
    StillRam(m0, m1, sp1, sp, lo, bottom);
    SmallerRam(m1, lo, sp1 - 8 * (|envPtrs| + 1), bottom);
    sp' := PushWords(machine, bottom, sp', envPtrs + [0]);
    ghost var m2, sp2 := machine.mem, sp';
    OnlyPushedTrans(m0, m1, m2, sp2, sp1, sp);
    StillRam(m1, m2, sp2, sp1, lo, bottom);
    SmallerRam(m2, lo, sp2 - 8 * (|argvPtrs| + 1), bottom);
    sp' := PushWords(machine, bottom, sp', argvPtrs + [0]);
    ghost var m3, sp3 := machine.mem, sp';
    OnlyPushedTrans(m0, m2, m3, sp3, sp2, sp);
    StillRam(m2, m3, sp3, sp2, lo, bottom);
    sp' := PushWords(machine, bottom, sp', [argc]);
    OnlyPushedTrans(m0, m3, machine.mem, sp', sp3, sp);
  }

  function TableSize(argc: nat, envc: nat, auxc: nat): nat { 16 * (auxc + 1) + 8 * (envc + 1) + 8 * (argc + 1) + 8 }

  /** The auxiliary table as the reader sees it: execve appends the address of the program name. */
  function FullAux(aux: seq<Aux>, argvPtrs: seq<nat>): seq<Aux> {
    aux + [Aux(AT_EXECFN, (argvPtrs + [0])[0])]
  }

  /** Bytes the initial stack takes. */
  function StackDepth(argv: seq<Str>, env: seq<Str>, n: nat): nat {
    Depth(Depth(0, env), argv) + TableSize(|argv|, |env|, n + 1)
  }

  /** The strings come from C strings, and the table from the loader: no NUL inside, no AT_NULL before the end. */
  ghost predicate ArgsOk(argv: seq<Str>, env: seq<Str>, aux: seq<Aux>) {
    && AuxOk(aux) && |argv| < SPAN64
    && (forall i :: 0 <= i < |argv| ==> NulFree(argv[i])) && (forall i :: 0 <= i < |env| ==> NulFree(env[i]))
  }

  /**
   * A reader of this stack recovers argc, argv, env and aux; the appended entry of kind 31, AT_EXECFN, names the first.
   */
  ghost predicate Recovers(stack: seq<Byte>, base: nat, argv: seq<Str>, env: seq<Str>, aux: seq<Aux>) {
    var a := ReadArgs(stack, base);
    && a.argc == |argv| && a.argv == argv && a.env == env
    && |a.aux| == |aux| + 1 && a.aux[..|aux|] == aux && a.aux[|aux|].kind == 31
    && (if argv == [] then a.aux[|aux|].value == 0 else ReadStringAt(stack, base, a.aux[|aux|].value) == argv[0])
  }

  /**
   * execve's stack, built downward from physical address `bottom`, the end of the page that ends at user address
   * `base`. A reader starting at the returned user stack pointer recovers exactly the arguments. Nothing bounds the
   * depth: only bytes between the new stack pointer and `bottom` are written, whatever frames they lie in.
   */
  method BuildStack(machine: Machine, bottom: nat, base: nat, argv: seq<Str>, env: seq<Str>, aux: seq<Aux>)
    returns (sp: nat, userSp: nat, userArgv: nat, userEnv: nat)
    requires machine.Valid() && bottom % PAGE_SIZE == 0 && StackDepth(argv, env, |aux|) <= bottom
      && StackDepth(argv, env, |aux|) < base < SPAN64
    requires InRam(machine.mem, bottom - StackDepth(argv, env, |aux|), bottom)
    modifies machine`mem
    ensures machine.Valid() && bottom - sp == base - userSp == StackDepth(argv, env, |aux|)
    ensures userArgv == userSp + 8 && userEnv == userArgv + 8 * (|argv| + 1)
    ensures OnlyPushed(old(machine.mem), machine.mem, sp, bottom) && InRam(machine.mem, sp, bottom)
      && machine.mem.Keys == old(machine.mem).Keys
    ensures |argv| < SPAN64 ==> ReadWord(Region(machine.mem, sp, bottom)) == |argv|
    ensures ArgsOk(argv, env, aux) ==> Recovers(Region(machine.mem, sp, bottom), base, argv, env, aux)
    ensures StackDepth(argv, env, |aux|) <= PAGE_SIZE ==>
      forall g :: g in machine.mem && g != bottom / PAGE_SIZE - 1 ==>
        g in old(machine.mem) && machine.mem[g] == old(machine.mem)[g]
    ensures InRam(old(machine.mem), sp, bottom)
    ensures
      (StackDepth(argv, env, |aux|) > PAGE_SIZE && |argv| < SPAN64
       && ReadWord(Region(old(machine.mem), sp, bottom)) != |argv|) ==>
      && sp / PAGE_SIZE < bottom / PAGE_SIZE - 1 && sp / PAGE_SIZE in machine.mem && sp / PAGE_SIZE in old(machine.mem)
      && machine.mem[sp / PAGE_SIZE] != old(machine.mem)[sp / PAGE_SIZE]
  {
    hide OnlyPushed, PointsTo, WordBytes, AuxWords, Depth, Layout, FullAux, ByteAt, Region, StringsPushed, Recovers,
         ArgsOk, ReadWord;
    DepthsFit(argv, env);
    PageIsAligned(bottom);
    ghost var m0, lo := machine.mem, bottom - StackDepth(argv, env, |aux|);
    var envPtrs, argvPtrs;
    SmallerRam(m0, lo, bottom - Depth(0, env), bottom);
    sp, envPtrs := PushStrings(machine, bottom, bottom, base, env);
    ghost var m1, sp1 := machine.mem, sp;
    StringsDepth(m0, m1, bottom, sp1, bottom, base, envPtrs, env);
    StillRam(m0, m1, sp1, bottom, lo, bottom);
    SmallerRam(m1, lo, bottom - Depth(bottom - sp1, argv), bottom);
    sp, argvPtrs := PushStrings(machine, bottom, sp, base, argv);
    ghost var m2, sp2 := machine.mem, sp;
    StringsDepth(m1, m2, bottom, sp2, sp1, base, argvPtrs, argv);
    StillRam(m1, m2, sp2, sp1, lo, bottom);
    OnlyPushedTrans(m0, m1, m2, sp2, sp1, bottom);
    ghost var strings := Region(m2, sp2, bottom);
    EnvStillThere(m1, m2, sp2, sp1, bottom, base, envPtrs, env);
    var full := FullAux(aux, argvPtrs);
    FullAuxIs(aux, argvPtrs);
    sp := PushTables(machine, bottom, sp, |argv|, argvPtrs, envPtrs, full);
    OnlyPushedTrans(m0, m2, machine.mem, sp, sp2, bottom);
    userSp := base - (bottom - sp);
    userArgv := userSp + 8;
    userEnv := userArgv + 8 * |argvPtrs + [0]|;
    ArgcAtTop(|argv|, argvPtrs, envPtrs, full, strings);
    StackAligned(bottom, argv, env, |aux|);
    FramesTouched(m0, machine.mem, bottom, sp, ReadWord(Region(machine.mem, sp, bottom)));
    if ArgsOk(argv, env, aux) { LayoutRecovers(strings, base, argv, env, aux, argvPtrs, envPtrs); }
  }

  lemma EnvStillThere(m1: Memory, m2: Memory, sp2: nat, sp1: nat, bottom: nat, base: nat, envPtrs: seq<nat>,
                      env: seq<Str>)
    requires OnlyPushed(m1, m2, sp2, sp1) && sp1 <= bottom && InRam(m1, sp1, bottom) && InRam(m2, sp2, bottom)
    requires PointsTo(Region(m1, sp1, bottom), base, envPtrs, env)
    ensures PointsTo(Region(m2, sp2, bottom), base, envPtrs, env)
  {
    hide PointsTo, ByteAt;
    RegionSplit(m2, sp2, sp1, bottom);
    assert Region(m2, sp1, bottom) == Region(m1, sp1, bottom);
    PointsToBelow(Region(m2, sp2, sp1), Region(m1, sp1, bottom), base, envPtrs, env);
  }

  lemma ArgcAtTop(argc: nat, argvPtrs: seq<nat>, envPtrs: seq<nat>, full: seq<Aux>, strings: seq<Byte>)
    ensures argc < SPAN64 ==> ReadWord(Layout(argc, argvPtrs, envPtrs, full, strings)) == argc
  {
    hide ToBytes, FromBytes, WordBytes, ReadWord;
    OneWord(argc);
    if argc < SPAN64 {
      ReadFirstWord(argc, WordBytes(argvPtrs + [0])
          + (WordBytes(envPtrs + [0]) + (WordBytes(AuxWords(full + [Aux(AT_NULL, 0)])) + strings)));
    }
  }

  lemma LayoutRecovers(strings: seq<Byte>, base: nat, argv: seq<Str>, env: seq<Str>, aux: seq<Aux>, argvPtrs: seq<nat>,
                       envPtrs: seq<nat>)
    requires ArgsOk(argv, env, aux) && base < SPAN64
    requires PointsTo(strings, base, argvPtrs, argv) && PointsTo(strings, base, envPtrs, env)
    ensures Recovers(Layout(|argv|, argvPtrs, envPtrs, FullAux(aux, argvPtrs), strings), base, argv, env, aux)
  {
    hide PointsTo, Layout, FullAux, ReadArgs, NulFree, AuxOk, ReadStringAt;
    var full := FullAux(aux, argvPtrs);
    FullAuxIs(aux, argvPtrs);
    FullAuxOk(strings, base, aux, argvPtrs, argv);
    ReadArgsBack(base, argv, env, full, argvPtrs, envPtrs, strings);
    NameReadsBack(strings, base, argvPtrs, argv, envPtrs, full);
  }

  lemma PageIsAligned(bottom: nat)
    requires bottom % PAGE_SIZE == 0
    ensures bottom % 16 == 0
  {
    assert bottom == 16 * (256 * (bottom / PAGE_SIZE));
  }

  lemma FullAuxIs(aux: seq<Aux>, argvPtrs: seq<nat>)
    ensures var full := FullAux(aux, argvPtrs);
            && |full| == |aux| + 1 && full[..|aux|] == aux
            && full[|aux|] == Aux(AT_EXECFN, (argvPtrs + [0])[0])
  {
  }

  lemma DepthsFit(argv: seq<Str>, env: seq<Str>)
    ensures Depth(0, env) <= Depth(Depth(0, env), argv)
  {
    DepthGrows(Depth(0, env), argv, 0);
  }

  lemma FullAuxOk(strings: seq<Byte>, base: nat, aux: seq<Aux>, argvPtrs: seq<nat>, argv: seq<Str>)
    requires AuxOk(aux) && PointsTo(strings, base, argvPtrs, argv) && base < SPAN64
    ensures AuxOk(FullAux(aux, argvPtrs))
  {
    if argvPtrs != [] { assert (argvPtrs + [0])[0] == argvPtrs[0]; }
  }

  lemma NameReadsBack(strings: seq<Byte>, base: nat, argvPtrs: seq<nat>, argv: seq<Str>, envPtrs: seq<nat>,
                      full: seq<Aux>)
    requires PointsTo(strings, base, argvPtrs, argv) && forall i :: 0 <= i < |argv| ==> NulFree(argv[i])
    ensures var argv0 := (argvPtrs + [0])[0];
      if argv == [] then argv0 == 0
      else ReadStringAt(Layout(|argv|, argvPtrs, envPtrs, full, strings), base, argv0) == argv[0]
  {
    hide WordBytes;
    if argv != [] {
      assert (argvPtrs + [0])[0] == argvPtrs[0];
      var x := WordBytes([|argv|]) + WordBytes(argvPtrs + [0]) + WordBytes(envPtrs + [0])
          + WordBytes(AuxWords(full + [Aux(AT_NULL, 0)]));
      assert Layout(|argv|, argvPtrs, envPtrs, full, strings) == x + strings;
      HasStringBelow(x, strings, base - argvPtrs[0], argv[0]);
      ReadStringBack(argv[0], From(x + strings, base - argvPtrs[0]));
    }
  }

  // ---- inside one frame, and beyond it

  /** A stack of at most a page changes the bytes of its own frame only. */
  lemma StaysInFrame(m0: Memory, m: Memory, sp: nat, frame: nat, g: nat)
    requires OnlyPushed(m0, m, sp, (frame + 1) * PAGE_SIZE) && frame * PAGE_SIZE <= sp && g in m && g != frame
    ensures g in m0 && m[g] == m0[g]
  {
    forall i | 0 <= i < PAGE_SIZE ensures m[g][i] == m0[g][i] {
      var pa := g * PAGE_SIZE + i;
      assert pa / PAGE_SIZE == g && pa % PAGE_SIZE == i;
      assert ByteAt(m, pa) == ByteAt(m0, pa);
    }
    assert m[g] == m0[g];
  }

  /** A deeper one puts argc into a lower frame, whatever was there before. */
  lemma LeavesFrame(m0: Memory, m: Memory, sp: nat, frame: nat, argc: nat)
    requires OnlyPushed(m0, m, sp, (frame + 1) * PAGE_SIZE) && (frame + 1) * PAGE_SIZE - sp > PAGE_SIZE
    requires InRam(m, sp, (frame + 1) * PAGE_SIZE) && ReadWord(Region(m, sp, (frame + 1) * PAGE_SIZE)) == argc
    requires InRam(m0, sp, (frame + 1) * PAGE_SIZE) && ReadWord(Region(m0, sp, (frame + 1) * PAGE_SIZE)) != argc
      && sp % 8 == 0
    ensures sp / PAGE_SIZE < frame && sp / PAGE_SIZE in m && sp / PAGE_SIZE in m0
      && m[sp / PAGE_SIZE] != m0[sp / PAGE_SIZE]
  {
    hide ReadWord, Region, OnlyPushed;
    WordInPage(sp);
    PageBelow(sp, frame);
    SameFrameSameWord(m0, m, sp, (frame + 1) * PAGE_SIZE);
  }

  lemma WordInPage(sp: nat)
    requires sp % 8 == 0
    ensures sp % PAGE_SIZE <= PAGE_SIZE - 8
  {
    assert sp % PAGE_SIZE == sp - 8 * (512 * (sp / PAGE_SIZE));
    assert sp % PAGE_SIZE % 8 == 0;
  }

  lemma PageBelow(sp: nat, frame: nat)
    requires (frame + 1) * PAGE_SIZE - sp > PAGE_SIZE
    ensures sp / PAGE_SIZE < frame && sp + 8 <= (frame + 1) * PAGE_SIZE
  {
    assert sp < frame * PAGE_SIZE;
  }

  lemma SameFrameSameWord(m0: Memory, m: Memory, sp: nat, hi: nat)
    requires sp % PAGE_SIZE <= PAGE_SIZE - 8 && sp + 8 <= hi && InRam(m0, sp, hi) && InRam(m, sp, hi)
    ensures sp / PAGE_SIZE in m && sp / PAGE_SIZE in m0
    ensures m[sp / PAGE_SIZE] == m0[sp / PAGE_SIZE] ==> ReadWord(Region(m, sp, hi)) == ReadWord(Region(m0, sp, hi))
  {
    hide FromBytes;
    var f := sp / PAGE_SIZE;
    assert f in m && f in m0;
    if m[f] == m0[f] {
      var r, r0 := Region(m, sp, hi), Region(m0, sp, hi);
      forall i | 0 <= i < 8 ensures r[..8][i] == r0[..8][i] {
        assert (sp + i) / PAGE_SIZE == f && (sp + i) % PAGE_SIZE == sp % PAGE_SIZE + i;
      }
      assert r[..8] == r0[..8];
    }
  }

  lemma {:induction false} DepthAligned(d: nat, strs: seq<Str>)
    requires d % 16 == 0
    ensures Depth(d, strs) % 16 == 0
    decreases |strs|
  {
    if strs != [] { DepthAligned(d, strs[..|strs| - 1]); }
  }

  /** The stack pointer a program starts with is a multiple of 16 if and only if argc plus the length of env is odd. */
  lemma StartsAlignedIff(base: nat, argv: seq<Str>, env: seq<Str>, n: nat)
    requires base % 16 == 0 && StackDepth(argv, env, n) <= base
    ensures (base - StackDepth(argv, env, n)) % 16 == 0 <==> (|argv| + |env|) % 2 == 1
  {
    hide Depth;
    DepthAligned(0, env);
    DepthAligned(Depth(0, env), argv);
    var d, c := Depth(Depth(0, env), argv), |argv| + |env|;
    assert StackDepth(argv, env, n) == d + 16 * (n + 2) + 8 * (c + 3);
    assert base - StackDepth(argv, env, n) == 16 * (base / 16 - d / 16 - (n + 2)) - 8 * (c + 3);
  }

  lemma StackAligned(bottom: nat, argv: seq<Str>, env: seq<Str>, n: nat)
    requires bottom % PAGE_SIZE == 0 && StackDepth(argv, env, n) <= bottom
    ensures (bottom - StackDepth(argv, env, n)) % 8 == 0 && bottom - StackDepth(argv, env, n) + 8 <= bottom
  {
    hide Depth;
    DepthAligned(0, env);
    DepthAligned(Depth(0, env), argv);
    PageIsAligned(bottom);
    EightsAdd(bottom, Depth(Depth(0, env), argv), 2 * (n + 2) + (|env| + 1) + (|argv| + 1) + 1);
  }

  lemma EightsAdd(a: nat, b: nat, k: nat)
    requires a % 16 == 0 && b % 16 == 0 && b + 8 * k <= a
    ensures (a - (b + 8 * k)) % 8 == 0
  {
    assert a == 8 * (2 * (a / 16)) && b == 8 * (2 * (b / 16));
    assert a - (b + 8 * k) == 8 * (2 * (a / 16) - 2 * (b / 16) - k);
  }

  /** Which frames a stack built below `bottom` changes. */
  lemma FramesTouched(m0: Memory, m: Memory, bottom: nat, sp: nat, argc: nat)
    requires bottom % PAGE_SIZE == 0 && bottom > 0 && sp + 8 <= bottom && sp % 8 == 0
    requires OnlyPushed(m0, m, sp, bottom) && InRam(m, sp, bottom) && ReadWord(Region(m, sp, bottom)) == argc
    ensures InRam(m0, sp, bottom) && m.Keys == m0.Keys
    ensures bottom - sp <= PAGE_SIZE ==> forall g :: g in m && g != bottom / PAGE_SIZE - 1 ==> g in m0 && m[g] == m0[g]
    ensures bottom - sp > PAGE_SIZE && ReadWord(Region(m0, sp, bottom)) != argc ==>
      var f := sp / PAGE_SIZE; f < bottom / PAGE_SIZE - 1 && f in m && f in m0 && m[f] != m0[f]
  {
    hide ByteAt, ReadWord, Region;
    var frame := bottom / PAGE_SIZE - 1;
    assert (frame + 1) * PAGE_SIZE == bottom;
    assert InRam(m0, sp, bottom);
    if bottom - sp <= PAGE_SIZE {
      forall g | g in m && g != frame ensures g in m0 && m[g] == m0[g] { StaysInFrame(m0, m, sp, frame, g); }
    } else if ReadWord(Region(m0, sp, bottom)) != argc {
      LeavesFrame(m0, m, sp, frame, argc);
    }
  }
}
