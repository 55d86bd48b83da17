/**
 * The ring buffer of a pipe (src/device/pipe.rs). The counters only grow; the position in the array is taken modulo its
 * size.
 */
module Pipes {
  import opened Basics
  import opened Words

  const PIPE_SIZE: nat := 512

  /** What the buffer has seen: all bytes ever written, and all bytes ever returned by a read. */
  datatype Ring = Ring(written: seq<Byte>, got: seq<Byte>)

  /** The content of array position r: the last byte written there. */
  function Slot(written: seq<Byte>, r: nat): Byte
    decreases |written|
  {
    if written == [] then 0
    else if (|written| - 1) % PIPE_SIZE == r then written[|written| - 1]
    else Slot(written[..|written| - 1], r)
  }

  function Min(a: nat, b: nat): nat { if a < b then a else b }

  function Put(s: Ring, bytes: seq<Byte>): Ring { s.(written := s.written + bytes) }

  /** A read of at most n bytes: position by position from the read counter, up to the write counter. */
  function Fetched(s: Ring, n: nat): seq<Byte>
    requires |s.got| <= |s.written|
  {
    seq<Byte>(Min(n, |s.written| - |s.got|), i requires i >= 0 => Slot(s.written, (|s.got| + i) % PIPE_SIZE))
  }

  function Get(s: Ring, n: nat): Ring
    requires |s.got| <= |s.written|
  {
    s.(got := s.got + Fetched(s, n))
  }

  ghost predicate Within(s: Ring) { |s.got| <= |s.written| <= |s.got| + PIPE_SIZE }

  /** The bytes returned so far are a prefix of the bytes written. */
  ghost predicate InOrder(s: Ring) { s.got <= s.written }

  lemma {:induction false} SlotIs(written: seq<Byte>, k: nat)
    requires k < |written| <= k + PIPE_SIZE
    ensures Slot(written, k % PIPE_SIZE) == written[k]
    decreases |written|
  {
    var n := |written| - 1;
    if n != k {
      assert n % PIPE_SIZE != k % PIPE_SIZE by { SameResidue(k, n); }
      SlotIs(written[..n], k);
    }
  }

  lemma SameResidue(k: nat, n: nat)
    requires k < n < k + PIPE_SIZE
    ensures n % PIPE_SIZE != k % PIPE_SIZE
  {
  }

  /** While at most 512 bytes are unread, a read takes from the front of the queue of unread bytes. */
  lemma FetchedIsFront(s: Ring, n: nat)
    requires Within(s)
    ensures Fetched(s, n) == s.written[|s.got|..|s.got| + Min(n, |s.written| - |s.got|)]
  {
    forall i | 0 <= i < Min(n, |s.written| - |s.got|) ensures Fetched(s, n)[i] == s.written[|s.got| + i] {
      SlotIs(s.written, |s.got| + i);
    }
  }

  datatype Op = PutOp(bytes: seq<Byte>) | GetOp(n: nat)

  function After(s: Ring, op: Op): Ring
    requires |s.got| <= |s.written|
  {
    match op case PutOp(bytes) => Put(s, bytes) case GetOp(n) => Get(s, n)
  }

  function RunOps(ops: seq<Op>): (s: Ring)
    ensures |s.got| <= |s.written|
  {
    if ops == [] then Ring([], []) else After(RunOps(ops[..|ops| - 1]), ops[|ops| - 1])
  }

  /**
   * For every interleaving of reads and writes in which at most 512 bytes are ever unread, the bytes read are a prefix
   * of the bytes written, and the ring holds exactly the rest, in order, ready to be read.
   */
  lemma {:induction false} RingIsAQueue(ops: seq<Op>)
    requires forall k :: 0 <= k <= |ops| ==> Within(RunOps(ops[..k]))
    ensures InOrder(RunOps(ops))
    ensures var s := RunOps(ops); Fetched(s, |s.written|) == s.written[|s.got|..]
    decreases |ops|
  {
    assert ops[..|ops|] == ops;
    assert Within(RunOps(ops[..|ops|]));
    if ops != [] {
      var p := ops[..|ops| - 1];
      forall k | 0 <= k <= |p| ensures Within(RunOps(p[..k])) { assert p[..k] == ops[..k]; }
      RingIsAQueue(p);
      if ops[|ops| - 1].GetOp? { FetchedIsFront(RunOps(p), ops[|ops| - 1].n); }
    }
    FetchedIsFront(RunOps(ops), |RunOps(ops).written|);
  }

  /** The last position of w that shares its array position with a. */
  function LastAlias(a: nat, n: nat): (k: nat)
    requires a < n
    ensures a <= k < n <= k + PIPE_SIZE && k % PIPE_SIZE == a % PIPE_SIZE
    ensures n > a + PIPE_SIZE ==> k > a
    decreases n - a
  {
    if n <= a + PIPE_SIZE then a else Residue(a); LastAlias(a + PIPE_SIZE, n)
  }

  lemma Residue(a: nat)
    ensures (a + PIPE_SIZE) % PIPE_SIZE == a % PIPE_SIZE
  {
  }

  ghost function Marked(n: nat, k: nat): seq<Byte> { seq(n, i => if i == k then 1 else 0) }

  /**
   * 512 is exact: after a bytes were read and with u unread, a read of n bytes stays in order for all contents
   * if and only if it asks for nothing or u is at most 512.
   */
  lemma InOrderIffWithin(a: nat, u: nat, n: nat)
    ensures (forall w: seq<Byte> :: |w| == a + u ==> InOrder(Get(Ring(w, w[..a]), n))) <==> n == 0 || u <= 512
  {
    if n == 0 || u <= PIPE_SIZE {
      forall w: seq<Byte> | |w| == a + u ensures InOrder(Get(Ring(w, w[..a]), n)) {
        if n > 0 { FetchedIsFront(Ring(w, w[..a]), n); }
      }
    } else {
      var k := LastAlias(a, a + u);
      var w := Marked(a + u, k);
      SlotIs(w, k);
      assert Get(Ring(w, w[..a]), n).got[a] == 1 && w[a] == 0;
    }
  }

  class PipeBuffer {
    const data: array<Byte>
    var nRead: nat
    var nWrite: nat
    var readOpen: bool
    var writeOpen: bool
    ghost var history: Ring

    ghost predicate Valid()
      reads this, data
    {
      && data.Length == PIPE_SIZE && nRead == |history.got| && nWrite == |history.written| && nRead <= nWrite
      && forall r :: 0 <= r < PIPE_SIZE ==> data[r] == Slot(history.written, r)
    }

    constructor ()
      ensures Valid() && fresh(data) && history == Ring([], []) && !readOpen && !writeOpen
    {
      data := new Byte[PIPE_SIZE](_ => 0);
      nRead, nWrite, readOpen, writeOpen := 0, 0, false, false;
      history := Ring([], []);
    }

    /** None when the pipe is empty and will stay so. */
    method Read(buf: array<Byte>) returns (r: Option<nat>)
      requires Valid() && buf != data
      modifies this`nRead, this`history, buf
      ensures Valid() && history == Get(old(history), buf.Length)
      ensures r == if old(nRead) == nWrite && !writeOpen then None else Some(|Fetched(old(history), buf.Length)|)
      ensures buf[..] == Fetched(old(history), buf.Length) + old(buf[..])[|Fetched(old(history), buf.Length)|..]
    {
      ghost var s := history;
      if nRead == nWrite {
        assert Fetched(s, buf.Length) == [];
        assert Get(s, buf.Length) == s;
        return if writeOpen then Some(0) else None;
      }
      var i := 0;
      while !(nRead == nWrite || i == buf.Length)
        invariant 0 <= i <= buf.Length && nRead == |s.got| + i <= nWrite
        invariant history == s
        invariant forall j :: 0 <= j < i ==> buf[j] == Slot(s.written, (|s.got| + j) % PIPE_SIZE)
        invariant forall j :: i <= j < buf.Length ==> buf[j] == old(buf[j])
        decreases buf.Length - i
      {
        buf[i] := data[nRead % PIPE_SIZE];
        i := i + 1;
        nRead := nRead + 1;
      }
      history := Get(s, buf.Length);
      r := Some(i);
    }

    /** The test for a full buffer never holds, so everything is written. */
    method Write(buf: seq<Byte>) returns (r: Option<nat>)
      requires Valid()
      modifies this`nWrite, this`history, data
      ensures Valid() && history == Put(old(history), buf)
      ensures r == if readOpen then Some(|buf|) else None
    {
      ghost var s := history;
      var wrote := 0;
      while wrote < |buf|
        invariant 0 <= wrote <= |buf|
        invariant Valid() && history == Put(s, buf[..wrote])
      {
        if nWrite + 1 == (nRead + PIPE_SIZE) % PIPE_SIZE {
          break;
        }
        ghost var w := history.written;
        data[nWrite % PIPE_SIZE] := buf[wrote];
        nWrite := nWrite + 1;
        history := Put(history, [buf[wrote]]);
        assert history.written[..|w|] == w;
        wrote := wrote + 1;
        assert history == Put(s, buf[..wrote]);
      }
      assert buf[..|buf|] == buf;
      r := if readOpen then Some(wrote) else None;
    }

    /** PipeFile::close, of the reading or of the writing end. */
    method Close(reading: bool)
      modifies this`readOpen, this`writeOpen
      ensures readOpen == (old(readOpen) && !reading) && writeOpen == (old(writeOpen) && reading)
    {
      if reading { readOpen := false; } else { writeOpen := false; }
    }

    /** PipeFile::create. */
    static method Create() returns (p: PipeBuffer)
      ensures fresh(p) && fresh(p.data) && p.Valid() && p.history == Ring([], []) && p.readOpen && p.writeOpen
    {
      p := new PipeBuffer();
      p.readOpen, p.writeOpen := true, true;
    }
  }
}
