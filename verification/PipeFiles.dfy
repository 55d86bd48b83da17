/**
 * The ring buffers of the pipes together with the descriptors that name their ends (src/device/pipe.rs,
 * src/syscall/file.rs): what a read or a write answers is decided by who still holds the other end, over every run.
 */
module PipeFiles {
  import opened Basics
  import opened Words
  import opened Descriptors
  import opened Pipes

  ghost predicate Held(w: World, f: nat) { exists p: nat, i: nat :: Names(w.tables, p, i, f) }

  datatype PipeState = PipeState(world: World, rings: seq<Ring>)

  datatype PipeStep =
    | Call(op: Descriptors.Op)
    | ReadFd(p: nat, fd: nat, n: nat)
    | WriteFd(p: nat, fd: nat, bytes: seq<Byte>)

  /**
   * What one attempt of a read or a write comes to; Waits is the branch that waits for the other end and tries again.
   */
  datatype Answer = NotAPipe | Refused | Waits | Count(n: nat, bytes: seq<Byte>)

  /** The kind of file that descriptor fd of p names; one that names nothing is no pipe either. */
  function KindAt(tables: map<nat, Table>, kinds: seq<Kind>, p: nat, fd: nat): (k: Kind) {
    if p in tables && fd < |tables[p]| && tables[p][fd].Some? && tables[p][fd].value < |kinds|
    then kinds[tables[p][fd].value] else Plain
  }

  /** What a read of n bytes answers, when the writing end is open or not. */
  function ReadAnswer(s: Ring, n: nat, open: bool): (r: Answer)
    requires |s.got| <= |s.written|
    ensures r.Waits? <==> open && (n == 0 || |s.got| == |s.written|)
    ensures r.Refused? <==> !open && |s.got| == |s.written|
    ensures r.Count? ==> |r.bytes| == r.n <= n && s.got + r.bytes == Get(s, n).got
    ensures !r.NotAPipe?
  {
    var got := Fetched(s, n);
    if got == [] && open then Waits else if |s.got| == |s.written| then Refused else Count(|got|, got)
  }

  ghost predicate RingsOk(s: PipeState) {
    |s.rings| == |s.world.pipes| && forall q :: 0 <= q < |s.rings| ==> |s.rings[q].got| <= |s.rings[q].written|
  }

  /**
   * What a step does and answers. A read takes from the front of the ring; with nothing to return it waits if some
   * descriptor names the writing end and is refused if none does. A write always goes through, and is refused if no
   * descriptor names the reading end. Only the calls on descriptors change who holds what, and they change no ring.
   */
  ghost predicate StepOfPipes(v: PipeState, step: PipeStep, w: PipeState, r: Answer)
    requires RingsOk(v)
  {
    match step
    case Call(op) =>
      && Descriptors.StepOf(v.world, op, w.world) && r == NotAPipe && |w.rings| == |w.world.pipes|
      && v.rings <= w.rings && forall q :: |v.rings| <= q < |w.rings| ==> w.rings[q] == Ring([], [])
    case ReadFd(p, fd, n) =>
      (match KindAt(v.world.tables, v.world.kinds, p, fd)
       case Plain => w == v && r == NotAPipe
       case Writer(_) => w == v && r == Refused
       case Reader(q) =>
         && q < |v.rings| && w == v.(rings := v.rings[q := Get(v.rings[q], n)])
         && r == ReadAnswer(v.rings[q], n, Held(v.world, v.world.pipes[q].writer)))
    case WriteFd(p, fd, bytes) =>
      (match KindAt(v.world.tables, v.world.kinds, p, fd)
       case Plain => w == v && r == NotAPipe
       case Reader(_) => w == v && r == Refused
       case Writer(q) =>
         && q < |v.rings| && w == v.(rings := v.rings[q := Put(v.rings[q], bytes)])
         && r == if Held(v.world, v.world.pipes[q].reader) then Count(|bytes|, bytes) else Refused)
  }

  // ---- the flags and the log of closed files

  /** An end of a pipe is open exactly as long as its file is not among those closed. */
  lemma OpenUntilClosed(w: World, q: nat)
    requires Inv(w) && q < |w.pipes|
    ensures w.pipes[q].readOpen == (w.pipes[q].reader !in w.closed)
      && w.pipes[q].writeOpen == (w.pipes[q].writer !in w.closed)
  {
    hide RefOk, KindOk;
    assert PipeOk(w, q) && CloseOk(w, w.pipes[q].reader) && CloseOk(w, w.pipes[q].writer);
  }

  /** The pipe that a closed file belongs to, and no other, has it as that end. */
  lemma WhoseEnd(w: World, f: nat, q: nat)
    requires Inv(w) && f < |w.kinds| && q < |w.pipes|
    ensures w.pipes[q].reader == f <==> w.kinds[f] == Reader(q)
    ensures w.pipes[q].writer == f <==> w.kinds[f] == Writer(q)
    ensures w.kinds[f].Plain? || w.kinds[f].pipe < |w.pipes|
  {
    hide RefOk, CloseOk;
    assert PipeOk(w, q) && KindOk(w, f);
  }

  /** The files of a new pipe were not among those closed before. */
  lemma NewEnds(v: World, op: Descriptors.Op, w: World, q: nat)
    requires Descriptors.StepOf(v, op, w) && q < |w.pipes|
    ensures |v.pipes| <= |w.pipes| && v.closed <= w.closed
    ensures q < |v.pipes| ==> w.pipes[q].reader == v.pipes[q].reader && w.pipes[q].writer == v.pipes[q].writer
    ensures q >= |v.pipes| ==> w.pipes[q].reader !in v.closed && w.pipes[q].writer !in v.closed
  {
    hide RefOk, KindOk, CloseOk, PipeOk;
  }

  lemma StepEnds(v: World, op: Descriptors.Op, w: World)
    requires Descriptors.StepOf(v, op, w)
    ensures |v.pipes| <= |w.pipes| <= |v.pipes| + 1 && v.closed <= w.closed && Inv(w)
  {
    hide RefOk, KindOk, CloseOk, PipeOk;
  }

  // ---- the buffers as objects

  /** A read into a buffer of n bytes: the bytes it returns. */
  method ReadSome(b: PipeBuffer, n: nat) returns (r: Option<seq<Byte>>)
    requires b.Valid()
    modifies b`nRead, b`history
    ensures b.Valid() && b.history == Get(old(b.history), n)
    ensures var s := old(b.history); r == if |s.got| == |s.written| && !b.writeOpen then None else Some(Fetched(s, n))
  {
    var buf := new Byte[n];
    var got := b.Read(buf);
    r := if got.None? then None else Some(buf[..got.value]);
  }

  class PipeTables {
    const files: FileTables
    var buffers: seq<PipeBuffer>
    ghost var repr: set<object>

    constructor ()
      ensures Valid() && Footprint() && fresh(repr) && Now() == PipeState(World(map[], [], [], [], []), [])
    {
      files := new FileTables();
      buffers := [];
      new;
      repr := {this, files};
    }

    ghost function Data(): set<array<Byte>>
      reads this, buffers
    {
      set b | b in buffers :: b.data
    }

    ghost function Now(): (s: PipeState)
      reads this, files, buffers
      ensures s.world == files.Now() && |s.rings| == |buffers|
      ensures forall q :: 0 <= q < |buffers| ==> s.rings[q] == buffers[q].history
    {
      PipeState(files.Now(), seq(|buffers|, q requires 0 <= q < |buffers| reads this, buffers => buffers[q].history))
    }

    /** The buffers are good and share nothing. */
    ghost predicate Separate()
      reads this, buffers, Data()
    {
      && (forall q :: 0 <= q < |buffers| ==> buffers[q] in buffers && buffers[q].data in Data() && buffers[q].Valid())
      && (forall q, t :: 0 <= q < t < |buffers| ==> buffers[q] != buffers[t] && buffers[q].data != buffers[t].data)
    }

    /** The flags of every buffer are those of a pipe whose closed files are those in `log`. */
    ghost predicate Follows(log: seq<nat>)
      reads this, files, buffers
      requires |buffers| == |files.pipes|
    {
      forall q :: 0 <= q < |buffers| ==>
        && buffers[q].readOpen == (files.pipes[q].reader !in log)
        && buffers[q].writeOpen == (files.pipes[q].writer !in log)
    }

    ghost predicate Valid()
      reads this, files, buffers, Data()
    {
      Inv(files.Now()) && |buffers| == |files.pipes| && Separate() && Follows(files.closed)
    }

    /** File::close of a file of this kind. */
    method CloseFile(kind: Kind)
      requires Separate() && (kind.Plain? || kind.pipe < |buffers|)
      modifies buffers
      ensures Separate()
      ensures forall q :: 0 <= q < |buffers| ==>
        && buffers[q].history == old(buffers[q].history)
        && buffers[q].readOpen == (old(buffers[q].readOpen) && kind != Reader(q))
        && buffers[q].writeOpen == (old(buffers[q].writeOpen) && kind != Writer(q))
    {
      match kind
      case Plain =>
      case Reader(q) => buffers[q].Close(true);
      case Writer(q) => buffers[q].Close(false);
    }

    /** Call number i of File::close in the log. */
    method CloseNext(i: nat)
      requires Inv(files.Now()) && |buffers| == |files.pipes| && Separate()
      requires i < |files.closed| && Follows(files.closed[..i])
      modifies buffers
      ensures Separate() && Follows(files.closed[..i + 1])
      ensures forall q :: 0 <= q < |buffers| ==> buffers[q].history == old(buffers[q].history)
    {
      hide Inv, Separate;
      var f := files.closed[i];
      LoggedIsFile(files.Now(), f);
      CloseFile(files.kinds[f]);
      forall q | 0 <= q < |buffers| ensures
        && buffers[q].readOpen == (files.pipes[q].reader !in files.closed[..i + 1])
        && buffers[q].writeOpen == (files.pipes[q].writer !in files.closed[..i + 1])
      {
        WhoseEnd(files.Now(), f, q);
        LoggedMore(files.closed, i, files.pipes[q].reader);
        LoggedMore(files.closed, i, files.pipes[q].writer);
      }
    }

    /** The calls of File::close from number k of the log on. */
    method CloseFrom(k: nat)
      requires Inv(files.Now()) && |buffers| == |files.pipes| && Separate()
      requires k <= |files.closed| && Follows(files.closed[..k])
      modifies buffers
      ensures Valid() && forall q :: 0 <= q < |buffers| ==> buffers[q].history == old(buffers[q].history)
    {
      hide Inv, Separate, Follows;
      var i := k;
      while i < |files.closed|
        invariant k <= i <= |files.closed| && Separate() && Follows(files.closed[..i])
        invariant forall q :: 0 <= q < |buffers| ==> buffers[q].history == old(buffers[q].history)
      {
        CloseNext(i);
        i := i + 1;
      }
      assert files.closed[..i] == files.closed;
    }

    /** PipeFile::create, if there is a pipe that has no buffer yet. */
    method AddBuffer()
      requires |buffers| <= |files.pipes| <= |buffers| + 1 && Separate()
      modifies this`buffers
      ensures |buffers| == |files.pipes| && Separate() && old(buffers) <= buffers
      ensures forall q :: |old(buffers)| <= q < |buffers| ==>
        && fresh(buffers[q]) && fresh(buffers[q].data)
        && buffers[q].history == Ring([], []) && buffers[q].readOpen && buffers[q].writeOpen
    {
      if |buffers| < |files.pipes| {
        var b := PipeBuffer.Create();
        buffers := buffers + [b];
      }
    }

    method PerformOnly(op: Descriptors.Op)
      requires Valid()
      modifies files
      ensures Descriptors.StepOf(old(files.Now()), op, files.Now()) && Separate()
    {
      hide Inv, Descriptors.StepOf;
      Descriptors.Perform(files, op);
    }

    /** A call on descriptors, before the calls of File::close it makes. */
    method Extend(op: Descriptors.Op)
      requires Valid()
      modifies this`buffers, files
      ensures Descriptors.StepOf(old(files.Now()), op, files.Now()) && |buffers| == |files.pipes| && Separate()
      ensures Follows(old(files.closed)) && old(buffers) <= buffers
      ensures forall q :: |old(buffers)| <= q < |buffers| ==>
        fresh(buffers[q]) && fresh(buffers[q].data) && buffers[q].history == Ring([], [])
    {
      hide Inv, Descriptors.StepOf, Separate, Slot;
      ghost var v, n := files.Now(), |buffers|;
      PerformOnly(op);
      StepEnds(v, op, files.Now());
      AddBuffer();
      forall q | 0 <= q < |buffers| ensures
        && buffers[q].readOpen == (files.pipes[q].reader !in v.closed)
        && buffers[q].writeOpen == (files.pipes[q].writer !in v.closed)
      {
        NewEnds(v, op, files.Now(), q);
        if q < n { assert buffers[q] == old(buffers)[q]; }
      }
    }

    /** A call on descriptors, with the calls of File::close it makes. */
    method DoCall(op: Descriptors.Op)
      requires Valid()
      modifies this`buffers, files, buffers
      ensures Valid() && RingsOk(old(Now())) && StepOfPipes(old(Now()), Call(op), Now(), NotAPipe)
      ensures forall q :: |old(buffers)| <= q < |buffers| ==> fresh(buffers[q]) && fresh(buffers[q].data)
      ensures old(buffers) <= buffers
    {
      hide Inv, Separate, Follows, Descriptors.StepOf;
      Counted();
      ghost var v := Now();
      var k := |files.closed|;
      Extend(op);
      StepEnds(v.world, op, files.Now());
      assert files.closed[..k] == v.world.closed;
      assert forall q :: 0 <= q < |v.rings| ==> buffers[q] == old(buffers)[q];
      CloseFrom(k);
      assert v.rings <= Now().rings;
    }

    lemma Counted()
      requires Valid()
      ensures RingsOk(Now())
    {
    }

    /** PipeBuffer::read on buffer q, with a buffer of n bytes; open says whether the writing end is. */
    method ReadBuffer(q: nat, n: nat) returns (r: Option<seq<Byte>>, open: bool)
      requires Valid() && q < |buffers| && RingsOk(Now())
      modifies buffers
      ensures Valid() && open == (files.pipes[q].writer !in files.closed)
      ensures Now() == old(Now().(rings := Now().rings[q := Get(Now().rings[q], n)]))
      ensures r == old(var s := Now().rings[q];
        if |s.got| == |s.written| && files.pipes[q].writer in files.closed then None else Some(Fetched(s, n)))
    {
      hide Inv, Get, Fetched, PipeBuffer.Valid;
      ghost var rings := Now().rings[q := Get(Now().rings[q], n)];
      r := ReadSome(buffers[q], n);
      assert Now().rings == rings;
      open := buffers[q].writeOpen;
    }

    /** One attempt of PipeFile::read on what descriptor fd of p names. */
    method DoRead(p: nat, fd: nat, n: nat) returns (r: Answer)
      requires Valid()
      modifies buffers
      ensures Valid() && RingsOk(old(Now())) && StepOfPipes(old(Now()), ReadFd(p, fd, n), Now(), r)
    {
      hide Inv, Held, Separate, Follows;
      Counted();
      PipeExists(files.Now(), p, fd);
      var kind := KindAt(files.tables, files.kinds, p, fd);
      if kind.Plain? {
        return NotAPipe;
      } else if kind.Writer? {
        return Refused;
      }
      var q := kind.pipe;
      EndsHeld(files.Now(), q);
      var got, open := ReadBuffer(q, n);
      r := if got.None? then Refused else if |got.value| == 0 && open then Waits else Count(|got.value|, got.value);
    }

    lemma SomeData(q: nat)
      requires Separate() && q < |buffers|
      ensures buffers[q] in buffers && buffers[q].data in Data()
      ensures forall t :: 0 <= t < |buffers| && t != q ==> buffers[t] != buffers[q]
    {
      hide PipeBuffer.Valid;
    }

    /** PipeBuffer::write on buffer q; the other buffers stay as they are. */
    method WriteOne(q: nat, bytes: seq<Byte>) returns (r: Option<nat>)
      requires Separate() && q < |buffers|
      modifies buffers[q], buffers[q].data
      ensures buffers[q].readOpen == old(buffers[q].readOpen) && buffers[q].writeOpen == old(buffers[q].writeOpen)
      ensures Separate() && buffers[q].history == Put(old(buffers[q].history), bytes)
      ensures r == if buffers[q].readOpen then Some(|bytes|) else None
    {
      hide Put, PipeBuffer.Valid;
      var b := buffers[q];
      r := b.Write(bytes);
      forall t | 0 <= t < |buffers| ensures buffers[t].Valid() {
        if t != q { assert buffers[t] != b && buffers[t].data != b.data; }
      }
    }

    method WriteBuffer(q: nat, bytes: seq<Byte>) returns (r: Option<nat>)
      requires Valid() && q < |buffers|
      modifies buffers, Data()
      ensures Valid() && Now() == old(Now().(rings := Now().rings[q := Put(Now().rings[q], bytes)]))
      ensures r == if files.pipes[q].reader !in files.closed then Some(|bytes|) else None
    {
      hide Inv, Put, Separate;
      ghost var rings := Now().rings[q := Put(Now().rings[q], bytes)];
      SomeData(q);
      r := WriteOne(q, bytes);
      assert Now().rings == rings;
    }

    /** PipeFile::write on what descriptor fd of p names; it never waits. */
    method DoWrite(p: nat, fd: nat, bytes: seq<Byte>) returns (r: Answer)
      requires Valid()
      modifies buffers, Data()
      ensures Valid() && RingsOk(old(Now())) && StepOfPipes(old(Now()), WriteFd(p, fd, bytes), Now(), r)
    {
      hide Inv, Held, Separate, Follows;
      Counted();
      PipeExists(files.Now(), p, fd);
      var kind := KindAt(files.tables, files.kinds, p, fd);
      if kind.Plain? {
        return NotAPipe;
      } else if kind.Reader? {
        return Refused;
      }
      var q := kind.pipe;
      EndsHeld(files.Now(), q);
      var put := WriteBuffer(q, bytes);
      r := if put.Some? then Count(put.value, bytes) else Refused;
    }

    ghost predicate Footprint()
      reads this, buffers
    {
      this in repr && files in repr && forall q :: 0 <= q < |buffers| ==> buffers[q] in repr && buffers[q].data in repr
    }

    method DoStep(step: PipeStep) returns (r: Answer)
      requires Valid() && Footprint()
      modifies repr
      ensures Valid() && RingsOk(old(Now())) && StepOfPipes(old(Now()), step, Now(), r)
      ensures Footprint() && fresh(repr - old(repr))
    {
      hide Inv, Separate, Follows, StepOfPipes, RingsOk;
      match step {
        case Call(op) => DoCall(op); r := NotAPipe;
        case ReadFd(p, fd, n) => r := DoRead(p, fd, n);
        case WriteFd(p, fd, bytes) => r := DoWrite(p, fd, bytes);
      }
      Register(|old(buffers)|);
    }

    /** The buffers from number n on are among the objects of the tables. */
    ghost method Register(n: nat)
      requires Valid() && this in repr && files in repr && n <= |buffers|
      requires forall q :: 0 <= q < n ==> buffers[q] in repr && buffers[q].data in repr
      modifies this`repr
      ensures Valid() && Footprint() && Now() == old(Now())
      ensures repr ==
        old(repr) + (set q | n <= q < |buffers| :: buffers[q]) + set q | n <= q < |buffers| :: buffers[q].data
    {
      hide Inv;
      var s := Now();
      repr := repr + (set q | n <= q < |buffers| :: buffers[q]) + set q | n <= q < |buffers| :: buffers[q].data;
      assert Now() == s;
    }
  }

  /** Every run of calls on descriptors, reads and writes, from the start. */
  method Run(steps: seq<PipeStep>) returns (t: PipeTables, answers: seq<Answer>, ghost trace: seq<PipeState>)
    ensures fresh(t) && t.Valid() && IsRun(trace, steps, answers) && trace[|steps|] == t.Now()
  {
    hide Inv, StepOfPipes, RingsOk;
    t := new PipeTables();
    answers, trace := [], [t.Now()];
    while |answers| < |steps|
      invariant |answers| <= |steps| && |trace| == |answers| + 1
      invariant fresh(t) && fresh(t.repr) && t.Valid() && t.Footprint()
      invariant trace[0] == PipeState(World(map[], [], [], [], []), []) && trace[|answers|] == t.Now()
      invariant forall k :: 0 <= k < |answers| ==>
        RingsOk(trace[k]) && StepOfPipes(trace[k], steps[k], trace[k + 1], answers[k])
    {
      var r := t.DoStep(steps[|answers|]);
      answers, trace := answers + [r], trace + [t.Now()];
    }
  }

  /** The states of a run from the start. */
  ghost predicate IsRun(trace: seq<PipeState>, steps: seq<PipeStep>, answers: seq<Answer>) {
    && |answers| == |steps| && |trace| == |steps| + 1 && trace[0] == PipeState(World(map[], [], [], [], []), [])
    && forall k :: 0 <= k < |steps| ==> RingsOk(trace[k]) && StepOfPipes(trace[k], steps[k], trace[k + 1], answers[k])
  }

  /**
   * Whichever descriptors of whichever processes write to a pipe and read from it in a run: as long as there are never
   * more than 512 bytes unread, what was read is a prefix of what was written.
   */
  lemma {:induction false} PipeIsAQueue(trace: seq<PipeState>, steps: seq<PipeStep>, answers: seq<Answer>, q: nat,
                                        n: nat)
    requires IsRun(trace, steps, answers) && n < |trace| && q < |trace[n].rings|
    requires forall k :: 0 <= k <= n && q < |trace[k].rings| ==> Pipes.Within(trace[k].rings[q])
    ensures InOrder(trace[n].rings[q])
  {
    hide Descriptors.StepOf, Held;
    if n > 0 {
      var v, step := trace[n - 1], steps[n - 1];
      assert StepOfPipes(v, step, trace[n], answers[n - 1]);
      if q < |v.rings| {
        PipeIsAQueue(trace, steps, answers, q, n - 1);
        if step.ReadFd? { FetchedIsFront(v.rings[q], step.n); }
      }
    }
  }

  /** The second lowest free descriptor. */
  function SecondFd(t: Table): nat { FreeFd(Stored(t, 0)) }

  /** pipe2: the lowest free descriptor is the reading end of a new empty pipe, and the next one its writing end. */
  lemma PipeFds(v: PipeState, p: nat, w: PipeState, r: Answer)
    requires RingsOk(v) && StepOfPipes(v, Call(PipeOp(p)), w, r) && p in v.world.tables
    ensures var t, q := v.world.tables[p], |v.rings|;
      && FreeFd(t) < SecondFd(t) && q < |w.rings| && w.rings[q] == Ring([], [])
      && KindAt(w.world.tables, w.world.kinds, p, FreeFd(t)) == Reader(q)
      && KindAt(w.world.tables, w.world.kinds, p, SecondFd(t)) == Writer(q)
  {
    hide RefOk, CloseOk, KindOk, PipeOk, Held;
    var t, n := v.world.tables[p], |v.world.refs|;
    SameFree(Stored(t, 0), Stored(t, n));
    assert FreeFd(Stored(t, n)) != FreeFd(t);
    assert w.world.tables[p] == Stored(Stored(t, n), n + 1);
    assert |v.world.kinds| == n;
  }

  lemma {:induction false} SameFree(t: Table, u: Table)
    requires |t| == |u| && forall i :: 0 <= i < |t| ==> t[i].Some? == u[i].Some?
    ensures FreeFd(t) == FreeFd(u)
    decreases |t|
  {
    if t != [] { SameFree(t[1..], u[1..]); }
  }

  /** What is written to an empty pipe, at most 512 bytes, is what the next read of at least one byte returns. */
  lemma WriteThenRead(v: PipeState, p: nat, fd: nat, bytes: seq<Byte>, w: PipeState, r: Answer,
                      p': nat, fd': nat, n: nat, x: PipeState, r': Answer, q: nat)
    requires RingsOk(v) && StepOfPipes(v, WriteFd(p, fd, bytes), w, r)
    requires RingsOk(w) && StepOfPipes(w, ReadFd(p', fd', n), x, r')
    requires KindAt(v.world.tables, v.world.kinds, p, fd) == Writer(q)
    requires KindAt(v.world.tables, v.world.kinds, p', fd') == Reader(q)
    requires q < |v.rings| && v.rings[q].got == v.rings[q].written && 0 < |bytes| <= 512 && n > 0
    ensures r' == Count(Min(n, |bytes|), bytes[..Min(n, |bytes|)])
  {
    hide Held, Slot;
    FetchedIsFront(w.rings[q], n);
  }

  lemma EmptyWorld()
    ensures Inv(World(map[], [], [], [], []))
  {
  }

  lemma {:induction false} RunKeepsInv(trace: seq<PipeState>, steps: seq<PipeStep>, answers: seq<Answer>, n: nat)
    requires IsRun(trace, steps, answers) && n < |trace|
    ensures Inv(trace[n].world)
  {
    hide Inv, Held, TablesAfter, NewKinds, NewPipes;
    EmptyWorld();
    if n > 0 {
      RunKeepsInv(trace, steps, answers, n - 1);
      assert StepOfPipes(trace[n - 1], steps[n - 1], trace[n], answers[n - 1]);
    }
  }

  /** A file that no descriptor names is never named again. */
  lemma NeverHeldAgain(v: World, op: Descriptors.Op, w: World, f: nat)
    requires Descriptors.StepOf(v, op, w) && f < |v.refs| && !Held(v, f)
    ensures f < |w.refs| && !Held(w, f)
  {
    hide KindOk, PipeOk, TablesAfter, NewKinds, NewPipes;
    assert |v.kinds| <= |w.kinds|;
    assert RefOk(v, f) && CloseOk(v, f) && RefOk(w, f) && CloseOk(w, f);
    CountedIffNamed(v.tables, f);
    CountedIffNamed(w.tables, f);
    assert w.closed == v.closed + w.closed[|v.closed|..];
  }

  /** Whoever writes to pipe q holds its writing end. */
  lemma WriterHolds(w: World, p: nat, fd: nat, q: nat)
    requires Inv(w) && KindAt(w.tables, w.kinds, p, fd) == Writer(q)
    ensures q < |w.pipes| && Held(w, w.pipes[q].writer)
  {
    hide RefOk, CloseOk, PipeOk;
    var f := w.tables[p][fd].value;
    assert KindOk(w, f);
    assert Names(w.tables, p, fd, f);
  }

  /** Nothing is unread in pipe q, and nobody holds its writing end. */
  ghost predicate Finished(s: PipeState, q: nat) {
    && RingsOk(s) && q < |s.rings| && |s.rings[q].got| == |s.rings[q].written|
    && s.world.pipes[q].writer < |s.world.refs| && !Held(s.world, s.world.pipes[q].writer)
  }

  lemma FinishedStays(v: PipeState, step: PipeStep, w: PipeState, r: Answer, q: nat)
    requires Finished(v, q) && Inv(v.world) && StepOfPipes(v, step, w, r) && RingsOk(w)
    ensures Finished(w, q) && w.rings[q] == v.rings[q]
  {
    hide Inv, Held, TablesAfter, NewKinds;
    match step
    case Call(op) => NeverHeldAgain(v.world, op, w.world, v.world.pipes[q].writer);
    case ReadFd(p, fd, n) =>
    case WriteFd(p, fd, bytes) =>
      if KindAt(v.world.tables, v.world.kinds, p, fd) == Writer(q) { WriterHolds(v.world, p, fd, q); }
  }

  /**
   * The refusal of a read is final: in every run, once a read of pipe q was refused for want of a writer, nothing is
   * ever written to q again.
   */
  lemma {:induction false} RefusedIsFinal(trace: seq<PipeState>, steps: seq<PipeStep>, answers: seq<Answer>,
                                          k: nat, n: nat, q: nat)
    requires IsRun(trace, steps, answers) && k < n < |trace|
    requires steps[k].ReadFd? && answers[k] == Refused
    requires KindAt(trace[k].world.tables, trace[k].world.kinds, steps[k].p, steps[k].fd) == Reader(q)
    ensures q < |trace[k].rings| && Finished(trace[n], q) && trace[n].rings[q] == trace[k].rings[q]
    decreases n
  {
    hide Inv, Held, Finished, TablesAfter, NewKinds, NewPipes;
    RunKeepsInv(trace, steps, answers, n - 1);
    assert StepOfPipes(trace[n - 1], steps[n - 1], trace[n], answers[n - 1]);
    assert StepOfPipes(trace[k], steps[k], trace[k + 1], answers[k]);
    if n - 1 > k {
      RefusedIsFinal(trace, steps, answers, k, n - 1, q);
    } else {
      RefusedIsFinished(trace[k], steps[k].p, steps[k].fd, steps[k].n, q);
    }
    RingsStay(trace[n - 1], steps[n - 1], trace[n], answers[n - 1]);
    FinishedStays(trace[n - 1], steps[n - 1], trace[n], answers[n - 1], q);
  }

  lemma RefusedIsFinished(v: PipeState, p: nat, fd: nat, n: nat, q: nat)
    requires RingsOk(v) && Inv(v.world) && KindAt(v.world.tables, v.world.kinds, p, fd) == Reader(q) && q < |v.rings|
    requires ReadAnswer(v.rings[q], n, Held(v.world, v.world.pipes[q].writer)) == Refused
    ensures Finished(v, q)
  {
    hide RefOk, CloseOk, KindOk, Held, ReadAnswer;
    assert PipeOk(v.world, q);
  }

  lemma RingsStay(v: PipeState, step: PipeStep, w: PipeState, r: Answer)
    requires RingsOk(v) && StepOfPipes(v, step, w, r)
    ensures RingsOk(w)
  {
    hide Inv, Held, TablesAfter, NewKinds, NewPipes;
  }

  lemma LoggedMore(log: seq<nat>, i: nat, f: nat)
    requires i < |log|
    ensures f in log[..i + 1] <==> f in log[..i] || f == log[i]
  {
    assert log[..i + 1] == log[..i] + [log[i]];
  }

  lemma PipeExists(w: World, p: nat, fd: nat)
    requires Inv(w)
    ensures var k := KindAt(w.tables, w.kinds, p, fd); k.Plain? || k.pipe < |w.pipes|
  {
    hide RefOk, CloseOk, PipeOk;
    if p in w.tables && fd < |w.tables[p]| && w.tables[p][fd].Some? && w.tables[p][fd].value < |w.kinds| {
      assert KindOk(w, w.tables[p][fd].value);
    }
  }

  lemma EndsHeld(w: World, q: nat)
    requires Inv(w) && q < |w.pipes|
    ensures w.pipes[q].reader !in w.closed <==> Held(w, w.pipes[q].reader)
    ensures w.pipes[q].writer !in w.closed <==> Held(w, w.pipes[q].writer)
  {
    hide Inv;
    OpenUntilClosed(w, q);
    EndsOpenWhileNamed(w, q);
  }

  lemma LoggedIsFile(w: World, f: nat)
    requires Inv(w) && f in w.closed
    ensures f < |w.kinds| && (w.kinds[f].Plain? || w.kinds[f].pipe < |w.pipes|)
  {
    hide RefOk, CloseOk, PipeOk;
    assert f < |w.refs|;
    assert KindOk(w, f);
  }
}
