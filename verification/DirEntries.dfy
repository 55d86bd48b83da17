/** The records of getdents64 (src/syscall/c/mod.rs): how the kernel lays one out, and how a C program reads it back. */
module DirEntries {
  import opened Basics
  import opened Words

  type Name = seq<Byte>

  datatype Entry = Entry(ino: nat, dtype: Byte, name: Name)

  const HEADER: nat := 19

  function RoundUp8(n: nat): (r: nat)
    ensures n <= r < n + 8 && r % 8 == 0
  {
    (n + 7) / 8 * 8
  }

  function RecLen(e: Entry): (r: nat)
    ensures 20 + |e.name| <= r < 28 + |e.name| && r % 8 == 0
  {
    RoundUp8(HEADER + |e.name| + 1)
  }

  function Header(e: Entry, off: nat): (r: seq<Byte>)
    ensures |r| == HEADER
  {
    ToBytes(e.ino, 8) + ToBytes(off, 8) + ToBytes(RecLen(e), 2) + [e.dtype]
  }

  /** The record of the entry at position off; the length field keeps 16 bits. */
  function Record(e: Entry, off: nat): (r: seq<Byte>)
    ensures |r| == RecLen(e)
  {
    Header(e, off) + e.name + Zeros(RecLen(e) - HEADER - |e.name|)
  }

  /** from_dentry, with the padding pushed byte by byte. */
  method FromDentry(e: Entry, off: nat) returns (bytes: seq<Byte>)
    ensures bytes == Record(e, off)
  {
    var len := RoundUp8(HEADER + |e.name| + 1);
    bytes := ToBytes(e.ino, 8) + ToBytes(off, 8) + ToBytes(len, 2) + [e.dtype];
    bytes := bytes + e.name;
    ghost var start := bytes;
    while |bytes| < len
      invariant |start| <= |bytes| <= len && bytes == start + Zeros(|bytes| - |start|)
    {
      bytes := bytes + [0];
    }
  }

  // ---- the reader

  /** The bytes before the first NUL. */
  function CString(s: seq<Byte>): Option<Name>
    decreases |s|
  {
    if s == [] then None
    else if s[0] == 0 then Some([])
    else match CString(s[1..]) case None => None case Some(r) => Some([s[0]] + r)
  }

  datatype Parsed = Parsed(entry: Entry, off: nat, len: nat)

  function ParseOne(b: seq<Byte>): (r: Option<Parsed>)
    ensures r.Some? ==> HEADER < r.value.len <= |b|
  {
    if |b| <= HEADER then None else
    var len := FromBytes(b[16..18]);
    if len <= HEADER || len > |b| then None else
    match CString(b[HEADER..len])
    case None => None
    case Some(name) => Some(Parsed(Entry(FromBytes(b[..8]), b[18], name), FromBytes(b[8..16]), len))
  }

  /** Reading a buffer of records from front to back. */
  function ParseAll(b: seq<Byte>): Option<seq<Entry>>
    decreases |b|
  {
    if b == [] then Some([]) else
    match ParseOne(b)
    case None => None
    case Some(p) => match ParseAll(b[p.len..]) case None => None case Some(r) => Some([p.entry] + r)
  }

  /** The positions that the records of a buffer carry. */
  function ParseOffsets(b: seq<Byte>): seq<nat>
    decreases |b|
  {
    if ParseOne(b).None? then [] else [ParseOne(b).value.off] + ParseOffsets(b[ParseOne(b).value.len..])
  }

  lemma {:induction false} CStringOf(name: Name, more: seq<Byte>)
    requires NulFree(name) && more != [] && more[0] == 0
    ensures CString(name + more) == Some(name)
    decreases |name|
  {
    if name == [] {
      assert name + more == more;
    } else {
      assert (name + more)[1..] == name[1..] + more;
      CStringOf(name[1..], more);
      assert [name[0]] + name[1..] == name;
    }
  }

  lemma {:induction false} CStringIsNulFree(s: seq<Byte>)
    ensures CString(s).Some? ==> NulFree(CString(s).value)
    decreases |s|
  {
    if s != [] { CStringIsNulFree(s[1..]); }
  }

  /** The fields of a record, wherever it lies. */
  lemma RecordFields(e: Entry, off: nat, more: seq<Byte>)
    ensures var b := Record(e, off) + more;
            && b[..8] == ToBytes(e.ino, 8) && b[8..16] == ToBytes(off, 8) && b[16..18] == ToBytes(RecLen(e), 2)
              && b[18] == e.dtype
            && b[HEADER..RecLen(e)] == e.name + Zeros(RecLen(e) - HEADER - |e.name|)
  {
    hide ToBytes, RecLen, Zeros;
    var h := Header(e, off);
    var b := Record(e, off) + more;
    assert b[..HEADER] == h;
    assert h[..8] == ToBytes(e.ino, 8) && h[8..16] == ToBytes(off, 8) && h[16..18] == ToBytes(RecLen(e), 2)
      && h[18] == e.dtype;
    assert b[..8] == h[..8] && b[8..16] == h[8..16] && b[16..18] == h[16..18] && b[18] == h[18];
  }

  ghost predicate Readable(e: Entry) { e.ino < SPAN64 && RecLen(e) < 65536 && NulFree(e.name) }

  lemma Span2()
    ensures Span(2) == 65536
  {
    assert Span(1) == 256;
  }

  /**
   * A record is read back as the entry it was made from if and only if its name has no NUL and its length fits 16 bits.
   */
  lemma RecordReadsBackIff(e: Entry, off: nat, more: seq<Byte>)
    requires e.ino < SPAN64 && off < SPAN64
    ensures ParseOne(Record(e, off) + more) == Some(Parsed(e, off, RecLen(e))) <==> Readable(e)
  {
    hide ToBytes, FromBytes, CString, Record, RecLen, Zeros, NulFree;
    var b := Record(e, off) + more;
    RecordFields(e, off, more);
    Span8();
    Span2();
    LoadAfterStore(e.ino, 8);
    LoadAfterStore(off, 8);
    var pad := Zeros(RecLen(e) - HEADER - |e.name|);
    if Readable(e) {
      LoadAfterStore(RecLen(e), 2);
      CStringOf(e.name, pad);
    } else if ParseOne(b) == Some(Parsed(e, off, RecLen(e))) {
      assert RecLen(e) < 65536;
      CStringIsNulFree(b[HEADER..RecLen(e)]);
      assert false;
    }
  }
}
