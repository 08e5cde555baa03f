/** Directory blocks: records that tile a block, and inserting an entry. */
module Ext4Dir {
  import opened Bytes
  import opened Ext4Layout
  import opened Ext4Files

  datatype DirEntry = DirEntry(ino: nat, name: Buffer, fileType: byte)

  const HEADER := 8
  const NAME_MAX := 255

  function Align4(x: nat): (r: nat)
    ensures x <= r < x + 4 && r % 4 == 0
  {
    (x + 3) / 4 * 4
  }

  /** The bytes a record of this name needs. */
  function NeededLen(nameLen: nat): nat { Align4(HEADER + nameLen) }

  function RecLen(b: Buffer, off: nat): (r: nat) requires off + HEADER <= |b| { Get16(b, off + 4) }
  function NameLen(b: Buffer, off: nat): (r: nat) requires off + HEADER <= |b| { b[off + 6] }

  /** A well-formed record starts at off. */
  predicate RecordAt(b: Buffer, off: nat) {
    && off + HEADER <= |b|
    && NeededLen(NameLen(b, off)) <= RecLen(b, off)
    && RecLen(b, off) % 4 == 0
    && off + RecLen(b, off) <= |b|
  }

  /** From off on, the block is exactly covered by well-formed records. */
  predicate Tiled(b: Buffer, off: nat)
    decreases |b| - off
  {
    off == |b| || (RecordAt(b, off) && Tiled(b, off + RecLen(b, off)))
  }

  function EntryAt(b: Buffer, off: nat): DirEntry
    requires RecordAt(b, off)
  {
    DirEntry(Get32(b, off), b[off + HEADER..off + HEADER + NameLen(b, off)], b[off + 7])
  }

  function Entries(b: Buffer, off: nat): seq<DirEntry>
    requires Tiled(b, off)
    decreases |b| - off
  {
    if off == |b| then [] else [EntryAt(b, off)] + Entries(b, off + RecLen(b, off))
  }

  /** off is where a record starts, counting from start. */
  predicate Boundary(b: Buffer, start: nat, off: nat)
    requires Tiled(b, start)
    decreases |b| - start
  {
    start == off || (start < |b| && Boundary(b, start + RecLen(b, start), off))
  }

  lemma {:induction false} BoundaryTiled(b: Buffer, start: nat, off: nat)
    requires Tiled(b, start) && Boundary(b, start, off)
    ensures start <= off <= |b| && Tiled(b, off)
    decreases |b| - start
  {
    if start != off {
      BoundaryTiled(b, start + RecLen(b, start), off);
    }
  }

  lemma {:induction false} BoundaryNext(b: Buffer, start: nat, off: nat)
    requires Tiled(b, start) && Boundary(b, start, off) && off < |b| && RecordAt(b, off)
    ensures Boundary(b, start, off + RecLen(b, off))
    decreases |b| - start
  {
    if start != off {
      BoundaryNext(b, start + RecLen(b, start), off);
    }
  }

  // ---- writing a record ----

  function PutBytes(b: Buffer, off: nat, x: Buffer): (r: Buffer)
    requires off + |x| <= |b|
    ensures |r| == |b|
    ensures forall i :: 0 <= i < |r| ==> r[i] == if off <= i < off + |x| then x[i - off] else b[i]
  {
    b[..off] + x + b[off + |x|..]
  }

  function PutRecord(b: Buffer, off: nat, e: DirEntry, recLen: nat): (r: Buffer)
    requires off + HEADER + |e.name| <= |b| && |e.name| <= NAME_MAX
    ensures |r| == |b|
  {
    var b1 := Put16(Put32(b, off, e.ino), off + 4, recLen);
    PutBytes(b1[off + 6 := |e.name|][off + 7 := e.fileType], off + HEADER, e.name)
  }

  lemma PutRecordReads(b: Buffer, off: nat, e: DirEntry, recLen: nat)
    requires off + HEADER + |e.name| <= |b| && |e.name| <= NAME_MAX && e.ino < WORD && recLen < 0x10000
    ensures var r := PutRecord(b, off, e, recLen);
            && RecLen(r, off) == recLen && NameLen(r, off) == |e.name|
            && Get32(r, off) == e.ino && r[off + 7] == e.fileType
            && r[off + HEADER..off + HEADER + |e.name|] == e.name
            && forall i :: 0 <= i < |b| && !(off <= i < off + HEADER + |e.name|) ==> r[i] == b[i]
  {
    Get32Put32(b, off, e.ino);
    Get16Put16(Put32(b, off, e.ino), off + 4, recLen);
  }

  // ---- frames ----

  /** A record depends only on its own bytes. */
  lemma RecordFrame(b: Buffer, b': Buffer, off: nat)
    requires RecordAt(b, off) && |b'| == |b|
    requires forall i :: off <= i < off + RecLen(b, off) ==> b'[i] == b[i]
    ensures RecordAt(b', off) && RecLen(b', off) == RecLen(b, off) && EntryAt(b', off) == EntryAt(b, off)
  {
    var n := NameLen(b, off);
    assert b'[off + HEADER..off + HEADER + n] == b[off + HEADER..off + HEADER + n];
  }

  /** Records from off on depend only on the bytes from off on. */
  lemma {:induction false} SuffixFrame(b: Buffer, b': Buffer, off: nat)
    requires Tiled(b, off) && |b'| == |b| && forall i :: off <= i < |b| ==> b'[i] == b[i]
    ensures Tiled(b', off) && Entries(b', off) == Entries(b, off)
    decreases |b| - off
  {
    hide EntryAt, Get16;
    if off != |b| {
      SuffixFrame(b, b', off + RecLen(b, off));
      RecordFrame(b, b', off);
    }
  }

  ghost function Insert(s: seq<DirEntry>, k: nat, e: DirEntry): seq<DirEntry>
    requires k <= |s|
  {
    s[..k] + [e] + s[k..]
  }

  /** new is old with e put in somewhere. */
  ghost predicate Inserted(old_: seq<DirEntry>, new_: seq<DirEntry>, e: DirEntry) {
    exists k: nat :: k <= |old_| && new_ == Insert(old_, k, e)
  }

  lemma InsertedMultiset(s: seq<DirEntry>, s': seq<DirEntry>, e: DirEntry)
    requires Inserted(s, s', e)
    ensures multiset(s') == multiset(s) + multiset{e}
  {
    var k: nat :| k <= |s| && s' == Insert(s, k, e);
    assert s == s[..k] + s[k..];
  }

  lemma InsertLater(a: seq<DirEntry>, s: seq<DirEntry>, s': seq<DirEntry>, e: DirEntry)
    requires Inserted(s, s', e)
    ensures Inserted(a + s, a + s', e)
  {
    var k: nat :| k <= |s| && s' == Insert(s, k, e);
    assert (a + s)[..|a| + k] == a + s[..k] && (a + s)[|a| + k..] == s[k..];
    assert a + s' == Insert(a + s, |a| + k, e);
  }

  lemma InsertEarlier(s: seq<DirEntry>, s': seq<DirEntry>, a: seq<DirEntry>, e: DirEntry)
    requires Inserted(s, s', e)
    ensures Inserted(s + a, s' + a, e)
  {
    var k: nat :| k <= |s| && s' == Insert(s, k, e);
    assert (s + a)[..k] == s[..k] && (s + a)[k..] == s[k..] + a;
    assert s' + a == Insert(s + a, k, e);
  }

  // ---- splitting a record ----

  /** The record at off is shrunk to what its name needs and e takes the rest. */
  function SplitRecord(b: Buffer, off: nat, e: DirEntry): (r: Buffer)
    requires RecordAt(b, off) && |e.name| <= NAME_MAX
    requires NeededLen(NameLen(b, off)) + NeededLen(|e.name|) <= RecLen(b, off)
    ensures |r| == |b|
  {
    var actual := NeededLen(NameLen(b, off));
    PutRecord(Put16(b, off + 4, actual), off + actual, e, RecLen(b, off) - actual)
  }

  /** What splitting does to the bytes, record by record. */
  ghost predicate IsSplit(b: Buffer, b': Buffer, off: nat, e: DirEntry)
    requires RecordAt(b, off)
  {
    var actual, len := NeededLen(NameLen(b, off)), RecLen(b, off);
    && |b'| == |b| && actual + NeededLen(|e.name|) <= len
    && RecordAt(b', off) && RecLen(b', off) == actual && EntryAt(b', off) == EntryAt(b, off)
    && RecordAt(b', off + actual) && RecLen(b', off + actual) == len - actual && EntryAt(b', off + actual) == e
    && (forall i :: 0 <= i < off ==> b'[i] == b[i])
    && (forall i :: off + len <= i < |b| ==> b'[i] == b[i])
  }

  lemma SameLength(b: Buffer, b': Buffer, off: nat)
    requires off + HEADER <= |b| == |b'| && b'[off + 4] == b[off + 4] && b'[off + 5] == b[off + 5]
    ensures RecLen(b', off) == RecLen(b, off)
  {
  }

  /** What is stored as a record reads back as that record. */
  lemma RecordPut(b: Buffer, off: nat, e: DirEntry, recLen: nat)
    requires off + recLen <= |b| && |e.name| <= NAME_MAX && e.ino < WORD
    requires NeededLen(|e.name|) <= recLen < 0x10000 && recLen % 4 == 0
    ensures var r := PutRecord(b, off, e, recLen);
            && RecordAt(r, off) && RecLen(r, off) == recLen && EntryAt(r, off) == e
            && forall i :: 0 <= i < |b| && !(off <= i < off + recLen) ==> r[i] == b[i]
  {
    hide PutRecord, Get32, Get16, Align4;
    PutRecordReads(b, off, e, recLen);
  }

  lemma SplitFirst(b: Buffer, b': Buffer, off: nat, actual: nat)
    requires RecordAt(b, off) && |b'| == |b| && actual == NeededLen(NameLen(b, off))
    requires forall i :: off <= i < off + actual && !(off + 4 <= i < off + 6) ==> b'[i] == b[i]
    requires RecLen(b', off) == actual
    ensures RecordAt(b', off) && EntryAt(b', off) == EntryAt(b, off)
  {
    var n := NameLen(b, off);
    assert b'[off + HEADER..off + HEADER + n] == b[off + HEADER..off + HEADER + n];
  }

  lemma SplitRecordIsSplit(b: Buffer, off: nat, e: DirEntry)
    requires RecordAt(b, off) && |e.name| <= NAME_MAX && e.ino < WORD
    requires NeededLen(NameLen(b, off)) + NeededLen(|e.name|) <= RecLen(b, off)
    ensures IsSplit(b, SplitRecord(b, off, e), off, e)
  {
    hide PutRecord, Put16, Get16, Align4, EntryAt;
    var actual, len := NeededLen(NameLen(b, off)), RecLen(b, off);
    var b1 := Put16(b, off + 4, actual);
    var b' := SplitRecord(b, off, e);
    Get16Put16(b, off + 4, actual);
    assert len - actual < 0x10000;
    RecordPut(b1, off + actual, e, len - actual);
    SameLength(b1, b', off);
    SplitFirst(b, b', off, actual);
  }

  lemma OneRecord(b: Buffer, off: nat, next: nat)
    requires RecordAt(b, off) && next == off + RecLen(b, off) && Tiled(b, next)
    ensures off < |b| && Tiled(b, off) && Entries(b, off) == [EntryAt(b, off)] + Entries(b, next)
  {
  }

  lemma SecondInserted(first: DirEntry, e: DirEntry, rest: seq<DirEntry>)
    ensures Inserted([first] + rest, [first] + ([e] + rest), e)
  {
    assert [first] + ([e] + rest) == Insert([first] + rest, 1, e);
  }

  lemma SplitHere(b: Buffer, b': Buffer, off: nat, e: DirEntry)
    requires Tiled(b, off) && off < |b| && IsSplit(b, b', off, e)
    ensures Tiled(b', off)
    ensures Inserted(Entries(b, off), Entries(b', off), e)
  {
    hide EntryAt, Align4, RecLen, NameLen, Entries, Inserted, Insert;
    var actual, len := NeededLen(NameLen(b, off)), RecLen(b, off);
    var rest := Entries(b, off + len);
    SuffixFrame(b, b', off + len);
    OneRecord(b', off + actual, off + len);
    OneRecord(b', off, off + actual);
    OneRecord(b, off, off + len);
    SecondInserted(EntryAt(b, off), e, rest);
  }

  /** Records before the split one are as they were; the new entry follows the split one. */
  lemma {:induction false} SplitTiled(b: Buffer, b': Buffer, start: nat, off: nat, e: DirEntry)
    requires Tiled(b, start) && Boundary(b, start, off) && off < |b| && RecordAt(b, off) && IsSplit(b, b', off, e)
    ensures Tiled(b', start)
    ensures Inserted(Entries(b, start), Entries(b', start), e)
    decreases |b| - start
  {
    hide Get16, Get32, Align4, Inserted, EntryAt;
    BoundaryTiled(b, start, off);
    if start == off {
      SplitHere(b, b', off, e);
    } else {
      var next := start + RecLen(b, start);
      BoundaryTiled(b, next, off);
      SplitTiled(b, b', next, off, e);
      RecordFrame(b, b', start);
      InsertLater([EntryAt(b, start)], Entries(b, next), Entries(b', next), e);
    }
  }

  /** A block taken up by one record. */
  lemma FreshBlock(size: nat, e: DirEntry)
    requires 1024 <= size <= 4096 && size % 4 == 0 && |e.name| <= NAME_MAX && e.ino < WORD
    ensures var b := PutRecord(Zeros(size), 0, e, size);
            Tiled(b, 0) && Entries(b, 0) == [e]
  {
    var b := PutRecord(Zeros(size), 0, e, size);
    PutRecordReads(Zeros(size), 0, e, size);
    assert Tiled(b, size) && Entries(b, size) == [];
  }

  // ---- whole directories ----

  /** The first n blocks of a directory, where mapped, are tiled. */
  ghost predicate DirOk(c: Contents, ino: nat, n: nat) {
    forall fb: nat :: fb < n && (ino, fb) in c ==> Tiled(c[(ino, fb)], 0)
  }

  ghost function DirEntries(c: Contents, ino: nat, n: nat): seq<DirEntry>
    requires DirOk(c, ino, n)
  {
    if n == 0 then []
    else DirEntries(c, ino, n - 1) + (if (ino, n - 1) in c then Entries(c[(ino, n - 1)], 0) else [])
  }

  lemma {:induction false} DirFrame(c: Contents, c': Contents, ino: nat, n: nat)
    requires DirOk(c, ino, n)
    requires forall fb: nat :: fb < n ==> ((ino, fb) in c' <==> (ino, fb) in c)
    requires forall fb: nat :: fb < n && (ino, fb) in c ==> c'[(ino, fb)] == c[(ino, fb)]
    ensures DirOk(c', ino, n) && DirEntries(c', ino, n) == DirEntries(c, ino, n)
  {
    if n > 0 {
      DirFrame(c, c', ino, n - 1);
    }
  }

  /** An entry inserted in one block is inserted in the directory. */
  lemma {:induction false} DirInsert(c: Contents, ino: nat, n: nat, fb: nat, x: Buffer, e: DirEntry)
    requires DirOk(c, ino, n) && fb < n && (ino, fb) in c
    requires Tiled(x, 0) && Inserted(Entries(c[(ino, fb)], 0), Entries(x, 0), e)
    ensures DirOk(c[(ino, fb) := x], ino, n)
    ensures Inserted(DirEntries(c, ino, n), DirEntries(c[(ino, fb) := x], ino, n), e)
  {
    var c' := c[(ino, fb) := x];
    if fb < n - 1 {
      DirInsert(c, ino, n - 1, fb, x, e);
      var last := if (ino, n - 1) in c then Entries(c[(ino, n - 1)], 0) else [];
      InsertEarlier(DirEntries(c, ino, n - 1), DirEntries(c', ino, n - 1), last, e);
    } else {
      DirFrame(c, c', ino, n - 1);
      InsertLater(DirEntries(c, ino, n - 1), Entries(c[(ino, fb)], 0), Entries(x, 0), e);
    }
  }

  /** A new last block with one entry. */
  lemma DirAppend(c: Contents, ino: nat, n: nat, x: Buffer, e: DirEntry)
    requires DirOk(c, ino, n) && Tiled(x, 0) && Entries(x, 0) == [e]
    ensures DirOk(c[(ino, n) := x], ino, n + 1)
    ensures Inserted(DirEntries(c, ino, n), DirEntries(c[(ino, n) := x], ino, n + 1), e)
  {
    DirFrame(c, c[(ino, n) := x], ino, n);
    var s := DirEntries(c, ino, n);
    assert s + [e] == Insert(s, |s|, e);
  }
}
