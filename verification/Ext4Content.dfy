/** What reading and writing byte ranges mean for the contents of files. */
module Ext4Content {
  import opened Bytes
  import opened Arith
  import opened Ext4Layout
  import opened Ext4Ownership
  import opened Ext4Alloc
  import opened Ext4State
  import opened Ext4Steps
  import opened Ext4Files
  import opened Ext4Strays

  datatype MaybeByte = Hole | Stored(value: byte)

  /** The byte of a file at a position, or Hole where no block is mapped. */
  ghost function ByteAt(g: Geometry, c: Contents, ino: nat, pos: nat): MaybeByte
    requires g.Valid()
  {
    var k := (ino, pos / g.blockSize);
    if k in c && pos % g.blockSize < |c[k]| then Stored(c[k][pos % g.blockSize]) else Hole
  }

  function RoundDown(x: nat, d: nat): nat requires d > 0 { x - x % d }
  function RoundUp(x: nat, d: nat): nat requires d > 0 { if x % d == 0 then x else x - x % d + d }

  /** The byte expected at pos once the first k bytes of data are written at offset: the
      data where it was written, the former byte elsewhere, and zero in the rest of a
      block that had to be mapped for the write. */
  ghost function Expected(g: Geometry, c: Contents, ino: nat, offset: nat, data: Buffer, k: nat, pos: nat): MaybeByte
    requires g.Valid() && k <= |data|
  {
    if offset <= pos < offset + k then Stored(data[pos - offset])
    else if ByteAt(g, c, ino, pos).Stored? then ByteAt(g, c, ino, pos)
    else if k > 0 && RoundDown(offset, g.blockSize) <= pos < RoundUp(offset + k, g.blockSize) then Stored(0)
    else Hole
  }

  /** c' is c with the first k bytes of data written to file ino at offset. */
  ghost predicate Written(g: Geometry, c: Contents, c': Contents, ino: nat, offset: nat, data: Buffer, k: nat)
    requires g.Valid()
  {
    && k <= |data|
    && (forall i: nat, fb: nat :: i != ino ==>
          ((i, fb) in c' <==> (i, fb) in c) && ((i, fb) in c ==> c'[(i, fb)] == c[(i, fb)]))
    && (forall pos: nat :: ByteAt(g, c', ino, pos) == Expected(g, c, ino, offset, data, k, pos))
  }

  lemma NothingWritten(g: Geometry, c: Contents, ino: nat, offset: nat, data: Buffer)
    requires g.Valid()
    ensures Written(g, c, c, ino, offset, data, 0)
  {
  }

  /** The positions of block fb are the d positions from fb * d on. */
  lemma BlockRange(pos: nat, fb: nat, d: nat)
    requires d > 0
    ensures pos / d == fb <==> fb * d <= pos < fb * d + d
    ensures fb * d <= pos < fb * d + d ==> pos % d == pos - fb * d
  {
    assert pos == pos / d * d + pos % d;
    if fb * d <= pos < fb * d + d {
      DivMod(fb, d, pos - fb * d);
    }
  }

  /** The block with n bytes of data from index k on pasted at bo. */
  function Paste(base: Buffer, bo: nat, data: Buffer, k: nat, n: nat): (x: Buffer)
    requires bo + n <= |base| && k + n <= |data|
    ensures |x| == |base|
    ensures forall i :: 0 <= i < |x| ==> x[i] == if bo <= i < bo + n then data[k + i - bo] else base[i]
  {
    base[..bo] + data[k..k + n] + base[bo + n..]
  }

  /** The byte at a position once block fb was replaced by x. */
  lemma ByteAfterPut(g: Geometry, c: Contents, ino: nat, fb: nat, x: Buffer, pos: nat)
    requires g.Valid() && |x| == g.blockSize
    ensures var start := fb * g.blockSize;
            ByteAt(g, c[(ino, fb) := x], ino, pos) ==
            if start <= pos < start + g.blockSize then Stored(x[pos - start]) else ByteAt(g, c, ino, pos)
  {
    BlockRange(pos, fb, g.blockSize);
  }

  /** What a write finds in block fb: its bytes, or zeros where there was a hole. */
  lemma ByteOfBase(g: Geometry, c: Contents, ino: nat, fb: nat, base: Buffer, pos: nat)
    requires g.Valid() && |base| == g.blockSize
    requires base == if (ino, fb) in c then c[(ino, fb)] else Zeros(g.blockSize)
    requires fb * g.blockSize <= pos < fb * g.blockSize + g.blockSize
    ensures ByteAt(g, c, ino, pos) == (if (ino, fb) in c then Stored(base[pos - fb * g.blockSize]) else Hole)
    ensures (ino, fb) !in c ==> base[pos - fb * g.blockSize] == 0
  {
    BlockRange(pos, fb, g.blockSize);
  }

  /** The end of a range that ends inside or at the end of block fb rounds up to the block's end. */
  lemma RoundEnd(e: nat, fb: nat, d: nat)
    requires d > 0 && fb * d < e <= fb * d + d
    ensures RoundUp(e, d) == fb * d + d
  {
    if e == fb * d + d {
      assert e == (fb + 1) * d + 0;
      DivMod(fb + 1, d, 0);
    } else {
      BlockRange(e, fb, d);
    }
  }

  /** Where the blocks touched by the first k and k + n bytes begin and end. */
  lemma RoundBounds(offset: nat, k: nat, n: nat, fb: nat, d: nat)
    requires d > 0 && fb == (offset + k) / d && n > 0 && (offset + k) % d + n <= d && (k == 0 || (offset + k) % d == 0)
    ensures offset + k == fb * d + (offset + k) % d
    ensures RoundUp(offset + k + n, d) == fb * d + d && RoundDown(offset, d) <= fb * d
    ensures if k == 0 then RoundDown(offset, d) == fb * d else RoundUp(offset + k, d) == fb * d
  {
    BlockRange(offset + k, fb, d);
    RoundEnd(offset + k + n, fb, d);
    BlockRange(offset, offset / d, d);
    QuotientLe(offset, offset + k, d);
    MulLe(offset / d, fb, d);
  }

  lemma WriteRoundAt(g: Geometry, c0: Contents, c: Contents, ino: nat, offset: nat, data: Buffer, k: nat, n: nat,
                     fb: nat, base: Buffer, pos: nat)
    requires g.Valid() && k + n <= |data|
    requires ByteAt(g, c, ino, pos) == Expected(g, c0, ino, offset, data, k, pos)
    requires fb == (offset + k) / g.blockSize && n > 0
    requires var bo := (offset + k) % g.blockSize; bo + n <= g.blockSize && (k == 0 || bo == 0)
    requires forall key :: key in c ==> |c[key]| == g.blockSize
    requires base == if (ino, fb) in c then c[(ino, fb)] else Zeros(g.blockSize)
    ensures ByteAt(g, c[(ino, fb) := Paste(base, (offset + k) % g.blockSize, data, k, n)], ino, pos) ==
            Expected(g, c0, ino, offset, data, k + n, pos)
  {
    hide ByteAt, RoundUp, RoundDown, Paste, Zeros;
    var d, start, bo := g.blockSize, fb * g.blockSize, (offset + k) % g.blockSize;
    RoundBounds(offset, k, n, fb, d);
    ByteAfterPut(g, c, ino, fb, Paste(base, bo, data, k, n), pos);
    if start <= pos < start + d {
      ByteOfBase(g, c, ino, fb, base, pos);
    }
  }

  /** One round of the write loop: the block holding the next position gets its share. */
  lemma WriteRound(g: Geometry, c0: Contents, c: Contents, ino: nat, offset: nat, data: Buffer, k: nat, n: nat,
                   fb: nat, base: Buffer)
    requires g.Valid() && Written(g, c0, c, ino, offset, data, k)
    requires fb == (offset + k) / g.blockSize && n > 0 && k + n <= |data|
    requires var bo := (offset + k) % g.blockSize; bo + n <= g.blockSize && (k == 0 || bo == 0)
    requires forall key :: key in c ==> |c[key]| == g.blockSize
    requires forall key :: key in c0 ==> |c0[key]| == g.blockSize
    requires base == if (ino, fb) in c then c[(ino, fb)] else Zeros(g.blockSize)
    ensures Written(g, c0, c[(ino, fb) := Paste(base, (offset + k) % g.blockSize, data, k, n)], ino, offset, data,
            k + n)
  {
    var c' := c[(ino, fb) := Paste(base, (offset + k) % g.blockSize, data, k, n)];
    forall pos: nat
      ensures ByteAt(g, c', ino, pos) == Expected(g, c0, ino, offset, data, k + n, pos)
    {
      WriteRoundAt(g, c0, c, ino, offset, data, k, n, fb, base, pos);
    }
  }

  /** A position at the end of a block is where the next block starts. */
  lemma NextAligned(pos: nat, d: nat)
    requires d > 0
    ensures (pos + (d - pos % d)) % d == 0
  {
    assert pos == pos / d * d + pos % d;
    assert pos + (d - pos % d) == (pos / d + 1) * d + 0;
    DivMod(pos / d + 1, d, 0);
  }

  // ---- the write loop ----

  /** The state of a write in progress: k bytes are in place, and the caller's copy of the
      inode, ahead of the stored one, maps them. */
  ghost predicate Writing(g: Geometry, s: FsState, stored: Inodes, c0: Contents, ino: nat, inode: Inode, offset: nat,
                          buf: Buffer, k: nat)
  {
    && ino in stored && k <= |buf|
    && Consistent(g, s, WithInode(stored, ino, inode))
    && DiskInodes(g, s.disk) == stored
    && (forall key :: key in c0 ==> |c0[key]| == g.blockSize)
    && Written(g, c0, AllContents(g, s.disk, WithInode(stored, ino, inode)), ino, offset, buf, k)
    && (k == 0 || k == |buf| || (offset + k) % g.blockSize == 0)
  }

  // ---- the block count of a write ----

  /** How many of the n file blocks from first on are holes. */
  ghost function Holes(c: Contents, ino: nat, first: nat, n: nat): nat {
    if n == 0 then 0 else Holes(c, ino, first, n - 1) + if (ino, first + n - 1) in c then 0 else 1
  }

  /** How many file blocks the k bytes from offset on lie in. */
  function BlocksTouched(offset: nat, k: nat, d: nat): (n: nat)
    requires d > 0
  {
    if k == 0 then 0 else QuotientLe(offset, offset + k - 1, d); (offset + k - 1) / d - offset / d + 1
  }

  /** The holes among the file blocks of a write's first k bytes. */
  ghost function HolesIn(g: Geometry, c: Contents, ino: nat, offset: nat, k: nat): nat
    requires g.Valid()
  {
    Holes(c, ino, offset / g.blockSize, BlocksTouched(offset, k, g.blockSize))
  }

  /** The copy's block count is raised by a block's worth of 512-byte units for each hole filled so far. */
  ghost predicate Counted(g: Geometry, c0: Contents, ino: nat, was: Inode, inode: Inode, offset: nat, k: nat)
    requires g.Valid()
  {
    Blocks512(inode) == Raised(Blocks512(was), g.blockSize / 512, HolesIn(g, c0, ino, offset, k))
  }

  lemma CountedStart(g: Geometry, c0: Contents, ino: nat, inode: Inode, offset: nat)
    requires g.Valid()
    ensures Counted(g, c0, ino, inode, inode, offset, 0)
  {
    RaisedNone(Blocks512(inode), g.blockSize / 512);
  }

  /** One round reaches into one block more, the one at hand. */
  lemma OneMoreTouched(offset: nat, k: nat, n: nat, fb: nat, d: nat)
    requires d > 0 && fb == (offset + k) / d && n > 0 && (offset + k) % d + n <= d && (k == 0 || (offset + k) % d == 0)
    ensures offset / d + BlocksTouched(offset, k, d) == fb
    ensures BlocksTouched(offset, k + n, d) == BlocksTouched(offset, k, d) + 1
  {
    BlockRange(offset + k, fb, d);
    BlockRange(offset + k + n - 1, fb, d);
    if k > 0 {
      QuotientLe(offset, offset + k - 1, d);
      assert fb > 0 && (fb - 1) * d + d == fb * d;
      BlockRange(offset + k - 1, fb - 1, d);
    }
  }

  /** A block not reached yet is a hole exactly if it was one. */
  lemma NotReached(g: Geometry, c0: Contents, c: Contents, ino: nat, offset: nat, buf: Buffer, k: nat, fb: nat)
    requires g.Valid() && Written(g, c0, c, ino, offset, buf, k) && fb == (offset + k) / g.blockSize
    requires k == 0 || (offset + k) % g.blockSize == 0
    requires forall key :: key in c ==> |c[key]| == g.blockSize
    requires forall key :: key in c0 ==> |c0[key]| == g.blockSize
    ensures (ino, fb) in c <==> (ino, fb) in c0
  {
    var pos := fb * g.blockSize;
    BlockRange(pos, fb, g.blockSize);
    BlockRange(offset + k, fb, g.blockSize);
    assert ByteAt(g, c, ino, pos) == Expected(g, c0, ino, offset, buf, k, pos);
  }

  lemma CountedRound(g: Geometry, c0: Contents, c: Contents, ino: nat, was: Inode, inode: Inode, inode': Inode,
                     offset: nat, buf: Buffer, k: nat, n: nat, fb: nat)
    requires g.Valid() && Written(g, c0, c, ino, offset, buf, k) && fb == (offset + k) / g.blockSize && n > 0
    requires (offset + k) % g.blockSize + n <= g.blockSize && (k == 0 || (offset + k) % g.blockSize == 0)
    requires forall key :: key in c ==> |c[key]| == g.blockSize
    requires forall key :: key in c0 ==> |c0[key]| == g.blockSize
    requires Counted(g, c0, ino, was, inode, offset, k)
    requires Blocks512(inode') ==
             if (ino, fb) in c then Blocks512(inode) else (Blocks512(inode) + g.blockSize / 512) % WORD
    ensures Counted(g, c0, ino, was, inode', offset, k + n)
  {
    hide Written, Blocks512, Raised, BlocksTouched;
    OneMoreTouched(offset, k, n, fb, g.blockSize);
    NotReached(g, c0, c, ino, offset, buf, k, fb);
    RaisedMore(Blocks512(was), g.blockSize / 512, HolesIn(g, c0, ino, offset, k));
  }

  // ---- what a write does ----

  /** A hole that cannot be filled. */
  ghost predicate MapFails(g: Geometry, s: FsState, inodes: Inodes, ino: nat, fb: nat)
    requires g.Valid() && ino in inodes
  {
    FileBlock(g, s.disk, inodes, ino, fb) == 0 && !CanMap(g, inodes[ino], fb, s.sbBlocks)
  }

  /** A hole of file ino at file block fb that a write on this state could not fill. */
  ghost predicate Stuck(g: Geometry, s: FsState, ino: nat, fb: nat)
    requires g.Valid() && DiskOk(g, s.disk)
  {
    ino in DiskInodes(g, s.disk) && MapFails(g, s, DiskInodes(g, s.disk), ino, fb)
  }

  /** What a write of n bytes of buf into file ino at offset does to the file system. */
  ghost predicate FileWritten(g: Geometry, s: FsState, s': FsState, ino: nat, offset: nat, buf: Buffer, n: nat) {
    && g.Valid() && DiskOk(g, s.disk) && DiskOk(g, s'.disk)
    && var inodes, inodes' := DiskInodes(g, s.disk), DiskInodes(g, s'.disk);
       && ino in inodes && inodes'.Keys == inodes.Keys
       && (forall i :: i in inodes && i != ino ==> inodes'[i] == inodes[i])
       && Size(inodes'[ino]) == (if offset + n > Size(inodes[ino]) then offset + n else Size(inodes[ino]))
       && Mode(inodes'[ino]) == Mode(inodes[ino]) && Links(inodes'[ino]) == Links(inodes[ino])
       && Counted(g, AllContents(g, s.disk, inodes), ino, inodes[ino], inodes'[ino], offset, n)
       && SameButWrite(inodes[ino], inodes'[ino])
       && Written(g, AllContents(g, s.disk, inodes), AllContents(g, s'.disk, inodes'), ino, offset, buf, n)
       && (n < |buf| ==> Stuck(g, s', ino, (offset + n) / g.blockSize))
  }

  lemma RestampFields(was: Inode, copy: Inode, size: nat, now: Inode)
    requires SameButMap(was, copy) && size < WORD
    requires now == WithMtime(if size > Size(copy) then WithSize(copy, size) else copy, 0)
    ensures Size(now) == if size > Size(was) then size else Size(was)
    ensures Mode(now) == Mode(was) && Links(now) == Links(was) && Blocks512(now) == Blocks512(copy)
    ensures SameButWrite(was, now)
    ensures forall k: nat :: k < 15 ==> Slot(now, k) == Slot(copy, k)
  {
    Get32Put32(copy, 4, size);
  }

  /** A write starts with an exact copy of the stored inode. */
  lemma WriteStarts(g: Geometry, s: FsState, ino: nat, inode: Inode, offset: nat, buf: Buffer)
    requires FsValid(g, s) && g.HasInode(ino) && InodeUsed(g, s.disk, ino)
    requires InodeBlock(g, ino) in s.disk && inode == InodeAt(g, s.disk, ino)
    ensures ino in DiskInodes(g, s.disk) && DiskInodes(g, s.disk)[ino] == inode
    ensures Writing(g, s, DiskInodes(g, s.disk), AllContents(g, s.disk, DiskInodes(g, s.disk)), ino, inode, offset,
            buf, 0)
  {
    var stored := DiskInodes(g, s.disk);
    assert WithInode(stored, ino, inode) == stored;
    NothingWritten(g, AllContents(g, s.disk, stored), ino, offset, buf);
    ContentsSize(g, s, stored);
  }

  lemma SameButMapTrans(i: Inode, i1: Inode, i2: Inode)
    requires SameButMap(i, i1) && SameButMap(i1, i2)
    ensures SameButMap(i, i2)
  {
  }

  lemma PutTwice(c: Contents, key: (nat, nat), x: Buffer, y: Buffer)
    ensures c[key := x][key := y] == c[key := y]
  {
  }

  lemma SameButMapSelf(i: Inode)
    ensures SameButMap(i, i)
  {
  }

  /** One round of the write loop raises the block count if it fills a hole. */
  lemma PartCounted(g: Geometry, s0: FsState, stored: Inodes, c0: Contents, ino: nat, was: Inode, inode: Inode,
                    inode': Inode, offset: nat, buf: Buffer, k: nat, n: nat)
    requires k < |buf| && Writing(g, s0, stored, c0, ino, inode, offset, buf, k)
    requires Counted(g, c0, ino, was, inode, offset, k)
    requires n > 0 && (offset + k) % g.blockSize + n <= g.blockSize
    requires var found := FileBlock(g, s0.disk, WithInode(stored, ino, inode), ino, (offset + k) / g.blockSize);
             Blocks512(inode') ==
             if found != 0 then Blocks512(inode) else (Blocks512(inode) + g.blockSize / 512) % WORD
    ensures Counted(g, c0, ino, was, inode', offset, k + n)
  {
    hide CountsOk, FreeBlocksUsable, Owned, AllTargets, AllContents, FileBlock, DiskInodes, Written;
    hide BlockUsed, Counted, Blocks512;
    var fb, i0 := (offset + k) / g.blockSize, WithInode(stored, ino, inode);
    ContentsSize(g, s0, i0);
    NextAligned(offset + k, g.blockSize);
    FileBlockStored(g, s0, i0, ino, fb);
    CountedRound(g, c0, AllContents(g, s0.disk, i0), ino, was, inode, inode', offset, buf, k, n, fb);
  }

  /** How much of the data goes to the block at hand. */
  lemma PartSize(offset: nat, k: nat, len: nat, d: nat)
    requires d > 0 && k < len
    ensures var rest := d - (offset + k) % d;
            var n := if rest > len - k then len - k else rest;
            n > 0 && (offset + k) % d + n <= d && (n == len - k || (offset + (k + n)) % d == 0)
  {
    NextAligned(offset + k, d);
  }

  /** One round of the write loop stores its bytes in the block mapped in s1. */
  lemma PartStored(g: Geometry, s0: FsState, s1: FsState, stored: Inodes, c0: Contents, ino: nat, inode: Inode,
                   inode': Inode, offset: nat, buf: Buffer, k: nat, n: nat, block: nat, data: Buffer)
    requires k < |buf| && Writing(g, s0, stored, c0, ino, inode, offset, buf, k)
    requires 0 < n <= |buf| - k && (offset + k) % g.blockSize + n <= g.blockSize
    requires n == |buf| - k || (offset + (k + n)) % g.blockSize == 0
    requires var fb := (offset + k) / g.blockSize;
             var i0, i1 := WithInode(stored, ino, inode), WithInode(stored, ino, inode');
             var c := AllContents(g, s0.disk, i0);
             && Consistent(g, s1, i1) && DiskInodes(g, s1.disk) == stored
             && block != 0 && FileBlock(g, s1.disk, i1, ino, fb) == block && |data| == g.blockSize
             && data == (if (ino, fb) in c then c[(ino, fb)] else Zeros(g.blockSize))
             && AllContents(g, s1.disk, i1) == c[(ino, fb) := BlockAt(s1.disk, block)]
             && Conserved(g, s0.disk, i0, s1.disk, i1)
    ensures var s2 := s1.(disk := s1.disk[block := Paste(data, (offset + k) % g.blockSize, buf, k, n)]);
            && Writing(g, s2, stored, c0, ino, inode', offset, buf, k + n)
            && Conserved(g, s0.disk, WithInode(stored, ino, inode), s2.disk, WithInode(stored, ino, inode'))
  {
    hide CountsOk, FreeBlocksUsable, Owned, AllTargets, AllContents, FileBlock, DiskInodes, Written;
    hide Paste, BlockUsed, BlockAt, Conserved;
    var fb, i0, i1 := (offset + k) / g.blockSize, WithInode(stored, ino, inode), WithInode(stored, ino, inode');
    var c, x := AllContents(g, s0.disk, i0), Paste(data, (offset + k) % g.blockSize, buf, k, n);
    var s2 := s1.(disk := s1.disk[block := x]);
    ContentsSize(g, s0, i0);
    FileWriteKeeps(g, s1, i1, ino, fb, x);
    WriteRound(g, c0, c, ino, offset, buf, k, n, fb, data);
    PutTwice(c, (ino, fb), BlockAt(s1.disk, block), x);
    StraysFrame(g, s1.disk, i1, s2.disk, i1);
    ConservedTrans(g, s0.disk, i0, s1.disk, i1, s2.disk, i1);
  }

  /** The state once the inode copy is stored, read as a finished write. */
  lemma WriteStored(g: Geometry, s0: FsState, s: FsState, s': FsState, ino: nat, copy: Inode, now: Inode, offset: nat,
                    buf: Buffer, k: nat)
    requires g.Valid() && DiskOk(g, s0.disk) && DiskOk(g, s.disk) && DiskOk(g, s'.disk) && ino in DiskInodes(g, s0.disk)
    requires Writing(g, s, DiskInodes(g, s0.disk), AllContents(g, s0.disk, DiskInodes(g, s0.disk)), ino, copy, offset,
             buf, k)
    requires var stored := DiskInodes(g, s0.disk);
             && DiskInodes(g, s'.disk) == WithInode(stored, ino, now)
             && SameFiles(g, s.disk, WithInode(stored, ino, copy), s'.disk, WithInode(stored, ino, now))
             && Size(now) == (if offset + k > Size(stored[ino]) then offset + k else Size(stored[ino]))
             && Mode(now) == Mode(stored[ino]) && Links(now) == Links(stored[ino])
             && Counted(g, AllContents(g, s0.disk, stored), ino, stored[ino], now, offset, k)
             && SameButWrite(stored[ino], now)
             && (forall j: nat :: j <= DIND ==> Slot(now, j) == Slot(copy, j))
             && s'.sbBlocks == s.sbBlocks
             && (k < |buf| ==> MapFails(g, s, WithInode(stored, ino, copy), ino, (offset + k) / g.blockSize))
    ensures FileWritten(g, s0, s', ino, offset, buf, k)
  {
    hide DiskInodes, AllContents, FileBlock, Written, Slot, Size, Mode, Links, Consistent, DiskOk;
    hide Counted, SameButWrite;
  }

  /** Storing the inode copy with its new size ends a write. */
  lemma WriteFinishes(g: Geometry, s0: FsState, s: FsState, ino: nat, copy: Inode, now: Inode, offset: nat,
                      buf: Buffer, k: nat)
    requires FsValid(g, s0) && ino in DiskInodes(g, s0.disk) && offset + |buf| < WORD && k <= |buf|
    requires Writing(g, s, DiskInodes(g, s0.disk), AllContents(g, s0.disk, DiskInodes(g, s0.disk)), ino, copy, offset,
             buf, k)
    requires SameButMap(DiskInodes(g, s0.disk)[ino], copy)
    requires var stored := DiskInodes(g, s0.disk);
             Counted(g, AllContents(g, s0.disk, stored), ino, stored[ino], copy, offset, k)
    requires now == WithMtime(if offset + k > Size(copy) then WithSize(copy, offset + k) else copy, 0)
    requires k < |buf| ==> MapFails(g, s, WithInode(DiskInodes(g, s0.disk), ino, copy), ino, (offset + k) / g.blockSize)
    ensures g.HasInode(ino) && FsValid(g, WriteInode(g, s, ino, now))
    ensures FileWritten(g, s0, WriteInode(g, s, ino, now), ino, offset, buf, k)
    ensures var stored, s' := DiskInodes(g, s0.disk), WriteInode(g, s, ino, now);
            && AllTargets(g, s'.disk, DiskInodes(g, s'.disk)) == AllTargets(g, s.disk, WithInode(stored, ino, copy))
            && BlockMaps(g, s'.disk) == BlockMaps(g, s.disk)
  {
    hide CountsOk, FreeBlocksUsable, Owned, AllTargets, AllContents, FileBlock, Written;
    hide BlockUsed, WithMtime, WithSize, Slot;
    hide FileWritten, SameFiles, MapFails, SameButWrite, HolesIn, Raised, Blocks512;
    var stored := DiskInodes(g, s0.disk);
    RestampFields(stored[ino], copy, offset + k, now);
    StoreFinishes(g, s, stored, ino, copy, now);
    WriteStored(g, s0, s, WriteInode(g, s, ino, now), ino, copy, now, offset, buf, k);
  }

  // ---- reading ----

  /** How many bytes a read may deliver: no further than the end of the file. */
  function Wanted(size: nat, offset: nat, len: nat): nat {
    if offset >= size then 0 else if offset + len > size then size - offset else len
  }

  /** out is the stored bytes from offset on, up to want of them or the first hole. */
  ghost predicate Delivered(g: Geometry, c: Contents, ino: nat, offset: nat, want: nat, out: Buffer)
    requires g.Valid()
  {
    && |out| <= want
    && (forall i: nat :: i < |out| ==> ByteAt(g, c, ino, offset + i) == Stored(out[i]))
    && (|out| < want ==> ByteAt(g, c, ino, offset + |out|) == Hole)
  }

  /** out is what reading len bytes of file ino at offset delivers: the stored bytes up to
      the end of the range, the end of the file or the first hole. */
  ghost predicate IsRead(g: Geometry, s: FsState, ino: nat, offset: nat, len: nat, out: Buffer)
    requires g.Valid() && DiskOk(g, s.disk) && ino in DiskInodes(g, s.disk)
  {
    var inodes := DiskInodes(g, s.disk);
    Delivered(g, AllContents(g, s.disk, inodes), ino, offset, Wanted(Size(inodes[ino]), offset, len), out)
  }

  lemma WrittenDelivered(g: Geometry, c: Contents, c': Contents, ino: nat, offset: nat, buf: Buffer, n: nat,
                         out: Buffer)
    requires g.Valid() && Written(g, c, c', ino, offset, buf, n) && Delivered(g, c', ino, offset, n, out)
    ensures out == buf[..n]
  {
    forall i: nat | i < n
      ensures ByteAt(g, c', ino, offset + i) == Stored(buf[i])
    {
      assert Expected(g, c, ino, offset, buf, n, offset + i) == Stored(buf[i]);
    }
  }

  lemma OthersDelivered(g: Geometry, c: Contents, c': Contents, ino: nat, offset: nat, want: nat, out: Buffer)
    requires g.Valid()
    requires forall fb: nat ::
               ((ino, fb) in c' <==> (ino, fb) in c) && ((ino, fb) in c ==> c'[(ino, fb)] == c[(ino, fb)])
    ensures Delivered(g, c', ino, offset, want, out) <==> Delivered(g, c, ino, offset, want, out)
  {
    assert forall pos: nat :: ByteAt(g, c', ino, pos) == ByteAt(g, c, ino, pos);
  }

  /** After a write of n bytes, reading n bytes at the same offset gives back exactly the
      first n bytes of the data. */
  lemma ReadAfterWrite(g: Geometry, s: FsState, s': FsState, ino: nat, offset: nat, buf: Buffer, n: nat, out: Buffer)
    requires FileWritten(g, s, s', ino, offset, buf, n)
    requires IsRead(g, s', ino, offset, n, out)
    ensures out == buf[..n]
  {
    hide AllContents, DiskInodes, Written, Delivered, DiskOk, InodeUsed;
    WrittenDelivered(g, AllContents(g, s.disk, DiskInodes(g, s.disk)), AllContents(g, s'.disk, DiskInodes(g, s'.disk)),
                     ino, offset, buf, n, out);
  }

  /** A write to one file is invisible to reads of every other file. */
  lemma OtherFilesReadTheSame(g: Geometry, s: FsState, s': FsState, ino: nat, offset: nat, buf: Buffer, n: nat,
                              other: nat, at: nat, len: nat, out: Buffer)
    requires FileWritten(g, s, s', ino, offset, buf, n)
    requires other in DiskInodes(g, s.disk) && other != ino
    ensures IsRead(g, s', other, at, len, out) <==> IsRead(g, s, other, at, len, out)
  {
    hide AllContents, DiskInodes, Delivered, DiskOk, InodeUsed, Expected, ByteAt, Size;
    OthersDelivered(g, AllContents(g, s.disk, DiskInodes(g, s.disk)), AllContents(g, s'.disk, DiskInodes(g, s'.disk)),
                    other, at, Wanted(Size(DiskInodes(g, s.disk)[other]), at, len), out);
  }

  /** The loop state of a read: out is right so far and the next position starts a block,
      unless the loop is over. */
  ghost predicate Reading(g: Geometry, c: Contents, ino: nat, offset: nat, want: nat, out: Buffer)
    requires g.Valid()
  {
    && |out| <= want
    && (forall i: nat :: i < |out| ==> ByteAt(g, c, ino, offset + i) == Stored(out[i]))
    && (|out| == 0 || |out| == want || (offset + |out|) % g.blockSize == 0)
  }

  /** A byte of block fb, counted from a position in it. */
  lemma ReadByte(g: Geometry, c: Contents, ino: nat, pos: nat, fb: nat, k: nat)
    requires g.Valid() && fb == pos / g.blockSize && (ino, fb) in c && |c[(ino, fb)]| == g.blockSize
    requires pos % g.blockSize + k < g.blockSize
    ensures ByteAt(g, c, ino, pos + k) == Stored(c[(ino, fb)][pos % g.blockSize + k])
  {
    BlockRange(pos, fb, g.blockSize);
    BlockRange(pos + k, fb, g.blockSize);
  }

  lemma ReadRound(g: Geometry, c: Contents, ino: nat, offset: nat, want: nat, out: Buffer, fb: nat, n: nat)
    requires g.Valid() && Reading(g, c, ino, offset, want, out) && |out| < want
    requires fb == (offset + |out|) / g.blockSize && (ino, fb) in c && |c[(ino, fb)]| == g.blockSize
    requires var bo := (offset + |out|) % g.blockSize;
             n == if g.blockSize - bo > want - |out| then want - |out| else g.blockSize - bo
    ensures var bo := (offset + |out|) % g.blockSize;
            Reading(g, c, ino, offset, want, out + c[(ino, fb)][bo..bo + n])
  {
    hide ByteAt;
    var bo := (offset + |out|) % g.blockSize;
    var out' := out + c[(ino, fb)][bo..bo + n];
    NextAligned(offset + |out|, g.blockSize);
    forall i: nat | i < |out'|
      ensures ByteAt(g, c, ino, offset + i) == Stored(out'[i])
    {
      if i >= |out| {
        ReadByte(g, c, ino, offset + |out|, fb, i - |out|);
      }
    }
  }
}
