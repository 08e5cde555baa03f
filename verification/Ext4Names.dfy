/** Directories as files: what adding a name does to a directory and to nothing else. */
module Ext4Names {
  import opened Bytes
  import opened Arith
  import opened Ext4Layout
  import opened Ext4Ownership
  import opened Ext4Alloc
  import opened Ext4State
  import opened Ext4Steps
  import opened Ext4Files
  import opened Ext4Strays
  import opened Ext4Dir

  /** Names are cut at 255 bytes. */
  function CutName(name: Buffer): (r: Buffer)
    ensures |r| <= NAME_MAX
  {
    if |name| <= NAME_MAX then name else name[..NAME_MAX]
  }

  function BlockCount(g: Geometry, size: nat): nat
    requires g.Valid()
  {
    (size + g.blockSize - 1) / g.blockSize
  }

  lemma OneBlockMore(g: Geometry, size: nat)
    requires g.Valid()
    ensures BlockCount(g, size + g.blockSize) == BlockCount(g, size) + 1
    ensures size <= BlockCount(g, size) * g.blockSize
  {
    var d := g.blockSize;
    var q, r := (size + d - 1) / d, (size + d - 1) % d;
    assert size + d - 1 == q * d + r;
    assert size + d + d - 1 == (q + 1) * d + r;
    DivMod(q + 1, d, r);
  }

  // ---- room in a block ----

  predicate Fits(b: Buffer, off: nat, need: nat) {
    RecordAt(b, off) && NeededLen(NameLen(b, off)) + need <= RecLen(b, off)
  }

  /** Some record from off on has room for need more bytes. */
  predicate Room(b: Buffer, off: nat, need: nat)
    requires Tiled(b, off)
    decreases |b| - off
  {
    off != |b| && (Fits(b, off, need) || Room(b, off + RecLen(b, off), need))
  }

  ghost predicate DirRoom(c: Contents, ino: nat, n: nat, need: nat)
    requires DirOk(c, ino, n)
  {
    exists fb: nat :: fb < n && (ino, fb) in c && Room(c[(ino, fb)], 0, need)
  }

  // ---- effects ----

  ghost predicate IsDir(g: Geometry, s: FsState, ino: nat) {
    && g.Valid() && DiskOk(g, s.disk) && ino in DiskInodes(g, s.disk)
    && DirOk(AllContents(g, s.disk, DiskInodes(g, s.disk)), ino, BlockCount(g, Size(DiskInodes(g, s.disk)[ino])))
  }

  ghost function Names(g: Geometry, s: FsState, ino: nat): seq<DirEntry>
    requires IsDir(g, s, ino)
  {
    DirEntries(AllContents(g, s.disk, DiskInodes(g, s.disk)), ino, BlockCount(g, Size(DiskInodes(g, s.disk)[ino])))
  }

  ghost predicate HasRoom(g: Geometry, s: FsState, ino: nat, need: nat)
    requires IsDir(g, s, ino)
  {
    DirRoom(AllContents(g, s.disk, DiskInodes(g, s.disk)), ino, BlockCount(g, Size(DiskInodes(g, s.disk)[ino])), need)
  }

  /** An entry can be added: some record has room, or a block can be mapped after the last one. */
  ghost predicate CanAddEntry(g: Geometry, s: FsState, dir: nat, need: nat)
    requires IsDir(g, s, dir)
  {
    var i := DiskInodes(g, s.disk)[dir];
    HasRoom(g, s, dir, need) || CanMap(g, i, BlockCount(g, Size(i)), s.sbBlocks)
  }

  /** How many free blocks adding an entry takes. */
  ghost function EntryCost(g: Geometry, s: FsState, dir: nat, need: nat): nat
    requires IsDir(g, s, dir)
  {
    var i := DiskInodes(g, s.disk)[dir];
    if HasRoom(g, s, dir, need) then 0 else MapCost(i, BlockCount(g, Size(i)))
  }

  /** The block mapped just past the end of a directory, if there is one: growing the directory loses it. */
  ghost function PastEnd(g: Geometry, s: FsState, dir: nat): nat
    requires IsDir(g, s, dir)
  {
    var inodes := DiskInodes(g, s.disk);
    FileBlock(g, s.disk, inodes, dir, BlockCount(g, Size(inodes[dir])))
  }

  /** The blocks that adding an entry takes: as many as it costs, all of them named afterwards. Where the
      directory grows over a mapped block, that block stays used without a name. */
  ghost predicate EntryBlocks(g: Geometry, s: FsState, s': FsState, dir: nat, need: nat)
    requires IsDir(g, s, dir)
  {
    && Grows(g, s.disk, s'.disk)
    && s'.sbBlocks == s.sbBlocks - EntryCost(g, s, dir, need)
    && Strays(g, s'.disk, DiskInodes(g, s'.disk)) ==
       Strays(g, s.disk, DiskInodes(g, s.disk)) + if HasRoom(g, s, dir, need) then iset{} else Block(PastEnd(g, s, dir))
  }

  /** Every file but one is as before, inode and contents. */
  ghost predicate OthersSame(g: Geometry, s: FsState, s': FsState, ino: nat) {
    && g.Valid() && DiskOk(g, s.disk) && DiskOk(g, s'.disk)
    && var inodes, inodes' := DiskInodes(g, s.disk), DiskInodes(g, s'.disk);
       && inodes'.Keys == inodes.Keys
       && (forall i :: i in inodes && i != ino ==> inodes'[i] == inodes[i])
       && var c, c' := AllContents(g, s.disk, inodes), AllContents(g, s'.disk, inodes');
          forall i: nat, fb: nat :: i != ino ==>
            ((i, fb) in c' <==> (i, fb) in c) && ((i, fb) in c ==> c'[(i, fb)] == c[(i, fb)])
  }

  /** The inode of a directory grown by n blocks: size and 512-byte block count say so, and but for the block
      pointers no other byte changed. */
  ghost predicate Extended(g: Geometry, was: Inode, now: Inode, n: nat) {
    && SameButGrowth(was, now)
    && Size(now) == Size(was) + n * g.blockSize
    && Blocks512(now) == Raised(Blocks512(was), g.blockSize / 512, n)
  }

  /** What AddDirEntry makes of the inode when it adds a block. */
  function GrownInode(g: Geometry, i: Inode): Inode {
    var j := WithSize(i, Size(i) + g.blockSize);
    WithBlocks512(j, Blocks512(j) + g.blockSize / 512)
  }

  lemma ExtendedOnce(g: Geometry, was: Inode, now: Inode)
    requires Extended(g, was, now, 1)
    ensures Size(now) == Size(was) + g.blockSize
  {
  }

  lemma ExtendedNone(g: Geometry, i: Inode)
    ensures Extended(g, i, i, 0)
  {
    RaisedNone(Blocks512(i), g.blockSize / 512);
  }

  lemma RaisedZero(count: nat, unit: nat, n: nat)
    ensures Raised(Raised(count, unit, n), unit, 0) == Raised(count, unit, n)
  {
  }

  lemma RaisedOnce(count: nat, unit: nat, n: nat)
    ensures Raised(Raised(count, unit, n), unit, 1) == Raised(count, unit, n + 1)
  {
    RaisedMore(count, unit, n);
  }

  lemma ExtendedTrans(g: Geometry, i: Inode, i1: Inode, i2: Inode, n: nat, m: nat)
    requires Extended(g, i, i1, n) && Extended(g, i1, i2, m) && m <= 1
    ensures Extended(g, i, i2, n + m)
  {
    hide Size, Blocks512, Raised;
    if m == 0 {
      RaisedZero(Blocks512(i), g.blockSize / 512, n);
      assert 0 * g.blockSize == 0;
    } else {
      RaisedOnce(Blocks512(i), g.blockSize / 512, n);
    }
  }

  /** Directory ino gained entry e, in an old block if one had room, else in a new block. */
  ghost predicate EntryAdded(g: Geometry, s: FsState, s': FsState, ino: nat, e: DirEntry) {
    && OthersSame(g, s, s', ino) && IsDir(g, s, ino) && IsDir(g, s', ino)
    && Inserted(Names(g, s, ino), Names(g, s', ino), e)
    && var was, now := DiskInodes(g, s.disk)[ino], DiskInodes(g, s'.disk)[ino];
       && Mode(now) == Mode(was) && Links(now) == Links(was)
       && Extended(g, was, now, if HasRoom(g, s, ino, NeededLen(|e.name|)) then 0 else 1)
  }

  /** Bitmaps, counters, inodes and file contents are all as before. */
  ghost predicate Untouched(g: Geometry, s: FsState, s': FsState) {
    && g.Valid() && DiskOk(g, s.disk) && DiskOk(g, s'.disk)
    && s' == s.(disk := s'.disk)
    && BlockMaps(g, s'.disk) == BlockMaps(g, s.disk) && InodeMaps(g, s'.disk) == InodeMaps(g, s.disk)
    && DiskInodes(g, s'.disk) == DiskInodes(g, s.disk)
    && AllContents(g, s'.disk, DiskInodes(g, s'.disk)) == AllContents(g, s.disk, DiskInodes(g, s.disk))
    && Strays(g, s'.disk, DiskInodes(g, s'.disk)) == Strays(g, s.disk, DiskInodes(g, s.disk))
  }

  // ---- adding an entry ----

  /** An entry put where there is room takes no block. */
  lemma NoBlockTaken(g: Geometry, s: FsState, s': FsState, dir: nat, need: nat)
    requires IsDir(g, s, dir) && HasRoom(g, s, dir, need) && DiskOk(g, s'.disk) && s'.sbBlocks == s.sbBlocks
    requires BlockMaps(g, s'.disk) == BlockMaps(g, s.disk) && DiskInodes(g, s'.disk) == DiskInodes(g, s.disk)
    requires AllTargets(g, s'.disk, DiskInodes(g, s.disk)) == AllTargets(g, s.disk, DiskInodes(g, s.disk))
    ensures EntryBlocks(g, s, s', dir, need)
  {
    hide AllTargets, DiskInodes, Strays, Grows, HasRoom, DirOk, AllContents;
    StraysFrame(g, s.disk, DiskInodes(g, s.disk), s'.disk, DiskInodes(g, s.disk));
  }

  lemma {:induction false} FitsRoom(b: Buffer, start: nat, off: nat, need: nat)
    requires Tiled(b, start) && Boundary(b, start, off) && off < |b| && Fits(b, off, need)
    ensures Room(b, start, need)
    decreases |b| - start
  {
    if start != off {
      FitsRoom(b, start + RecLen(b, start), off, need);
    }
  }

  /** Writing a split record into a block of the directory adds the entry. */
  lemma SplitAdds(g: Geometry, s: FsState, ino: nat, fb: nat, off: nat, e: DirEntry)
    requires FsValid(g, s) && IsDir(g, s, ino) && |e.name| <= NAME_MAX && e.ino < WORD
    requires fb < BlockCount(g, Size(DiskInodes(g, s.disk)[ino]))
    requires var b := FileBlock(g, s.disk, DiskInodes(g, s.disk), ino, fb);
             && b != 0 && b in s.disk && Tiled(s.disk[b], 0) && off < |s.disk[b]|
             && Boundary(s.disk[b], 0, off) && Fits(s.disk[b], off, NeededLen(|e.name|))
    ensures var b := FileBlock(g, s.disk, DiskInodes(g, s.disk), ino, fb);
            var s' := s.(disk := s.disk[b := SplitRecord(s.disk[b], off, e)]);
            FsValid(g, s') && EntryAdded(g, s, s', ino, e) && EntryBlocks(g, s, s', ino, NeededLen(|e.name|))
  {
    hide CountsOk, FreeBlocksUsable, Owned, AllTargets, AllContents, FileBlock, SplitRecord, Get16, Get32, Align4, Room;
    hide DirOk, DirEntries, Entries, Inserted, Boundary, IsSplit, EntryBlocks, Extended;
    var inodes := DiskInodes(g, s.disk);
    var b := FileBlock(g, s.disk, inodes, ino, fb);
    var x := SplitRecord(s.disk[b], off, e);
    FileBlockStored(g, s, inodes, ino, fb);
    SplitRecordIsSplit(s.disk[b], off, e);
    SplitTiled(s.disk[b], x, 0, off, e);
    FitsRoom(s.disk[b], 0, off, NeededLen(|e.name|));
    FileWriteKeeps(g, s, inodes, ino, fb, x);
    DirInsert(AllContents(g, s.disk, inodes), ino, BlockCount(g, Size(inodes[ino])), fb, x, e);
    NoBlockTaken(g, s, s.(disk := s.disk[b := x]), ino, NeededLen(|e.name|));
    ExtendedNone(g, inodes[ino]);
  }

  lemma SameContents(g: Geometry, disk: Disk, inodes: Inodes, disk': Disk, inodes': Inodes)
    requires g.Valid() && SameFiles(g, disk, inodes, disk', inodes')
    ensures AllContents(g, disk', inodes') == AllContents(g, disk, inodes)
  {
    hide AllContents;
  }

  /** The stored state, read as an added entry. */
  lemma GrownIsAdded(g: Geometry, s: FsState, s': FsState, ino: nat, i': Inode, e: DirEntry,
                     stored: Inodes, c: Contents, n: nat, x: Buffer)
    requires IsDir(g, s, ino) && DiskOk(g, s'.disk) && !HasRoom(g, s, ino, NeededLen(|e.name|))
    requires stored == DiskInodes(g, s.disk) && c == AllContents(g, s.disk, stored)
    requires DiskInodes(g, s'.disk) == WithInode(stored, ino, i')
    requires AllContents(g, s'.disk, DiskInodes(g, s'.disk)) == c[(ino, n) := x]
    requires n == BlockCount(g, Size(stored[ino])) && BlockCount(g, Size(i')) == n + 1
    requires Extended(g, stored[ino], i', 1) && Mode(i') == Mode(stored[ino]) && Links(i') == Links(stored[ino])
    requires DirOk(c, ino, n) && DirOk(c[(ino, n) := x], ino, n + 1)
    requires Inserted(DirEntries(c, ino, n), DirEntries(c[(ino, n) := x], ino, n + 1), e)
    ensures EntryAdded(g, s, s', ino, e)
  {
    hide DiskInodes, AllContents, FileBlock, DirOk, DirEntries, Inserted, HasRoom, Size;
    hide Mode, Links, BlockCount, DiskOk, Extended;
  }

  lemma SizeLeavesBlocks(i: Inode, size: nat)
    ensures Blocks512(WithSize(i, size)) == Blocks512(i)
  {
    Get32Frame(i, 4, size, 28);
  }

  lemma SizeAndBlocks(i: Inode, size: nat, block: nat, i': Inode)
    requires size < WORD && i' == WithBlocks512(WithSize(i, size), block)
    ensures Size(i') == size && Blocks512(i') == block % WORD
    ensures forall k :: 0 <= k < INODE_BYTES && !(4 <= k < 8) && !(28 <= k < 32) ==> i'[k] == i[k]
  {
    hide Put32;
    Get32Put32(i, 4, size);
    Get32Put32(WithSize(i, size), 28, block);
  }

  lemma MulBound(a: nat, b: nat)
    requires a <= 2000 && b <= 4096
    ensures a * b <= 2000 * 4096
  {
    MulLe(a, 2000, b);
  }

  lemma GrownDirectory(g: Geometry, was: Inode, i: Inode, i': Inode)
    requires g.Valid() && SameButSlots(was, i) && BlockCount(g, Size(was)) < N_DIRECT + g.Pointers()
    requires i' == GrownInode(g, i)
    ensures Size(i') == Size(was) + g.blockSize && Mode(i') == Mode(was) && Links(i') == Links(was)
    ensures Extended(g, was, i', 1)
    ensures forall k: nat :: k <= DIND ==> Slot(i', k) == Slot(i, k)
  {
    hide WithSize, WithBlocks512, Put32;
    OneBlockMore(g, Size(was));
    MulLe(BlockCount(g, Size(was)), N_DIRECT + 1024, g.blockSize);
    MulBound(N_DIRECT + 1024, g.blockSize);
    SizeLeavesBlocks(i, Size(i) + g.blockSize);
    SizeAndBlocks(i, Size(i) + g.blockSize, Blocks512(i) + g.blockSize / 512, i');
  }

  lemma BlockSizes(g: Geometry)
    requires g.Valid()
    ensures 1024 <= g.blockSize <= 4096 && g.blockSize % 4 == 0
  {
  }

  /** The state after the new block is linked and the inode copy stored. */
  lemma NewBlockAdds(g: Geometry, s: FsState, s1: FsState, ino: nat, i: Inode, i': Inode, e: DirEntry)
    requires FsValid(g, s) && IsDir(g, s, ino) && |e.name| <= NAME_MAX && e.ino < WORD
    requires !HasRoom(g, s, ino, NeededLen(|e.name|))
    requires var inodes := DiskInodes(g, s.disk);
             var n := BlockCount(g, Size(inodes[ino]));
             && Consistent(g, s1, WithInode(inodes, ino, i)) && DiskInodes(g, s1.disk) == inodes
             && n < N_DIRECT + g.Pointers() && SameButSlots(inodes[ino], i)
             && AllContents(g, s1.disk, WithInode(inodes, ino, i)) ==
                AllContents(g, s.disk, inodes)[(ino, n) := PutRecord(Zeros(g.blockSize), 0, e, g.blockSize)]
    requires i' == GrownInode(g, i)
    ensures g.HasInode(ino)
    ensures FsValid(g, WriteInode(g, s1, ino, i')) && EntryAdded(g, s, WriteInode(g, s1, ino, i'), ino, e)
    ensures var inodes, s' := DiskInodes(g, s.disk), WriteInode(g, s1, ino, i');
            Conserved(g, s1.disk, WithInode(inodes, ino, i), s'.disk, DiskInodes(g, s'.disk))
  {
    hide CountsOk, FreeBlocksUsable, Owned, AllTargets, AllContents, FileBlock;
    hide PutRecord, PasteInode, WithSize, WithBlocks512;
    hide DirOk, DirEntries, Entries, Inserted, Tiled, HasRoom, SameButSlots, InodeUsed, Slot;
    hide Size, BlockCount, Mode, Links, Zeros;
    hide RecordAt, NeededLen, WriteInode, EntryAdded, SameFiles, Strays, Grows, Extended, GrownInode;
    var inodes := DiskInodes(g, s.disk);
    var n := BlockCount(g, Size(inodes[ino]));
    OneBlockMore(g, Size(inodes[ino]));
    GrownDirectory(g, inodes[ino], i, i');
    StoreFinishes(g, s1, inodes, ino, i, i');
    var s' := WriteInode(g, s1, ino, i');
    StraysFrame(g, s1.disk, WithInode(inodes, ino, i), s'.disk, WithInode(inodes, ino, i'));
    SameContents(g, s1.disk, WithInode(inodes, ino, i), s'.disk, WithInode(inodes, ino, i'));
    BlockSizes(g);
    FreshBlock(g.blockSize, e);
    DirAppend(AllContents(g, s.disk, inodes), ino, n, PutRecord(Zeros(g.blockSize), 0, e, g.blockSize), e);
    GrownIsAdded(g, s, s', ino, i', e, inodes, AllContents(g, s.disk, inodes), n,
        PutRecord(Zeros(g.blockSize), 0, e, g.blockSize));
  }

  /** The blocks taken when a directory grew by a block linked past its end. */
  lemma GrownBlocks(g: Geometry, s: FsState, d: Disk, s1: FsState, s2: FsState, dir: nat, i: Inode, need: nat)
    requires IsDir(g, s, dir) && DiskOk(g, s1.disk) && DiskOk(g, s2.disk) && !HasRoom(g, s, dir, need)
    requires Conserved(g, s1.disk, WithInode(DiskInodes(g, s.disk), dir, i), s2.disk, DiskInodes(g, s2.disk))
    requires Grows(g, s.disk, d) && Grows(g, d, s1.disk) && s2.sbBlocks == s1.sbBlocks
    requires var i0 := DiskInodes(g, s.disk)[dir]; s1.sbBlocks == s.sbBlocks - MapCost(i0, BlockCount(g, Size(i0)))
    requires Strays(g, s1.disk, WithInode(DiskInodes(g, s.disk), dir, i)) ==
             Strays(g, s.disk, DiskInodes(g, s.disk)) + Block(PastEnd(g, s, dir))
    ensures EntryBlocks(g, s, s2, dir, need)
  {
    hide Strays, Grows, DiskInodes, IsDir, HasRoom, PastEnd, BlockCount, Size, MapCost, DirOk, AllContents;
    GrowsTrans(g, s.disk, d, s1.disk);
    GrowsTrans(g, s.disk, s1.disk, s2.disk);
  }

  lemma CanMapNeeds(g: Geometry, i: Inode, fb: nat, free: nat)
    ensures CanMap(g, i, fb, free) ==> free > 0
  {
  }

  lemma SameInodes(inodes: Inodes, ino: nat, i: Inode)
    requires ino in inodes && inodes[ino] == i
    ensures WithInode(inodes, ino, i) == inodes
  {
  }

  lemma UntouchedSelf(g: Geometry, s: FsState)
    requires FsValid(g, s)
    ensures Untouched(g, s, s)
  {
  }

  /** Writing to a block that was taken and then giving it back leaves everything but
      the free block's bytes as it was. */
  lemma AbandonBlock(g: Geometry, s: FsState, b: nat, x: Buffer)
    requires FsValid(g, s) && |x| == g.blockSize && b in s.disk && b != 0
    requires Unnamed(AllTargets(g, s.disk, DiskInodes(g, s.disk)), b)
    requires b >= g.firstDataBlock && g.BlockGroup(b) < |g.groups|
    requires !BitAt(BlockMaps(g, s.disk)[g.BlockGroup(b)], g.BlockIndex(b))
    ensures var s1 := TakeBlock(g, s, g.BlockGroup(b), g.BlockIndex(b));
            && DiskOk(g, s1.disk[b := x])
            && var s2 := GiveBlock(g, s1.(disk := s1.disk[b := x]), g.BlockGroup(b), g.BlockIndex(b));
               FsValid(g, s2) && Untouched(g, s, s2)
  {
    hide CountsOk, FreeBlocksUsable, Owned, AllTargets, AllContents, FileBlock, InodeUsed;
    var inodes := DiskInodes(g, s.disk);
    NotMetadata(g, s.disk, inodes, b);
    GiveUndoesTake(g, s, g.BlockGroup(b), g.BlockIndex(b), b, x);
    ScratchWriteKeeps(g, s, inodes, b, x);
    StraysFrame(g, s.disk, inodes, s.disk[b := x], inodes);
    InodeFrame(g, s.disk, b, x);
  }
}
