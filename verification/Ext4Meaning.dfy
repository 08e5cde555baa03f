/** What the driver's results mean in numbers: modes, names, record and inode bytes, and the block map. */
module Ext4Meaning {
  import opened Bytes
  import opened Arith
  import opened Ext4Layout
  import opened Ext4Ownership
  import opened Ext4Alloc
  import opened Ext4State
  import opened Ext4Steps
  import opened Ext4Files
  import opened Ext4Content
  import opened Ext4Dir
  import opened Ext4Names
  import opened Ext4Create

  // ---- modes ----

  /** A mode is a directory's exactly when its bit 0x4000 is set. */
  lemma DirectoryBit(hi: nat, b: nat, lo: nat)
    requires b < 2 && lo < 0x4000
    ensures IsDirMode(hi * 0x8000 + b * 0x4000 + lo) <==> b == 1
  {
    var mode := hi * 0x8000 + b * 0x4000 + lo;
    assert mode == (2 * hi + b) * 0x4000 + lo;
    DivMod(2 * hi + b, 0x4000, lo);
    assert mode / 0x4000 == 2 * hi + b;
  }

  /** Of the types a mode can have, 0x4000 is a directory; 0x8000, a regular file, 0xA000, a symbolic link, and no
      type at all are not. */
  lemma DirectoryTypes(p: nat)
    requires p < 0x1000
    ensures IsDirMode(0x4000 + p) && !IsDirMode(0x8000 + p) && !IsDirMode(0xA000 + p) && !IsDirMode(p)
  {
    DirectoryBit(0, 1, p);
    DirectoryBit(1, 0, p);
    DirectoryBit(1, 0, 0x2000 + p);
    DirectoryBit(0, 0, p);
  }

  /** The entry a creation makes. */
  function EntryOf(ino: nat, name: Buffer, mode: nat): DirEntry {
    DirEntry(ino, CutName(name), if IsDirMode(mode) then 2 else 1)
  }

  /** A creation with the mode of a regular file makes an entry of type 1 and an inode that is zero but for its mode
      and a link count of 1, and leaves the parent's link count alone. */
  lemma RegularFileMade(g: Geometry, s: FsState, s': FsState, parent: nat, ino: nat, name: Buffer, p: nat)
    requires p < 0x1000 && Created(g, s, s', parent, ino, EntryOf(ino, name, 0x8000 + p), 0x8000 + p)
    ensures IsDir(g, s, parent) && IsDir(g, s', parent)
    ensures Inserted(Names(g, s, parent), Names(g, s', parent), DirEntry(ino, CutName(name), 1))
    ensures var before, after := DiskInodes(g, s.disk), DiskInodes(g, s'.disk);
            var made, was, now := after[ino], before[parent], after[parent];
            && Mode(made) == 0x8000 + p && Links(made) == 1 && Links(now) == Links(was)
            && forall k :: 2 <= k < INODE_BYTES && !(26 <= k < 28) ==> made[k] == 0
  {
    hide SameOutside, DiskInodes, AllContents, DirOk, DiskOk, Names, HasRoom, Mode, Links, Size, Slot, Inserted;
    hide FreshInode, Extended, IsDirMode;
    DirectoryTypes(p);
    FreshInodeFields(0x8000 + p);
  }

  lemma RaisedFromZero(unit: nat)
    ensures unit < WORD ==> Raised(0, unit, 0) == 0 && Raised(0, unit, 1) == unit
  {
  }

  /** A creation with the mode of a directory makes an entry of type 2, counts one more link to the parent, and, with
      a block to spare, lists "." for itself and ".." for the parent, both of type 2, in a first block of its own;
      with none it lists nothing. */
  lemma DirectoryMade(g: Geometry, s: FsState, s': FsState, parent: nat, ino: nat, name: Buffer, p: nat)
    requires p < 0x1000 && Created(g, s, s', parent, ino, EntryOf(ino, name, 0x4000 + p), 0x4000 + p)
    ensures IsDir(g, s, parent) && IsDir(g, s', parent) && IsDir(g, s', ino)
    ensures Inserted(Names(g, s, parent), Names(g, s', parent), DirEntry(ino, CutName(name), 2))
    ensures var before, after := DiskInodes(g, s.disk), DiskInodes(g, s'.disk);
            var made, was, now := after[ino], before[parent], after[parent];
            var room := RoomForDots(g, s, parent, NeededLen(|CutName(name)|));
            && Mode(made) == 0x4000 + p && Links(made) == 1 && Links(now) == (Links(was) + 1) % 0x10000
            && Size(made) == (if room then g.blockSize else 0)
            && Blocks512(made) == (if room then g.blockSize / 512 else 0)
            && (if room then
                  multiset(Names(g, s', ino)) == multiset{DirEntry(ino, [46], 2), DirEntry(parent, [46, 46], 2)}
                else Names(g, s', ino) == [])
  {
    hide SameOutside, DiskInodes, AllContents, DirOk, DiskOk, Names, HasRoom, Mode, Links, Size, Slot, Inserted;
    hide FreshInode, IsDirMode, RoomForDots, Blocks512, Raised, CutName, NeededLen;
    DirectoryTypes(p);
    FreshInodeFields(0x4000 + p);
    RaisedFromZero(g.blockSize / 512);
  }

  // ---- names and records ----

  /** Names of up to 255 bytes are stored whole, longer ones by their first 255. */
  lemma NamesFit(name: Buffer)
    ensures |name| <= 255 ==> CutName(name) == name
    ensures |name| > 255 ==> CutName(name) == name[..255]
  {
  }

  /** A record of a name takes eight bytes and the name, rounded up to a multiple of four. */
  lemma RecordLength(n: nat)
    ensures NeededLen(n) % 4 == 0 && 8 + n <= NeededLen(n) < 12 + n
  {
  }

  /** The bytes of a record: inode number, record length, name length, file type, name, little-endian. */
  lemma RecordBytes(b: Buffer, off: nat, e: DirEntry, recLen: nat)
    requires off + 8 + |e.name| <= |b| && |e.name| <= 255 && e.ino < WORD && recLen < 0x10000
    ensures var r := PutRecord(b, off, e, recLen);
            var b0: int, b1: int, b2: int, b3: int := r[off], r[off + 1], r[off + 2], r[off + 3];
            b0 + 0x100 * b1 + 0x10000 * b2 + 0x1000000 * b3 == e.ino
    ensures var r := PutRecord(b, off, e, recLen);
            var l0: int, l1: int := r[off + 4], r[off + 5];
            l0 + 0x100 * l1 == recLen
    ensures var r := PutRecord(b, off, e, recLen);
            && r[off + 6] == |e.name| && r[off + 7] == e.fileType
            && forall k :: 0 <= k < |e.name| ==> r[off + 8 + k] == e.name[k]
  {
    hide PutRecord;
    PutRecordReads(b, off, e, recLen);
    var r := PutRecord(b, off, e, recLen);
    forall k | 0 <= k < |e.name| ensures r[off + 8 + k] == e.name[k] {
      assert r[off + 8 + k] == r[off + 8..off + 8 + |e.name|][k];
    }
  }

  // ---- bitmaps and inodes ----

  /** A block is marked used by the bit of its group's bitmap that its number from the first data block on gives. */
  lemma BlockMark(g: Geometry, disk: Disk, group: nat, index: nat)
    requires g.Valid() && DiskOk(g, disk) && group < |g.groups| && index < g.blocksPerGroup
    ensures g.groups[group].blockBitmap in disk
    ensures BlockUsed(g, disk, g.firstDataBlock + group * g.blocksPerGroup + index)
            <==> BitAt(disk[g.groups[group].blockBitmap], index)
  {
    BlockNumbering(g, group, index, g.firstDataBlock + group * g.blocksPerGroup + index);
  }

  /** And an inode by the bit that its number from 1 on gives. */
  lemma InodeMark(g: Geometry, disk: Disk, group: nat, index: nat)
    requires g.Valid() && DiskOk(g, disk) && group < |g.groups| && index < g.inodesPerGroup
    ensures g.groups[group].inodeBitmap in disk
    ensures InodeUsed(g, disk, group * g.inodesPerGroup + index + 1)
            <==> BitAt(disk[g.groups[group].inodeBitmap], index)
  {
    DivMod(group, g.inodesPerGroup, index);
  }

  /** Bit n of a bitmap is the one worth 2^(n mod 8) of byte n / 8. */
  lemma BitmapBit(bits: Buffer, n: nat, high: nat, b: nat, low: nat)
    requires n < 8 * |bits| && b < 2 && low < Pow2(n % 8)
    requires bits[n / 8] == high * Pow2(n % 8 + 1) + b * Pow2(n % 8) + low
    ensures BitAt(bits, n) <==> b == 1
  {
    BitIs(high, b, low, n % 8);
  }

  /** Where an inode has its mode, size, link count, count of 512-byte sectors and block pointers. */
  lemma InodeFields(i: Inode, k: nat)
    requires k < 15
    ensures Mode(i) == LittleEndian(i[0..2]) && Size(i) == LittleEndian(i[4..8])
    ensures Links(i) == LittleEndian(i[26..28]) && Blocks512(i) == LittleEndian(i[28..32])
    ensures Slot(i, k) == LittleEndian(i[40 + 4 * k..44 + 4 * k])
  {
    hide Get16, Get32;
    Get16Is(i, 0);
    Get32Is(i, 4);
    Get16Is(i, 26);
    Get32Is(i, 28);
    Get32Is(i, 40 + 4 * k);
  }

  // ---- the block map ----

  lemma DoubleMappable(g: Geometry, i: nat, j: nat)
    requires i < g.Pointers() && j < g.Pointers()
    ensures Mappable(g, N_DIRECT + g.Pointers() + i * g.Pointers() + j)
  {
    var p := g.Pointers();
    MulLe(i + 1, p, p);
    assert (i + 1) * p == i * p + p;
  }

  /** Where the blocks of a file are: the first twelve in the inode, the next blockSize / 4 in the block of slot 12,
      and after those the j-th of the i-th lot in the block that word i of slot 13's block names. A zero on the way
      is a hole. */
  lemma BlockMapIs(g: Geometry, s: FsState, inodes: Inodes, ino: nat, i: nat, j: nat)
    requires Consistent(g, s, inodes) && ino in inodes && i < g.blockSize / 4 && j < g.blockSize / 4
    ensures i < 12 ==> FileBlock(g, s.disk, inodes, ino, i) == Slot(inodes[ino], i)
    ensures var ind := Slot(inodes[ino], 12);
            && (ind != 0 ==> ind in s.disk)
            && FileBlock(g, s.disk, inodes, ino, 12 + i) == if ind == 0 then 0 else Get32(s.disk[ind], 4 * i)
    ensures var p, dind := g.blockSize / 4, Slot(inodes[ino], 13);
            && (dind != 0 ==> dind in s.disk)
            && var ind := if dind == 0 then 0 else Get32(s.disk[dind], 4 * i);
               && (ind != 0 ==> ind in s.disk)
               && FileBlock(g, s.disk, inodes, ino, 12 + p + i * p + j)
                  == if ind == 0 then 0 else Get32(s.disk[ind], 4 * j)
  {
    hide FileBlock, AllTargets, Owned, CountsOk, FreeBlocksUsable, Slot, Get32;
    var p := g.Pointers();
    if i < 12 {
      MapDirect(g, s.disk, inodes, ino, i);
    }
    MapIndirect(g, s, inodes, ino, 12 + i);
    DivMod(i, p, j);
    DoubleMappable(g, i, j);
    MapDouble(g, s, inodes, ino, 12 + p + i * p + j, i, j);
  }

  /** Past the double indirect range nothing is mapped. */
  lemma BlockMapEnds(g: Geometry, disk: Disk, inodes: Inodes, ino: nat, fb: nat)
    requires g.Valid() && ino in inodes && fb >= 12 + g.blockSize / 4 + g.blockSize / 4 * (g.blockSize / 4)
    ensures FileBlock(g, disk, inodes, ino, fb) == 0
  {
    NotMapped(g, disk, inodes, ino, fb);
  }

  /** The byte of a file at a position is that byte of the block of its file block, if there is one. */
  lemma StoredByte(g: Geometry, s: FsState, inodes: Inodes, ino: nat, pos: nat)
    requires Consistent(g, s, inodes) && ino in inodes
    ensures var b := FileBlock(g, s.disk, inodes, ino, pos / g.blockSize);
            && (b != 0 ==> b in s.disk && |s.disk[b]| == g.blockSize)
            && ByteAt(g, AllContents(g, s.disk, inodes), ino, pos)
               == if b == 0 then Hole else Stored(s.disk[b][pos % g.blockSize])
  {
    hide FileBlock, AllContents, AllTargets, Owned, CountsOk, FreeBlocksUsable;
    FileBlockStored(g, s, inodes, ino, pos / g.blockSize);
  }
}
