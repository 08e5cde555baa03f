/**
 * The on-disk layout of a mounted, block-mapped ext4 file system: where the
 * metadata lives, which places hold block pointers, and what it means for the
 * block bitmap and those pointers to agree.
 */
module Ext4Layout {
  import opened Bytes

  type Disk = map<nat, Buffer>

  // ---- geometry: what ext4_mount computes once ----

  datatype Group = Group(blockBitmap: nat, inodeBitmap: nat, inodeTable: nat)

  datatype Geometry = Geometry(
    blockSize: nat, blocksPerGroup: nat, inodesPerGroup: nat, inodeSize: nat,
    firstDataBlock: nat, wideDescriptors: bool, groups: seq<Group>)
  {
    /** Block and inode sizes are powers of two; only these consequences are needed. */
    predicate Valid() {
      && blockSize in {1024, 2048, 4096}
      && 128 <= inodeSize && InodesPerBlock() > 0 && InodesPerBlock() * inodeSize == blockSize
      && 0 < blocksPerGroup <= 8 * blockSize
      && 0 < inodesPerGroup <= 8 * blockSize
      && |groups| > 0
      && BlockNo(|groups|, 0) <= 0x8000_0000
      && InodeNo(|groups|, 0) <= 0x8000_0000
    }

    function Pointers(): nat { blockSize / 4 }

    function InodesPerBlock(): nat
      requires inodeSize > 0
    {
      blockSize / inodeSize
    }

    function BlockNo(group: nat, index: nat): nat {
      firstDataBlock + group * blocksPerGroup + index
    }

    function InodeNo(group: nat, index: nat): nat {
      group * inodesPerGroup + index + 1
    }

    function BlockGroup(b: nat): nat
      requires blocksPerGroup > 0 && b >= firstDataBlock
    {
      (b - firstDataBlock) / blocksPerGroup
    }

    function BlockIndex(b: nat): (i: nat)
      requires blocksPerGroup > 0 && b >= firstDataBlock
      ensures i < blocksPerGroup
    {
      (b - firstDataBlock) % blocksPerGroup
    }

    function InodeGroup(ino: nat): nat
      requires inodesPerGroup > 0 && ino > 0
    {
      (ino - 1) / inodesPerGroup
    }

    function InodeIndex(ino: nat): (i: nat)
      requires inodesPerGroup > 0 && ino > 0
      ensures i < inodesPerGroup
    {
      (ino - 1) % inodesPerGroup
    }

    /** The block of its group's inode table that an inode lives in. */
    function TableIndex(ino: nat): nat
      requires inodesPerGroup > 0 && ino > 0 && inodeSize > 0 && InodesPerBlock() > 0
    {
      InodeIndex(ino) / InodesPerBlock()
    }

    predicate HasInode(ino: nat)
      requires inodesPerGroup > 0
    {
      ino > 0 && InodeGroup(ino) < |groups|
    }

    /** Blocks of a group's inode table that hold inodes. */
    predicate HasTableBlock(group: nat, k: nat)
      requires inodeSize > 0
    {
      group < |groups| && k * InodesPerBlock() < inodesPerGroup
    }

    function TableBlock(group: nat, k: nat): nat
      requires group < |groups|
    {
      groups[group].inodeTable + k
    }
  }

  // ---- inodes: the raw bytes of struct ext4_inode ----

  const INODE_BYTES := 116
  const N_DIRECT := 12
  const IND := 12
  const DIND := 13

  type Inode = b: Buffer | |b| == INODE_BYTES witness Zeros(INODE_BYTES)

  function Size(i: Inode): (v: nat) { Get32(i, 4) }
  function Links(i: Inode): (v: nat) { Get16(i, 26) }
  function Blocks512(i: Inode): (v: nat) { Get32(i, 28) }
  function Mode(i: Inode): (v: nat) { Get16(i, 0) }

  function Slot(i: Inode, k: nat): (v: nat)
    requires k < 15
  {
    Get32(i, 40 + 4 * k)
  }

  function WithSize(i: Inode, v: nat): Inode { Put32(i, 4, v) }
  function WithMtime(i: Inode, v: nat): Inode { Put32(i, 16, v) }
  function WithLinks(i: Inode, v: nat): Inode { Put16(i, 26, v) }
  function WithBlocks512(i: Inode, v: nat): Inode { Put32(i, 28, v) }
  function WithMode(i: Inode, v: nat): Inode { Put16(i, 0, v) }

  function WithSlot(i: Inode, k: nat, v: nat): Inode
    requires k < 15
  {
    Put32(i, 40 + 4 * k, v)
  }

  /** The copies agree outside the block pointers. */
  ghost predicate SameButSlots(i: Inode, i': Inode) {
    forall k :: 0 <= k < INODE_BYTES && !(40 <= k < 100) ==> i'[k] == i[k]
  }

  /** The copies agree outside the block pointers and the 512-byte block count. */
  ghost predicate SameButMap(i: Inode, i': Inode) {
    forall k :: 0 <= k < INODE_BYTES && !(40 <= k < 100) && !(28 <= k < 32) ==> i'[k] == i[k]
  }

  /** The copies agree outside size, block count and block pointers: bytes 4 to 7, 28 to 31 and 40 to 99. */
  ghost predicate SameButGrowth(i: Inode, i': Inode) {
    forall k :: 0 <= k < INODE_BYTES && !(4 <= k < 8) && !(28 <= k < 32) && !(40 <= k < 100) ==> i'[k] == i[k]
  }

  /** The copies agree outside those and the modification time, bytes 16 to 19, which is now zero. */
  ghost predicate SameButWrite(i: Inode, i': Inode) {
    forall k :: 0 <= k < INODE_BYTES && !(4 <= k < 8) && !(28 <= k < 32) && !(40 <= k < 100) ==>
      i'[k] == if 16 <= k < 20 then 0 else i[k]
  }

  /** A 32-bit count raised n times by a unit. */
  function Raised(count: nat, unit: nat, n: nat): nat {
    (count + unit * n) % WORD
  }

  lemma RaisedNone(count: nat, unit: nat)
    requires count < WORD
    ensures Raised(count, unit, 0) == count
  {
  }

  lemma WordSum(a: nat, b: nat)
    ensures (a % WORD + b) % WORD == (a + b) % WORD
  {
    var q, r := a / WORD, a % WORD;
    assert a == WORD * q + r;
    var q2, r2 := (r + b) / WORD, (r + b) % WORD;
    RemainderOfWord(a + b, q + q2, r2);
  }

  lemma RaisedMore(count: nat, unit: nat, n: nat)
    ensures (Raised(count, unit, n) + unit) % WORD == Raised(count, unit, n + 1)
  {
    var a := count + unit * n;
    assert unit * (n + 1) == unit * n + unit;
    WordSum(a, unit);
  }

  // ---- places: everything that names a block ----

  datatype Place =
    | BlockBitmap(group: nat)
    | InodeBitmap(group: nat)
    | InodeTable(group: nat, k: nat)
    | InodeSlot(ino: nat, slot: nat)
    | Entry(parent: Place, j: nat)

  /** Places whose block holds further block pointers. */
  predicate IsPointer(p: Place) {
    (p.InodeSlot? && p.slot in {IND, DIND}) ||
    (p.Entry? && p.parent.InodeSlot? && p.parent.slot == DIND)
  }

  /** Places that name a block of file contents. */
  predicate IsData(p: Place) {
    (p.InodeSlot? || p.Entry?) && !IsPointer(p)
  }

  ghost predicate IsPlace(g: Geometry, inos: iset<nat>, p: Place)
    requires g.Valid()
  {
    match p
    case BlockBitmap(group) => group < |g.groups|
    case InodeBitmap(group) => group < |g.groups|
    case InodeTable(group, k) => g.HasTableBlock(group, k)
    case InodeSlot(ino, k) => ino in inos && k <= DIND
    case Entry(parent, j) => j < g.Pointers() && IsPointer(parent) && IsPlace(g, inos, parent)
  }

  /** The j-th 32-bit word of block b, or 0 where there is no such word. */
  function Word(disk: Disk, b: nat, j: nat): (v: nat)
    ensures v < WORD
  {
    if b in disk && 4 * j + 4 <= |disk[b]| then Get32(disk[b], 4 * j) else 0
  }

  type Inodes = imap<nat, Inode>

  ghost function WithInode(inodes: Inodes, ino: nat, i: Inode): (r: Inodes)
    requires ino in inodes
    ensures r.Keys == inodes.Keys
  {
    inodes[ino := i]
  }

  lemma WithInodeTwice(inodes: Inodes, ino: nat, i: Inode, i': Inode)
    requires ino in inodes
    ensures WithInode(WithInode(inodes, ino, i), ino, i') == WithInode(inodes, ino, i')
  {
  }

  /** The block number stored at a place; 0 means nothing is mapped there. */
  ghost function Target(g: Geometry, disk: Disk, inodes: Inodes, p: Place): nat
    requires g.Valid() && IsPlace(g, inodes.Keys, p)
  {
    match p
    case BlockBitmap(group) => g.groups[group].blockBitmap
    case InodeBitmap(group) => g.groups[group].inodeBitmap
    case InodeTable(group, k) => g.TableBlock(group, k)
    case InodeSlot(ino, k) => Slot(inodes[ino], k)
    case Entry(parent, j) =>
      var b := Target(g, disk, inodes, parent);
      if b == 0 then 0 else Word(disk, b, j)
  }

  type Targets = imap<Place, nat>

  ghost function AllTargets(g: Geometry, disk: Disk, inodes: Inodes): Targets
    requires g.Valid()
  {
    imap p: Place | IsPlace(g, inodes.Keys, p) :: Target(g, disk, inodes, p)
  }

  // ---- bitmaps on the disk ----

  /** Every block has the block size, and the bitmaps and inode tables are there. */
  ghost predicate DiskOk(g: Geometry, disk: Disk)
    requires g.Valid()
  {
    && (forall b :: b in disk ==> |disk[b]| == g.blockSize)
    && (forall i :: 0 <= i < |g.groups| ==> g.groups[i].blockBitmap in disk && g.groups[i].inodeBitmap in disk)
    && (forall i: nat, k: nat :: g.HasTableBlock(i, k) ==> g.TableBlock(i, k) in disk)
  }

  ghost function BlockMaps(g: Geometry, disk: Disk): (m: seq<Buffer>)
    requires g.Valid() && DiskOk(g, disk)
    ensures |m| == |g.groups| && forall i :: 0 <= i < |m| ==> |m[i]| == g.blockSize
  {
    seq(|g.groups|, i requires 0 <= i < |g.groups| => disk[g.groups[i].blockBitmap])
  }

  ghost function InodeMaps(g: Geometry, disk: Disk): (m: seq<Buffer>)
    requires g.Valid() && DiskOk(g, disk)
    ensures |m| == |g.groups| && forall i :: 0 <= i < |m| ==> |m[i]| == g.blockSize
  {
    seq(|g.groups|, i requires 0 <= i < |g.groups| => disk[g.groups[i].inodeBitmap])
  }

  predicate MarkedUsed(g: Geometry, maps: seq<Buffer>, b: nat)
    requires g.Valid() && |maps| == |g.groups| && forall i :: 0 <= i < |maps| ==> |maps[i]| == g.blockSize
  {
    && b >= g.firstDataBlock
    && g.BlockGroup(b) < |maps|
    && BitAt(maps[g.BlockGroup(b)], g.BlockIndex(b))
  }

  ghost predicate BlockUsed(g: Geometry, disk: Disk, b: nat)
    requires g.Valid() && DiskOk(g, disk)
  {
    MarkedUsed(g, BlockMaps(g, disk), b)
  }

  ghost predicate InodeUsed(g: Geometry, disk: Disk, ino: nat)
    requires g.Valid() && DiskOk(g, disk)
  {
    g.HasInode(ino) && BitAt(InodeMaps(g, disk)[g.InodeGroup(ino)], g.InodeIndex(ino))
  }

  /** A clear bit of the block bitmap always stands for a usable block. */
  ghost predicate FreeBlocksUsable(g: Geometry, disk: Disk)
    requires g.Valid() && DiskOk(g, disk)
  {
    forall group: nat, index: nat ::
      group < |g.groups| && index < g.blocksPerGroup && !BitAt(BlockMaps(g, disk)[group], index) ==>
        g.BlockNo(group, index) in disk && 0 < g.BlockNo(group, index)
  }

  /** Ownership: every named block is marked used, and no two places name the same block. */
  ghost predicate Owned(g: Geometry, disk: Disk, t: Targets)
    requires g.Valid() && DiskOk(g, disk)
  {
    && (forall p :: p in t && t[p] != 0 ==> t[p] in disk && BlockUsed(g, disk, t[p]))
    && (forall p, q :: p in t && q in t && t[p] == t[q] != 0 ==> p == q)
    && (forall p :: p in t && !p.InodeSlot? && !p.Entry? ==> t[p] != 0)
  }
}
