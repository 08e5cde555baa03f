/** The mounted state as a value: inodes on disk, the standing invariant, and the
    effect of every kind of block write on them. */
module Ext4State {
  import opened Bytes
  import opened Ext4Layout
  import opened Ext4Ownership
  import opened Ext4Alloc
  import opened Arith

  // ---- inodes on disk ----

  function InodeBlock(g: Geometry, ino: nat): nat
    requires g.Valid() && g.HasInode(ino)
  {
    g.TableBlock(g.InodeGroup(ino), g.TableIndex(ino))
  }

  function InodeOffset(g: Geometry, ino: nat): nat
    requires g.Valid() && g.HasInode(ino)
  {
    g.InodeIndex(ino) % g.InodesPerBlock() * g.inodeSize
  }

  /** An inode lies wholly inside one block of its group's inode table: the place the
      driver computes from the byte offset of the inode in the table. */
  lemma InodeHome(g: Geometry, ino: nat)
    requires g.Valid() && g.HasInode(ino)
    ensures g.HasTableBlock(g.InodeGroup(ino), g.TableIndex(ino))
    ensures InodeBlock(g, ino) == g.groups[(ino - 1) / g.inodesPerGroup].inodeTable
                                  + (ino - 1) % g.inodesPerGroup * g.inodeSize / g.blockSize
    ensures InodeOffset(g, ino) == (ino - 1) % g.inodesPerGroup * g.inodeSize % g.blockSize
    ensures InodeOffset(g, ino) + g.inodeSize <= g.blockSize
  {
    ItemOffset(g.InodeIndex(ino), g.inodeSize, g.InodesPerBlock());
    Quotient(g.InodeIndex(ino), g.InodesPerBlock());
  }

  predicate SameTableBlock(g: Geometry, ino: nat, other: nat)
    requires g.Valid() && g.HasInode(ino) && g.HasInode(other)
  {
    g.InodeGroup(ino) == g.InodeGroup(other) && g.TableIndex(ino) == g.TableIndex(other)
  }

  /** Different inodes in the same block of a group do not overlap. */
  lemma InodesApart(g: Geometry, ino: nat, other: nat)
    requires g.Valid() && g.HasInode(ino) && g.HasInode(other) && ino != other
    requires SameTableBlock(g, ino, other)
    ensures InodeOffset(g, ino) + g.inodeSize <= InodeOffset(g, other)
         || InodeOffset(g, other) + g.inodeSize <= InodeOffset(g, ino)
  {
    var n := g.InodesPerBlock();
    var a, b := g.InodeIndex(ino), g.InodeIndex(other);
    if a % n == b % n {
      SplitUnique(a, b, n);
      SplitUnique(ino - 1, other - 1, g.inodesPerGroup);
    } else if a % n < b % n {
      ItemsApart(a % n, b % n, g.inodeSize);
    } else {
      ItemsApart(b % n, a % n, g.inodeSize);
    }
  }

  function InodeAt(g: Geometry, disk: Disk, ino: nat): Inode
    requires g.Valid() && g.HasInode(ino)
    requires InodeBlock(g, ino) in disk && |disk[InodeBlock(g, ino)]| == g.blockSize
  {
    InodeHome(g, ino);
    disk[InodeBlock(g, ino)][InodeOffset(g, ino)..InodeOffset(g, ino) + INODE_BYTES]
  }

  /** The inodes whose bit is set, as they are stored. */
  ghost function DiskInodes(g: Geometry, disk: Disk): Inodes
    requires g.Valid() && DiskOk(g, disk)
  {
    imap ino: nat | InodeUsed(g, disk, ino) :: (InodeHome(g, ino); InodeAt(g, disk, ino))
  }

  /** The block of an inode's table with the inode's bytes replaced. */
  function PasteInode(g: Geometry, block: Buffer, ino: nat, i: Inode): (r: Buffer)
    requires g.Valid() && g.HasInode(ino) && |block| == g.blockSize
    ensures |r| == g.blockSize
  {
    InodeHome(g, ino);
    var off := InodeOffset(g, ino);
    block[..off] + i + block[off + INODE_BYTES..]
  }

  // ---- the standing invariant ----

  /** Block sizes, counters and free blocks are in order. */
  ghost predicate BaseOk(g: Geometry, s: FsState) {
    && g.Valid() && DiskOk(g, s.disk) && |s.counts| == |g.groups| && CountsOk(g, s) && FreeBlocksUsable(g, s.disk)
  }

  /** Everything agrees when the inodes are the given ones. While an operation works on
      a copy of an inode, that copy stands in for the stored one. */
  ghost predicate Consistent(g: Geometry, s: FsState, inodes: Inodes) {
    BaseOk(g, s) && Owned(g, s.disk, AllTargets(g, s.disk, inodes))
  }

  /** The invariant between operations. */
  ghost predicate FsValid(g: Geometry, s: FsState) {
    BaseOk(g, s) && Consistent(g, s, DiskInodes(g, s.disk))
  }

  // ---- frames ----

  ghost predicate NotBlockBitmap(g: Geometry, b: nat) {
    forall i :: 0 <= i < |g.groups| ==> g.groups[i].blockBitmap != b
  }

  ghost predicate NotInodeMeta(g: Geometry, b: nat)
    requires g.Valid()
  {
    && (forall i :: 0 <= i < |g.groups| ==> g.groups[i].inodeBitmap != b)
    && (forall i: nat, k: nat :: g.HasTableBlock(i, k) ==> g.TableBlock(i, k) != b)
  }

  lemma BlockFrame(g: Geometry, disk: Disk, b: nat, x: Buffer)
    requires g.Valid() && DiskOk(g, disk) && b in disk && |x| == g.blockSize
    requires NotBlockBitmap(g, b)
    ensures DiskOk(g, disk[b := x])
    ensures BlockMaps(g, disk[b := x]) == BlockMaps(g, disk)
  {
  }

  lemma InodeMapsFrame(g: Geometry, disk: Disk, b: nat, x: Buffer)
    requires g.Valid() && DiskOk(g, disk) && b in disk && |x| == g.blockSize
    requires NotInodeMeta(g, b)
    ensures DiskOk(g, disk[b := x])
    ensures InodeMaps(g, disk[b := x]) == InodeMaps(g, disk)
  {
  }

  lemma InodeAtFrame(g: Geometry, disk: Disk, b: nat, x: Buffer, ino: nat)
    requires g.Valid() && DiskOk(g, disk) && g.HasInode(ino)
    requires NotInodeMeta(g, b)
    ensures InodeBlock(g, ino) in disk && InodeBlock(g, ino) != b
    ensures InodeAt(g, disk[b := x], ino) == InodeAt(g, disk, ino)
  {
    InodeHome(g, ino);
  }

  lemma InodeFrame(g: Geometry, disk: Disk, b: nat, x: Buffer)
    requires g.Valid() && DiskOk(g, disk) && b in disk && |x| == g.blockSize
    requires NotInodeMeta(g, b)
    ensures DiskOk(g, disk[b := x])
    ensures InodeMaps(g, disk[b := x]) == InodeMaps(g, disk)
    ensures DiskInodes(g, disk[b := x]) == DiskInodes(g, disk)
  {
    InodeMapsFrame(g, disk, b, x);
    forall ino: nat | g.HasInode(ino)
      ensures InodeBlock(g, ino) in disk && InodeAt(g, disk[b := x], ino) == InodeAt(g, disk, ino)
    {
      InodeAtFrame(g, disk, b, x, ino);
    }
  }

  /** Writing a block that is no metadata leaves counters, free blocks and inodes alone. */
  lemma BaseFrame(g: Geometry, s: FsState, b: nat, x: Buffer)
    requires BaseOk(g, s) && b in s.disk && |x| == g.blockSize
    requires NotBlockBitmap(g, b) && NotInodeMeta(g, b)
    ensures BaseOk(g, s.(disk := s.disk[b := x]))
    ensures DiskInodes(g, s.disk[b := x]) == DiskInodes(g, s.disk)
    ensures BlockMaps(g, s.disk[b := x]) == BlockMaps(g, s.disk)
  {
    BlockFrame(g, s.disk, b, x);
    InodeFrame(g, s.disk, b, x);
  }

  /** A file's block, or a block nothing names, is no metadata. */
  lemma NotMetadata(g: Geometry, disk: Disk, inodes: Inodes, b: nat)
    requires g.Valid() && DiskOk(g, disk) && Owned(g, disk, AllTargets(g, disk, inodes))
    requires var t := AllTargets(g, disk, inodes);
             Unnamed(t, b) || exists p :: p in t && (p.InodeSlot? || p.Entry?) && t[p] == b != 0
    ensures NotBlockBitmap(g, b) && NotInodeMeta(g, b)
  {
    var t := AllTargets(g, disk, inodes);
    forall i: nat | i < |g.groups|
      ensures g.groups[i].blockBitmap != b && g.groups[i].inodeBitmap != b
    {
      assert BlockBitmap(i) in t && InodeBitmap(i) in t;
    }
    forall i: nat, k: nat | g.HasTableBlock(i, k)
      ensures g.TableBlock(i, k) != b
    {
      assert InodeTable(i, k) in t;
    }
  }

  // ---- writing an inode ----

  lemma PasteInodeSelf(g: Geometry, disk: Disk, ino: nat, i: Inode, block: Buffer)
    requires g.Valid() && g.HasInode(ino) && |block| == g.blockSize
    ensures InodeAt(g, disk[InodeBlock(g, ino) := PasteInode(g, block, ino, i)], ino) == i
  {
    InodeHome(g, ino);
  }

  /** A piece of a block apart from the replaced one. */
  lemma PieceApart(block: Buffer, off: nat, i: Inode, o: nat)
    requires off + INODE_BYTES <= |block| && o + INODE_BYTES <= |block|
    requires off + INODE_BYTES <= o || o + INODE_BYTES <= off
    ensures (block[..off] + i + block[off + INODE_BYTES..])[o..o + INODE_BYTES] == block[o..o + INODE_BYTES]
  {
    var b := block[..off] + i + block[off + INODE_BYTES..];
    forall k | o <= k < o + INODE_BYTES ensures b[k] == block[k] {
    }
  }

  lemma PasteInodeOther(g: Geometry, disk: Disk, ino: nat, i: Inode, other: nat)
    requires g.Valid() && DiskOk(g, disk) && g.HasInode(ino) && g.HasInode(other) && ino != other
    requires InodeBlock(g, ino) in disk && InodeBlock(g, other) in disk
    requires InodeBlock(g, ino) == InodeBlock(g, other) ==>
               SameTableBlock(g, ino, other)
    ensures var b := InodeBlock(g, ino);
            InodeAt(g, disk[b := PasteInode(g, disk[b], ino, i)], other) == InodeAt(g, disk, other)
  {
    hide InodeOffset, InodeBlock, SameTableBlock;
    InodeHome(g, ino);
    InodeHome(g, other);
    if InodeBlock(g, ino) == InodeBlock(g, other) {
      InodesApart(g, ino, other);
      PieceApart(disk[InodeBlock(g, ino)], InodeOffset(g, ino), i, InodeOffset(g, other));
    }
  }
}
