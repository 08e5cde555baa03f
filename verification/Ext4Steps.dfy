/** The effect of the driver's elementary steps on the standing invariant. */
module Ext4Steps {
  import opened Bytes
  import opened Ext4Layout
  import opened Ext4Ownership
  import opened Ext4Alloc
  import opened Ext4State
  import opened Arith

  // ---- taking and giving back a block ----

  function TakeBlock(g: Geometry, s: FsState, group: nat, index: nat): FsState
    requires g.Valid() && DiskOk(g, s.disk) && |s.counts| == |g.groups|
    requires group < |g.groups| && index < g.blocksPerGroup
  {
    var bm := g.groups[group].blockBitmap;
    FsState(s.disk[bm := SetBitAt(s.disk[bm], index)],
            s.counts[group := s.counts[group].(blocksLo := Dec(s.counts[group].blocksLo, 0x10000))],
            Dec(s.sbBlocks, WORD), s.sbInodes)
  }

  function GiveBlock(g: Geometry, s: FsState, group: nat, index: nat): FsState
    requires g.Valid() && DiskOk(g, s.disk) && |s.counts| == |g.groups|
    requires group < |g.groups| && index < g.blocksPerGroup
  {
    var bm := g.groups[group].blockBitmap;
    FsState(s.disk[bm := ClearBitAt(s.disk[bm], index)],
            s.counts[group := s.counts[group].(blocksLo := Inc(s.counts[group].blocksLo, 0x10000))],
            Inc(s.sbBlocks, WORD), s.sbInodes)
  }

  lemma NamedOnce(g: Geometry, disk: Disk, t: Targets, p: Place)
    requires g.Valid() && DiskOk(g, disk) && Owned(g, disk, t)
    requires p in t && t[p] != 0
    ensures forall q :: q in t && q != p ==> t[q] != t[p]
  {
  }

  lemma BlockBitmapApart(g: Geometry, disk: Disk, t: Targets, inodes: Inodes, group: nat)
    requires g.Valid() && DiskOk(g, disk) && Owned(g, disk, t) && t == AllTargets(g, disk, inodes) && group < |g.groups|
    ensures var b := g.groups[group].blockBitmap;
            && (forall i :: 0 <= i < |g.groups| && i != group ==> g.groups[i].blockBitmap != b)
            && NotInodeMeta(g, b)
            && NotPointerBlock(t, b)
  {
    var p := BlockBitmap(group);
    NamedOnce(g, disk, t, p);
    forall i: nat | i < |g.groups| && i != group ensures g.groups[i].blockBitmap != t[p] {
      assert t[BlockBitmap(i)] != t[p];
    }
    forall i: nat | i < |g.groups| ensures g.groups[i].inodeBitmap != t[p] {
      assert t[InodeBitmap(i)] != t[p];
    }
    forall i: nat, k: nat | g.HasTableBlock(i, k) ensures g.TableBlock(i, k) != t[p] {
      assert t[InodeTable(i, k)] != t[p];
    }
  }

  lemma BlockMapsAfter(g: Geometry, disk: Disk, group: nat, bits: Buffer)
    requires g.Valid() && DiskOk(g, disk) && group < |g.groups| && |bits| == g.blockSize
    requires forall i :: 0 <= i < |g.groups| && i != group ==> g.groups[i].blockBitmap != g.groups[group].blockBitmap
    ensures DiskOk(g, disk[g.groups[group].blockBitmap := bits])
    ensures BlockMaps(g, disk[g.groups[group].blockBitmap := bits]) == BlockMaps(g, disk)[group := bits]
  {
  }

  /** Block numbers and (group, index) pairs correspond one to one. */
  lemma BlockNumbering(g: Geometry, group: nat, index: nat, b: nat)
    requires g.Valid() && index < g.blocksPerGroup
    ensures g.BlockNo(group, index) == g.firstDataBlock + group * g.blocksPerGroup + index
    ensures b == g.BlockNo(group, index) <==>
            b >= g.firstDataBlock && g.BlockGroup(b) == group && g.BlockIndex(b) == index
  {
    DivMod(group, g.blocksPerGroup, index);
    if b >= g.firstDataBlock {
      var r := b - g.firstDataBlock;
      assert r == r / g.blocksPerGroup * g.blocksPerGroup + r % g.blocksPerGroup;
    }
  }

  /** The used mark of exactly one block changes. */
  lemma MarkedAfterSet(g: Geometry, maps: seq<Buffer>, group: nat, index: nat, b: nat)
    requires g.Valid() && |maps| == |g.groups| && forall i :: 0 <= i < |maps| ==> |maps[i]| == g.blockSize
    requires group < |maps| && index < g.blocksPerGroup
    ensures MarkedUsed(g, maps[group := SetBitAt(maps[group], index)], b) <==>
            b == g.BlockNo(group, index) || MarkedUsed(g, maps, b)
  {
    BlockNumbering(g, group, index, b);
    if b >= g.firstDataBlock && g.BlockGroup(b) == group {
      SetBitAtBits(maps[group], index, g.BlockIndex(b));
    }
  }

  lemma MarkedAfterClear(g: Geometry, maps: seq<Buffer>, group: nat, index: nat, b: nat)
    requires g.Valid() && |maps| == |g.groups| && forall i :: 0 <= i < |maps| ==> |maps[i]| == g.blockSize
    requires group < |maps| && index < g.blocksPerGroup
    ensures MarkedUsed(g, maps[group := ClearBitAt(maps[group], index)], b) <==>
            b != g.BlockNo(group, index) && MarkedUsed(g, maps, b)
  {
    BlockNumbering(g, group, index, b);
    if b >= g.firstDataBlock && g.BlockGroup(b) == group {
      ClearBitAtBits(maps[group], index, g.BlockIndex(b));
    }
  }

  lemma InodeNumbering(g: Geometry, group: nat, index: nat, ino: nat)
    requires g.Valid() && index < g.inodesPerGroup
    ensures ino == g.InodeNo(group, index) <==>
            ino > 0 && g.InodeGroup(ino) == group && g.InodeIndex(ino) == index
  {
    DivMod(group, g.inodesPerGroup, index);
    if ino > 0 {
      var r := ino - 1;
      assert r == r / g.inodesPerGroup * g.inodesPerGroup + r % g.inodesPerGroup;
    }
  }

  lemma TakeBlockCounts(g: Geometry, s: FsState, group: nat, index: nat)
    requires BaseOk(g, s) && group < |g.groups| && index < g.blocksPerGroup
             && !BitAt(BlockMaps(g, s.disk)[group], index)
    requires var s' := TakeBlock(g, s, group, index);
             && DiskOk(g, s'.disk) && InodeMaps(g, s'.disk) == InodeMaps(g, s.disk)
             && BlockMaps(g, s'.disk) == BlockMaps(g, s.disk)[group := SetBitAt(BlockMaps(g, s.disk)[group], index)]
    ensures CountsOk(g, TakeBlock(g, s, group, index))
    ensures s.counts[group].blocksLo > 0 && s.sbBlocks > 0
  {
    CountsTakeBlock(g, BlockMaps(g, s.disk), s.counts, s.sbBlocks, group, index);
  }

  lemma BlockBelow(g: Geometry, group: nat, index: nat)
    requires g.Valid() && group < |g.groups| && index < g.blocksPerGroup
    ensures g.BlockNo(group, index) < 0x8000_0000
  {
    ItemsApart(group, |g.groups|, g.blocksPerGroup);
  }

  lemma TakeBlockMarks(g: Geometry, s: FsState, inodes: Inodes, group: nat, index: nat)
    requires BaseOk(g, s) && Owned(g, s.disk, AllTargets(g, s.disk, inodes))
    requires group < |g.groups| && index < g.blocksPerGroup && !BitAt(BlockMaps(g, s.disk)[group], index)
    requires var s' := TakeBlock(g, s, group, index);
             && DiskOk(g, s'.disk)
             && BlockMaps(g, s'.disk) == BlockMaps(g, s.disk)[group := SetBitAt(BlockMaps(g, s.disk)[group], index)]
    ensures var s', b := TakeBlock(g, s, group, index), g.BlockNo(group, index);
            && FreeBlocksUsable(g, s'.disk)
            && Owned(g, s'.disk, AllTargets(g, s.disk, inodes))
            && 0 < b < 0x8000_0000 && b in s.disk
            && !BlockUsed(g, s.disk, b) && BlockUsed(g, s'.disk, b)
            && Unnamed(AllTargets(g, s.disk, inodes), b)
  {
    var s', b := TakeBlock(g, s, group, index), g.BlockNo(group, index);
    var t, maps := AllTargets(g, s.disk, inodes), BlockMaps(g, s.disk);
    forall c: nat
      ensures BlockUsed(g, s'.disk, c) <==> c == b || BlockUsed(g, s.disk, c)
    {
      MarkedAfterSet(g, maps, group, index, c);
    }
    BlockNumbering(g, group, index, b);
    FreeIsUnnamed(g, s.disk, t, b);
    OwnedFrame(g, s.disk, s'.disk, t);
    forall gr: nat, i: nat | gr < |g.groups| && i < g.blocksPerGroup && !BitAt(BlockMaps(g, s'.disk)[gr], i)
      ensures !BitAt(maps[gr], i)
    {
      if gr == group {
        SetBitAtBits(maps[group], index, i);
      }
    }
    BlockBelow(g, group, index);
  }

  /** Taking a free block: counters stay exact, exactly that block becomes used, no
      target moves, and the block was not named by anything. */
  lemma TakeBlockKeeps(g: Geometry, s: FsState, inodes: Inodes, group: nat, index: nat)
    requires Consistent(g, s, inodes)
    requires group < |g.groups| && index < g.blocksPerGroup && !BitAt(BlockMaps(g, s.disk)[group], index)
    ensures var s' := TakeBlock(g, s, group, index);
            var b := g.BlockNo(group, index);
            && Consistent(g, s', inodes)
            && AllTargets(g, s'.disk, inodes) == AllTargets(g, s.disk, inodes)
            && DiskInodes(g, s'.disk) == DiskInodes(g, s.disk) && InodeMaps(g, s'.disk) == InodeMaps(g, s.disk)
            && BlockMaps(g, s'.disk) == BlockMaps(g, s.disk)[group := SetBitAt(BlockMaps(g, s.disk)[group], index)]
            && 0 < b < 0x8000_0000 && b in s.disk
            && !BlockUsed(g, s.disk, b) && BlockUsed(g, s'.disk, b)
            && Unnamed(AllTargets(g, s.disk, inodes), b)
  {
    var s' := TakeBlock(g, s, group, index);
    var bm, b := g.groups[group].blockBitmap, g.BlockNo(group, index);
    var bits := SetBitAt(s.disk[bm], index);
    BlockBitmapApart(g, s.disk, AllTargets(g, s.disk, inodes), inodes, group);
    BlockMapsAfter(g, s.disk, group, bits);
    InodeFrame(g, s.disk, bm, bits);
    WriteKeepsTargets(g, s.disk, inodes, bm, bits);
    TakeBlockCounts(g, s, group, index);
    TakeBlockMarks(g, s, inodes, group, index);
  }

  lemma InodeBelow(g: Geometry, group: nat, index: nat)
    requires g.Valid() && group < |g.groups| && index < g.inodesPerGroup
    ensures g.InodeNo(group, index) < 0x8000_0000
  {
    ItemsApart(group, |g.groups|, g.inodesPerGroup);
  }

  // ---- giving a block back ----

  lemma GiveBlockCounts(g: Geometry, s: FsState, group: nat, index: nat)
    requires BaseOk(g, s) && group < |g.groups| && index < g.blocksPerGroup
    requires var s' := GiveBlock(g, s, group, index);
             && DiskOk(g, s'.disk) && InodeMaps(g, s'.disk) == InodeMaps(g, s.disk)
             && BlockMaps(g, s'.disk) == BlockMaps(g, s.disk)[group := ClearBitAt(BlockMaps(g, s.disk)[group], index)]
    ensures CountsOk(g, GiveBlock(g, s, group, index)) <==> BitAt(BlockMaps(g, s.disk)[group], index)
  {
    CountsGiveBlock(g, BlockMaps(g, s.disk), s.counts, s.sbBlocks, group, index);
    TotalsBelow(g, s);
  }

  /** Ownership survives the freeing of a block exactly when nothing names it. */
  lemma OwnedUnlessFreed(g: Geometry, disk: Disk, disk': Disk, t: Targets, b: nat)
    requires g.Valid() && DiskOk(g, disk) && DiskOk(g, disk') && Owned(g, disk, t) && b != 0
    requires disk.Keys <= disk'.Keys
    requires forall c: nat :: BlockUsed(g, disk', c) <==> c != b && BlockUsed(g, disk, c)
    ensures Owned(g, disk', t) <==> Unnamed(t, b)
  {
  }

  lemma GiveBlockMarks(g: Geometry, s: FsState, inodes: Inodes, group: nat, index: nat)
    requires BaseOk(g, s) && Owned(g, s.disk, AllTargets(g, s.disk, inodes))
    requires group < |g.groups| && index < g.blocksPerGroup
    requires var s', b := GiveBlock(g, s, group, index), g.BlockNo(group, index);
             && DiskOk(g, s'.disk) && 0 < b && b in s.disk
             && BlockMaps(g, s'.disk) == BlockMaps(g, s.disk)[group := ClearBitAt(BlockMaps(g, s.disk)[group], index)]
    ensures var s' := GiveBlock(g, s, group, index);
            && FreeBlocksUsable(g, s'.disk)
            && (Owned(g, s'.disk, AllTargets(g, s.disk, inodes)) <==>
                  Unnamed(AllTargets(g, s.disk, inodes), g.BlockNo(group, index)))
            && (forall c: nat :: BlockUsed(g, s'.disk, c) <==> c != g.BlockNo(group, index) && BlockUsed(g, s.disk, c))
  {
    var s', b := GiveBlock(g, s, group, index), g.BlockNo(group, index);
    var t, maps := AllTargets(g, s.disk, inodes), BlockMaps(g, s.disk);
    forall c: nat
      ensures BlockUsed(g, s'.disk, c) <==> c != b && BlockUsed(g, s.disk, c)
    {
      MarkedAfterClear(g, maps, group, index, c);
    }
    OwnedUnlessFreed(g, s.disk, s'.disk, t, b);
    forall gr: nat, i: nat | gr < |g.groups| && i < g.blocksPerGroup && !BitAt(BlockMaps(g, s'.disk)[gr], i)
      ensures !BitAt(maps[gr], i) || (gr == group && i == index)
    {
      if gr == group {
        ClearBitAtBits(maps[group], index, i);
      }
    }
  }

  /** Giving back a block makes exactly it free and moves no target. The invariant is kept if and only if
      the block was in use, since the counters go up either way, and nothing names it any more. */
  lemma GiveBlockKeeps(g: Geometry, s: FsState, inodes: Inodes, group: nat, index: nat)
    requires Consistent(g, s, inodes)
    requires group < |g.groups| && index < g.blocksPerGroup
    requires 0 < g.BlockNo(group, index) && g.BlockNo(group, index) in s.disk
    ensures var s', b := GiveBlock(g, s, group, index), g.BlockNo(group, index);
            && DiskOk(g, s'.disk)
            && (Consistent(g, s', inodes) <==>
                  BitAt(BlockMaps(g, s.disk)[group], index) && Unnamed(AllTargets(g, s.disk, inodes), b))
            && (forall c: nat :: BlockUsed(g, s'.disk, c) <==> c != g.BlockNo(group, index) && BlockUsed(g, s.disk, c))
            && AllTargets(g, s'.disk, inodes) == AllTargets(g, s.disk, inodes)
            && DiskInodes(g, s'.disk) == DiskInodes(g, s.disk)
  {
    var s' := GiveBlock(g, s, group, index);
    var bm := g.groups[group].blockBitmap;
    var bits := ClearBitAt(s.disk[bm], index);
    BlockBitmapApart(g, s.disk, AllTargets(g, s.disk, inodes), inodes, group);
    BlockMapsAfter(g, s.disk, group, bits);
    InodeFrame(g, s.disk, bm, bits);
    WriteKeepsTargets(g, s.disk, inodes, bm, bits);
    GiveBlockCounts(g, s, group, index);
    GiveBlockMarks(g, s, inodes, group, index);
  }

  lemma TakeBlockCountsPositive(g: Geometry, s: FsState, group: nat, index: nat)
    requires BaseOk(g, s) && group < |g.groups| && index < g.blocksPerGroup
             && !BitAt(BlockMaps(g, s.disk)[group], index)
    ensures s.counts[group].blocksLo > 0 && s.sbBlocks > 0 && s.counts[group].blocksLo < 0x10000 && s.sbBlocks < WORD
  {
    CountsTakeBlock(g, BlockMaps(g, s.disk), s.counts, s.sbBlocks, group, index);
    TotalsBelow(g, s);
  }

  lemma UndoDisk(g: Geometry, disk: Disk, bm: nat, b: nat, index: nat, x: Buffer)
    requires bm in disk && b in disk && bm != b && index < 8 * |disk[bm]| && !BitAt(disk[bm], index)
    ensures var d := disk[bm := SetBitAt(disk[bm], index)][b := x];
            d[bm := ClearBitAt(d[bm], index)] == disk[b := x]
  {
    ClearAfterSet(disk[bm], index);
  }

  /** Freeing undoes allocation exactly, whatever was written to another block in between. */
  lemma GiveUndoesTake(g: Geometry, s: FsState, group: nat, index: nat, b: nat, x: Buffer)
    requires BaseOk(g, s)
    requires group < |g.groups| && index < g.blocksPerGroup && !BitAt(BlockMaps(g, s.disk)[group], index)
    requires |x| == g.blockSize && b in s.disk && b != g.groups[group].blockBitmap
    ensures var s' := TakeBlock(g, s, group, index);
            && DiskOk(g, s'.disk[b := x])
            && GiveBlock(g, s'.(disk := s'.disk[b := x]), group, index) == s.(disk := s.disk[b := x])
  {
    TakeBlockCountsPositive(g, s, group, index);
    UndoDisk(g, s.disk, g.groups[group].blockBitmap, b, index, x);
  }

  lemma GiveUndoesTakeAtOnce(g: Geometry, s: FsState, group: nat, index: nat)
    requires BaseOk(g, s)
    requires group < |g.groups| && index < g.blocksPerGroup && !BitAt(BlockMaps(g, s.disk)[group], index)
    ensures DiskOk(g, TakeBlock(g, s, group, index).disk)
    ensures GiveBlock(g, TakeBlock(g, s, group, index), group, index) == s
  {
    TakeBlockCountsPositive(g, s, group, index);
    ClearAfterSet(s.disk[g.groups[group].blockBitmap], index);
  }

  // ---- inode bitmap ----

  function TakeInode(g: Geometry, s: FsState, group: nat, index: nat): FsState
    requires g.Valid() && DiskOk(g, s.disk) && |s.counts| == |g.groups|
    requires group < |g.groups| && index < g.inodesPerGroup
  {
    var bm := g.groups[group].inodeBitmap;
    FsState(s.disk[bm := SetBitAt(s.disk[bm], index)],
            s.counts[group := s.counts[group].(inodesLo := Dec(s.counts[group].inodesLo, 0x10000))],
            s.sbBlocks, Dec(s.sbInodes, WORD))
  }

  function GiveInode(g: Geometry, s: FsState, group: nat, index: nat): FsState
    requires g.Valid() && DiskOk(g, s.disk) && |s.counts| == |g.groups|
    requires group < |g.groups| && index < g.inodesPerGroup
  {
    var bm := g.groups[group].inodeBitmap;
    FsState(s.disk[bm := ClearBitAt(s.disk[bm], index)],
            s.counts[group := s.counts[group].(inodesLo := Inc(s.counts[group].inodesLo, 0x10000))],
            s.sbBlocks, Inc(s.sbInodes, WORD))
  }

  lemma InodeBitmapApart(g: Geometry, disk: Disk, t: Targets, inodes: Inodes, group: nat)
    requires g.Valid() && DiskOk(g, disk) && Owned(g, disk, t) && t == AllTargets(g, disk, inodes) && group < |g.groups|
    ensures var b := g.groups[group].inodeBitmap;
            && (forall i :: 0 <= i < |g.groups| && i != group ==> g.groups[i].inodeBitmap != b)
            && (forall i: nat, k: nat :: g.HasTableBlock(i, k) ==> g.TableBlock(i, k) != b)
            && NotBlockBitmap(g, b)
            && NotPointerBlock(t, b)
  {
    var p := InodeBitmap(group);
    NamedOnce(g, disk, t, p);
    forall i: nat | i < |g.groups| && i != group ensures g.groups[i].inodeBitmap != t[p] {
      assert t[InodeBitmap(i)] != t[p];
    }
    forall i: nat | i < |g.groups| ensures g.groups[i].blockBitmap != t[p] {
      assert t[BlockBitmap(i)] != t[p];
    }
    forall i: nat, k: nat | g.HasTableBlock(i, k) ensures g.TableBlock(i, k) != t[p] {
      assert t[InodeTable(i, k)] != t[p];
    }
  }

  lemma InodeMapsAfter(g: Geometry, disk: Disk, group: nat, bits: Buffer)
    requires g.Valid() && DiskOk(g, disk) && group < |g.groups| && |bits| == g.blockSize
    requires var b := g.groups[group].inodeBitmap;
             && (forall i :: 0 <= i < |g.groups| && i != group ==> g.groups[i].inodeBitmap != b)
             && (forall i: nat, k: nat :: g.HasTableBlock(i, k) ==> g.TableBlock(i, k) != b)
    ensures var disk' := disk[g.groups[group].inodeBitmap := bits];
            && DiskOk(g, disk')
            && InodeMaps(g, disk') == InodeMaps(g, disk)[group := bits]
            && (forall ino :: g.HasInode(ino) ==> InodeBlock(g, ino) in disk)
            && (forall ino :: g.HasInode(ino) ==> InodeAt(g, disk', ino) == InodeAt(g, disk, ino))
  {
    forall ino | g.HasInode(ino)
      ensures InodeBlock(g, ino) in disk && InodeBlock(g, ino) != g.groups[group].inodeBitmap
    {
      InodeHome(g, ino);
    }
  }

  lemma InodesAfterSet(g: Geometry, disk: Disk, disk': Disk, group: nat, index: nat)
    requires g.Valid() && DiskOk(g, disk) && DiskOk(g, disk') && group < |g.groups| && index < g.inodesPerGroup
    requires InodeMaps(g, disk') == InodeMaps(g, disk)[group := SetBitAt(InodeMaps(g, disk)[group], index)]
    ensures forall ino :: InodeUsed(g, disk', ino) <==> ino == g.InodeNo(group, index) || InodeUsed(g, disk, ino)
  {
    forall ino: nat
      ensures InodeUsed(g, disk', ino) <==> ino == g.InodeNo(group, index) || InodeUsed(g, disk, ino)
    {
      InodeNumbering(g, group, index, ino);
      if g.HasInode(ino) && g.InodeGroup(ino) == group {
        SetBitAtBits(InodeMaps(g, disk)[group], index, g.InodeIndex(ino));
      }
    }
  }

  lemma InodesAfterClear(g: Geometry, disk: Disk, disk': Disk, group: nat, index: nat)
    requires g.Valid() && DiskOk(g, disk) && DiskOk(g, disk') && group < |g.groups| && index < g.inodesPerGroup
    requires InodeMaps(g, disk') == InodeMaps(g, disk)[group := ClearBitAt(InodeMaps(g, disk)[group], index)]
    ensures forall ino :: InodeUsed(g, disk', ino) <==> ino != g.InodeNo(group, index) && InodeUsed(g, disk, ino)
  {
    forall ino: nat
      ensures InodeUsed(g, disk', ino) <==> ino != g.InodeNo(group, index) && InodeUsed(g, disk, ino)
    {
      InodeNumbering(g, group, index, ino);
      if g.HasInode(ino) && g.InodeGroup(ino) == group {
        ClearBitAtBits(InodeMaps(g, disk)[group], index, g.InodeIndex(ino));
      }
    }
  }

  lemma TakeInodeCounts(g: Geometry, s: FsState, group: nat, index: nat)
    requires BaseOk(g, s) && group < |g.groups| && index < g.inodesPerGroup
             && !BitAt(InodeMaps(g, s.disk)[group], index)
    requires var s' := TakeInode(g, s, group, index);
             && DiskOk(g, s'.disk) && BlockMaps(g, s'.disk) == BlockMaps(g, s.disk)
             && InodeMaps(g, s'.disk) == InodeMaps(g, s.disk)[group := SetBitAt(InodeMaps(g, s.disk)[group], index)]
    ensures CountsOk(g, TakeInode(g, s, group, index))
  {
    CountsTakeInode(g, InodeMaps(g, s.disk), s.counts, s.sbInodes, group, index);
  }

  lemma GiveInodeCounts(g: Geometry, s: FsState, group: nat, index: nat)
    requires BaseOk(g, s) && group < |g.groups| && index < g.inodesPerGroup
    requires var s' := GiveInode(g, s, group, index);
             && DiskOk(g, s'.disk) && BlockMaps(g, s'.disk) == BlockMaps(g, s.disk)
             && InodeMaps(g, s'.disk) == InodeMaps(g, s.disk)[group := ClearBitAt(InodeMaps(g, s.disk)[group], index)]
    ensures CountsOk(g, GiveInode(g, s, group, index)) <==> BitAt(InodeMaps(g, s.disk)[group], index)
  {
    CountsGiveInode(g, InodeMaps(g, s.disk), s.counts, s.sbInodes, group, index);
    TotalsBelow(g, s);
  }

  lemma InodesRemoved(g: Geometry, disk: Disk, disk': Disk, ino: nat)
    requires g.Valid() && DiskOk(g, disk) && DiskOk(g, disk')
    requires forall i :: InodeUsed(g, disk', i) <==> i != ino && InodeUsed(g, disk, i)
    requires forall i :: g.HasInode(i) ==> InodeBlock(g, i) in disk && InodeBlock(g, i) in disk'
    requires forall i :: g.HasInode(i) ==> InodeAt(g, disk', i) == InodeAt(g, disk, i)
    ensures DiskInodes(g, disk') == DiskInodes(g, disk) - {ino}
  {
  }

  /** Taking a free inode number adds exactly that number to the used ones. */
  lemma TakeInodeKeeps(g: Geometry, s: FsState, inodes: Inodes, group: nat, index: nat)
    requires Consistent(g, s, inodes)
    requires group < |g.groups| && index < g.inodesPerGroup && !BitAt(InodeMaps(g, s.disk)[group], index)
    ensures var s', ino := TakeInode(g, s, group, index), g.InodeNo(group, index);
            && Consistent(g, s', inodes)
            && AllTargets(g, s'.disk, inodes) == AllTargets(g, s.disk, inodes)
            && BlockMaps(g, s'.disk) == BlockMaps(g, s.disk)
            && g.HasInode(ino) && !InodeUsed(g, s.disk, ino)
            && ino in DiskInodes(g, s'.disk) && DiskInodes(g, s'.disk) - {ino} == DiskInodes(g, s.disk)
  {
    var s', ino := TakeInode(g, s, group, index), g.InodeNo(group, index);
    var bm, t := g.groups[group].inodeBitmap, AllTargets(g, s.disk, inodes);
    var bits := SetBitAt(s.disk[bm], index);
    InodeBitmapApart(g, s.disk, t, inodes, group);
    InodeMapsAfter(g, s.disk, group, bits);
    BlockFrame(g, s.disk, bm, bits);
    WriteKeepsTargets(g, s.disk, inodes, bm, bits);
    TakeInodeCounts(g, s, group, index);
    InodesAfterSet(g, s.disk, s'.disk, group, index);
    InodeNumbering(g, group, index, ino);
    InodesRemoved(g, s'.disk, s.disk, ino);
    OwnedFrame(g, s.disk, s'.disk, t);
  }

  /** Giving back an inode number takes exactly it out of the used ones. Counters and ownership are
      kept if and only if it was in use. */
  lemma GiveInodeKeeps(g: Geometry, s: FsState, inodes: Inodes, group: nat, index: nat)
    requires Consistent(g, s, inodes)
    requires group < |g.groups| && index < g.inodesPerGroup
    ensures var s', ino := GiveInode(g, s, group, index), g.InodeNo(group, index);
            && DiskOk(g, s'.disk) && (Consistent(g, s', inodes) <==> BitAt(InodeMaps(g, s.disk)[group], index))
            && AllTargets(g, s'.disk, inodes) == AllTargets(g, s.disk, inodes)
            && BlockMaps(g, s'.disk) == BlockMaps(g, s.disk)
            && DiskInodes(g, s'.disk) == DiskInodes(g, s.disk) - {ino}
  {
    var s', ino := GiveInode(g, s, group, index), g.InodeNo(group, index);
    var bm, t := g.groups[group].inodeBitmap, AllTargets(g, s.disk, inodes);
    var bits := ClearBitAt(s.disk[bm], index);
    InodeBitmapApart(g, s.disk, t, inodes, group);
    InodeMapsAfter(g, s.disk, group, bits);
    BlockFrame(g, s.disk, bm, bits);
    WriteKeepsTargets(g, s.disk, inodes, bm, bits);
    GiveInodeCounts(g, s, group, index);
    InodesAfterClear(g, s.disk, s'.disk, group, index);
    InodesRemoved(g, s.disk, s'.disk, ino);
    OwnedFrame(g, s.disk, s'.disk, t);
  }

  // ---- inode table ----

  function WriteInode(g: Geometry, s: FsState, ino: nat, i: Inode): FsState
    requires g.Valid() && DiskOk(g, s.disk) && g.HasInode(ino)
  {
    InodeHome(g, ino);
    s.(disk := s.disk[InodeBlock(g, ino) := PasteInode(g, s.disk[InodeBlock(g, ino)], ino, i)])
  }

  lemma SharedTableBlock(g: Geometry, disk: Disk, t: Targets, inodes: Inodes, ino: nat, other: nat)
    requires g.Valid() && DiskOk(g, disk) && Owned(g, disk, t) && t == AllTargets(g, disk, inodes)
    requires g.HasInode(ino) && g.HasInode(other) && InodeBlock(g, other) == InodeBlock(g, ino)
    ensures SameTableBlock(g, ino, other)
  {
    InodeHome(g, ino);
    InodeHome(g, other);
    var p, q := InodeTable(g.InodeGroup(ino), g.TableIndex(ino)), InodeTable(g.InodeGroup(other), g.TableIndex(other));
    assert p in t && q in t && t[p] == t[q];
  }

  lemma InodeTableApart(g: Geometry, disk: Disk, t: Targets, inodes: Inodes, ino: nat)
    requires g.Valid() && DiskOk(g, disk) && Owned(g, disk, t) && t == AllTargets(g, disk, inodes) && g.HasInode(ino)
    ensures var b := InodeBlock(g, ino);
            && b in disk && NotBlockBitmap(g, b) && NotPointerBlock(t, b)
            && (forall i :: 0 <= i < |g.groups| ==> g.groups[i].inodeBitmap != b)
            && (forall other :: g.HasInode(other) && InodeBlock(g, other) == b ==> SameTableBlock(g, ino, other))
  {
    InodeHome(g, ino);
    var p := InodeTable(g.InodeGroup(ino), g.TableIndex(ino));
    NamedOnce(g, disk, t, p);
    forall i: nat | i < |g.groups| ensures g.groups[i].blockBitmap != t[p] && g.groups[i].inodeBitmap != t[p] {
      assert t[BlockBitmap(i)] != t[p] && t[InodeBitmap(i)] != t[p];
    }
    forall other | g.HasInode(other) && InodeBlock(g, other) == t[p]
      ensures SameTableBlock(g, ino, other)
    {
      SharedTableBlock(g, disk, t, inodes, ino, other);
    }
  }

  lemma WriteInodeStoredAt(g: Geometry, disk: Disk, ino: nat, i: Inode, other: nat)
    requires g.Valid() && DiskOk(g, disk) && g.HasInode(ino) && g.HasInode(other) && InodeBlock(g, ino) in disk
    requires InodeBlock(g, other) == InodeBlock(g, ino) ==> SameTableBlock(g, ino, other)
    ensures InodeBlock(g, other) in disk
    ensures var b := InodeBlock(g, ino);
            InodeAt(g, disk[b := PasteInode(g, disk[b], ino, i)], other) ==
            if other == ino then i else InodeAt(g, disk, other)
  {
    InodeHome(g, other);
    if other == ino {
      PasteInodeSelf(g, disk, ino, i, disk[InodeBlock(g, ino)]);
    } else {
      PasteInodeOther(g, disk, ino, i, other);
    }
  }

  lemma WriteInodeStored(g: Geometry, disk: Disk, ino: nat, i: Inode)
    requires g.Valid() && DiskOk(g, disk) && g.HasInode(ino) && InodeBlock(g, ino) in disk
    requires var b := InodeBlock(g, ino);
             forall other :: g.HasInode(other) && InodeBlock(g, other) == b ==> SameTableBlock(g, ino, other)
    ensures var b := InodeBlock(g, ino);
            var disk' := disk[b := PasteInode(g, disk[b], ino, i)];
            && DiskOk(g, disk') && InodeBlock(g, ino) in disk'
            && (forall other :: g.HasInode(other) ==> InodeBlock(g, other) in disk)
            && (forall other :: g.HasInode(other) ==>
                  InodeAt(g, disk', other) == if other == ino then i else InodeAt(g, disk, other))
  {
    var b := InodeBlock(g, ino);
    var disk' := disk[b := PasteInode(g, disk[b], ino, i)];
    forall other | g.HasInode(other)
      ensures InodeBlock(g, other) in disk
      ensures InodeAt(g, disk', other) == if other == ino then i else InodeAt(g, disk, other)
    {
      WriteInodeStoredAt(g, disk, ino, i, other);
    }
  }

  /** Writing an inode changes that stored inode and nothing else. */
  lemma WriteInodeKeeps(g: Geometry, s: FsState, inodes: Inodes, ino: nat, i: Inode)
    requires Consistent(g, s, inodes) && g.HasInode(ino)
    ensures var s' := WriteInode(g, s, ino, i);
            && Consistent(g, s', inodes)
            && AllTargets(g, s'.disk, inodes) == AllTargets(g, s.disk, inodes)
            && BlockMaps(g, s'.disk) == BlockMaps(g, s.disk) && InodeMaps(g, s'.disk) == InodeMaps(g, s.disk)
            && DiskInodes(g, s'.disk) ==
               if InodeUsed(g, s.disk, ino) then DiskInodes(g, s.disk)[ino := i] else DiskInodes(g, s.disk)
  {
    InodeHome(g, ino);
    var t, b := AllTargets(g, s.disk, inodes), InodeBlock(g, ino);
    var x := PasteInode(g, s.disk[b], ino, i);
    InodeTableApart(g, s.disk, t, inodes, ino);
    BlockFrame(g, s.disk, b, x);
    WriteKeepsTargets(g, s.disk, inodes, b, x);
    OwnedFrame(g, s.disk, s.disk[b := x], t);
    assert InodeMaps(g, s.disk[b := x]) == InodeMaps(g, s.disk);
    WriteInodeStored(g, s.disk, ino, i);
  }
}
