/** The driver itself: the operations of kernel/fs/ext4.c on a mounted file system. */
module Ext4Driver {
  import opened Bytes
  import opened Arith
  import opened Ext4Layout
  import opened Ext4Ownership
  import opened Ext4Alloc
  import opened Ext4State
  import opened Ext4Steps
  import opened Ext4Files
  import opened Ext4Strays
  import opened Ext4Content
  import opened Ext4Dir
  import opened Ext4Names
  import opened Ext4Create

  class Ext4 {
    const g: Geometry
    var disk: Disk
    var counts: seq<Counts>
    var sbFreeBlocks: nat
    var sbFreeInodes: nat

    constructor (g: Geometry, s: FsState)
      ensures this.g == g && State() == s
    {
      this.g := g;
      disk, counts, sbFreeBlocks, sbFreeInodes := s.disk, s.counts, s.sbBlocks, s.sbInodes;
    }

    ghost function State(): FsState
      reads this
    {
      FsState(disk, counts, sbFreeBlocks, sbFreeInodes)
    }

    // ---- bitmaps ----

    /** The scan shared by both allocators: bytes of the bitmap, then bits of a byte that
        is not full; a clear bit at or beyond limit only ends the scan of its byte. */
    static method FindClear(bitmap: Buffer, bytes: nat, limit: nat) returns (found: bool, index: nat)
      requires bytes <= |bitmap|
      ensures var n := if limit < 8 * bytes then limit else 8 * bytes;
              found == (LowestClear(bitmap, n) < n) && (found ==> index == LowestClear(bitmap, n))
    {
      found, index := false, 0;
      ghost var n := if limit < 8 * bytes then limit else 8 * bytes;
      var byte := 0;
      while byte < bytes
        invariant byte <= bytes
        invariant forall j: nat :: j < 8 * byte && j < limit ==> BitAt(bitmap, j)
      {
        FullByte(bitmap[byte]);
        if bitmap[byte] != 0xFF {
          var bit := 0;
          while bit < 8
            invariant bit <= 8
            invariant forall j: nat :: j < 8 * byte + bit && j < limit ==> BitAt(bitmap, j)
          {
            if !Bit(bitmap[byte], bit) {
              var i := byte * 8 + bit;
              assert !BitAt(bitmap, i);
              if i >= limit {
                break;
              }
              LowestClearIs(bitmap, n, i);
              return true, i;
            }
            assert BitAt(bitmap, 8 * byte + bit);
            bit := bit + 1;
          }
        } else {
          forall j: nat | 8 * byte <= j < 8 * byte + 8 ensures BitAt(bitmap, j) {
            var bit: nat := j % 8;
            assert Bit(bitmap[byte], bit);
          }
        }
        byte := byte + 1;
      }
      LowestClearIs(bitmap, n, n);
    }

    method AllocBlock(preferred: nat) returns (r: int)
      requires BaseOk(g, State())
      modifies this
      ensures match Choose(BlockMaps(g, old(disk)), g.blocksPerGroup, preferred, 0)
              case Full => r == -1 && State() == old(State())
              case Chosen(group, index) =>
                r == g.BlockNo(group, index) && State() == TakeBlock(g, old(State()), group, index)
    {
      hide BitAt, SetBitAt, LowestClear, FreeBlocksUsable, ClearBits, TotalClear;
      var n := |g.groups|;
      ghost var maps := BlockMaps(g, disk);
      for k := 0 to n
        invariant State() == old(State())
        invariant Choose(maps, g.blocksPerGroup, preferred, 0) == Choose(maps, g.blocksPerGroup, preferred, k)
      {
        var group := (preferred + k) % n;
        assert group == Cyclic(preferred, k, n);
        ClearBitsZero(maps[group], g.blocksPerGroup);
        if FreeBlockCount(g, counts[group]) != 0 {
          var bitmapBlock := g.groups[group].blockBitmap;
          var bitmap := disk[bitmapBlock];
          var found, index := FindClear(bitmap, g.blockSize, g.blocksPerGroup);
          if found {
            disk := disk[bitmapBlock := SetBitAt(bitmap, index)];
            counts := counts[group := counts[group].(blocksLo := Dec(counts[group].blocksLo, 0x10000))];
            sbFreeBlocks := Dec(sbFreeBlocks, WORD);
            return g.firstDataBlock + group * g.blocksPerGroup + index;
          }
        }
      }
      return -1;
    }

    /** AllocBlock as the file operations use it: the new block is spare, and no file,
        inode or other spare block is disturbed. */
    method AllocSpare(preferred: nat, ghost inodes: Inodes) returns (r: int)
      requires Consistent(g, State(), inodes)
      modifies this
      ensures r == -1 <==> old(sbFreeBlocks) == 0
      ensures r == -1 ==> State() == old(State())
      ensures r != -1 ==>
        && 0 < r < 0x8000_0000 && Taken(g, old(State()), State(), r) && sbFreeBlocks == old(sbFreeBlocks) - 1
        && Grows(g, old(disk), disk) && r !in Strays(g, old(disk), inodes)
        && Strays(g, disk, inodes) == Strays(g, old(disk), inodes) + iset{r}
        && Consistent(g, State(), inodes) && SameFiles(g, old(disk), inodes, disk, inodes)
        && DiskInodes(g, disk) == old(DiskInodes(g, disk))
        && Spare(g, disk, inodes, r) && r in old(disk) && Unnamed(AllTargets(g, old(disk), inodes), r)
        && forall c :: Spare(g, old(disk), inodes, c) ==>
             c != r && Spare(g, disk, inodes, c) && disk[c] == old(disk)[c]
    {
      ghost var s := State();
      r := AllocBlock(preferred);
      if r == -1 {
        FullMeansZero(g, s, preferred);
      } else {
        ghost var c := Choose(BlockMaps(g, s.disk), g.blocksPerGroup, preferred, 0);
        AllocatedIsSpare(g, s, inodes, c.group, c.index);
        BlockNumbering(g, c.group, c.index, r);
        TakeBlockCountsPositive(g, s, c.group, c.index);
        StraysTake(g, s, inodes, c.group, c.index);
      }
    }

    method FreeBlock(block: nat) returns (r: int)
      requires BaseOk(g, State())
      modifies this
      ensures if block >= g.firstDataBlock && g.BlockGroup(block) < |g.groups|
              then r == 0 && State() == GiveBlock(g, old(State()), g.BlockGroup(block), g.BlockIndex(block))
              else r == -1 && State() == old(State())
    {
      if block < g.firstDataBlock {
        return -1;
      }
      var group, index := g.BlockGroup(block), g.BlockIndex(block);
      if group >= |g.groups| {
        return -1;
      }
      var bitmapBlock := g.groups[group].blockBitmap;
      var bitmap := disk[bitmapBlock];
      disk := disk[bitmapBlock := ClearBitAt(bitmap, index)];
      counts := counts[group := counts[group].(blocksLo := Inc(counts[group].blocksLo, 0x10000))];
      sbFreeBlocks := Inc(sbFreeBlocks, WORD);
      return 0;
    }

    /** Only whole bytes of the inode bitmap are searched. */
    method AllocInode(preferred: nat) returns (r: int)
      requires BaseOk(g, State())
      modifies this
      ensures match Choose(InodeMaps(g, old(disk)), g.inodesPerGroup / 8 * 8, preferred, 0)
              case Full => r == -1 && State() == old(State())
              case Chosen(group, index) =>
                r == g.InodeNo(group, index) && State() == TakeInode(g, old(State()), group, index)
    {
      hide BitAt, SetBitAt, LowestClear, FreeBlocksUsable, ClearBits, TotalClear;
      var n := |g.groups|;
      ghost var maps := InodeMaps(g, disk);
      ghost var limit := g.inodesPerGroup / 8 * 8;
      for k := 0 to n
        invariant State() == old(State())
        invariant Choose(maps, limit, preferred, 0) == Choose(maps, limit, preferred, k)
      {
        var group := (preferred + k) % n;
        assert group == Cyclic(preferred, k, n);
        ClearBitsZero(maps[group], g.inodesPerGroup);
        if FreeInodeCount(g, counts[group]) != 0 {
          var bitmapBlock := g.groups[group].inodeBitmap;
          var bitmap := disk[bitmapBlock];
          var found, index := FindClear(bitmap, g.inodesPerGroup / 8, g.inodesPerGroup);
          if found {
            disk := disk[bitmapBlock := SetBitAt(bitmap, index)];
            counts := counts[group := counts[group].(inodesLo := Dec(counts[group].inodesLo, 0x10000))];
            sbFreeInodes := Dec(sbFreeInodes, WORD);
            return group * g.inodesPerGroup + index + 1;
          }
        }
      }
      return -1;
    }

    method FreeInode(ino: nat) returns (r: int)
      requires BaseOk(g, State())
      modifies this
      ensures if g.HasInode(ino)
              then r == 0 && State() == GiveInode(g, old(State()), g.InodeGroup(ino), g.InodeIndex(ino))
              else r == -1 && State() == old(State())
    {
      if ino == 0 {
        return -1;
      }
      var group, index := g.InodeGroup(ino), g.InodeIndex(ino);
      if group >= |g.groups| {
        return -1;
      }
      var bitmapBlock := g.groups[group].inodeBitmap;
      var bitmap := disk[bitmapBlock];
      disk := disk[bitmapBlock := ClearBitAt(bitmap, index)];
      counts := counts[group := counts[group].(inodesLo := Inc(counts[group].inodesLo, 0x10000))];
      sbFreeInodes := Inc(sbFreeInodes, WORD);
      return 0;
    }

    // ---- inodes ----

    method ReadInode(ino: nat) returns (r: int, inode: Inode)
      requires g.Valid() && DiskOk(g, disk)
      ensures if g.HasInode(ino)
              then r == 0 && InodeBlock(g, ino) in disk && inode == InodeAt(g, disk, ino)
              else r == -1
    {
      inode := Zeros(INODE_BYTES);
      if ino == 0 {
        return -1, inode;
      }
      var group, index := g.InodeGroup(ino), g.InodeIndex(ino);
      if group >= |g.groups| {
        return -1, inode;
      }
      InodeHome(g, ino);
      var block := g.groups[group].inodeTable + index * g.inodeSize / g.blockSize;
      var offset := index * g.inodeSize % g.blockSize;
      var buf := disk[block];
      inode := buf[offset..offset + INODE_BYTES];
      return 0, inode;
    }

    method StoreInode(ino: nat, inode: Inode) returns (r: int)
      requires g.Valid() && DiskOk(g, disk)
      modifies this
      ensures if g.HasInode(ino) then r == 0 && State() == WriteInode(g, old(State()), ino, inode)
              else r == -1 && State() == old(State())
    {
      if ino == 0 {
        return -1;
      }
      var group, index := g.InodeGroup(ino), g.InodeIndex(ino);
      if group >= |g.groups| {
        return -1;
      }
      InodeHome(g, ino);
      var block := g.groups[group].inodeTable + index * g.inodeSize / g.blockSize;
      var offset := index * g.inodeSize % g.blockSize;
      var buf := disk[block];
      disk := disk[block := buf[..offset] + inode + buf[offset + INODE_BYTES..]];
      return 0;
    }

    // ---- block map ----

    /** The disk block of file block fb of the file whose inode is at hand; 0 for a hole. */
    method GetFileBlock(inode: Inode, fb: nat, ghost ino: nat, ghost inodes: Inodes) returns (block: nat)
      requires Consistent(g, State(), inodes) && ino in inodes && inodes[ino] == inode
      ensures block == FileBlock(g, disk, inodes, ino, fb)
    {
      hide FileBlock, AllTargets, Owned, CountsOk, FreeBlocksUsable, Target, PlaceOf;
      if fb < N_DIRECT {
        MapDirect(g, disk, inodes, ino, fb);
        return Slot(inode, fb);
      }
      var r := fb - N_DIRECT;
      var pointers := g.blockSize / 4;
      if r < pointers {
        MapIndirect(g, State(), inodes, ino, fb);
        if Slot(inode, IND) == 0 {
          return 0;
        }
        var indirect := disk[Slot(inode, IND)];
        return Get32(indirect, 4 * r);
      }
      r := r - pointers;
      if r < pointers * pointers {
        Quotients(r, pointers);
        var i, j := r / pointers, r % pointers;
        MapDouble(g, State(), inodes, ino, fb, i, j);
        if Slot(inode, DIND) == 0 {
          return 0;
        }
        var dind := disk[Slot(inode, DIND)];
        if Get32(dind, 4 * i) == 0 {
          return 0;
        }
        var ind := disk[Get32(dind, 4 * i)];
        return Get32(ind, 4 * j);
      }
      NotMapped(g, disk, inodes, ino, fb);
      return 0;
    }

    /** Gives the file an empty indirect block if it has none. */
    method NeedIndirect(inode: Inode, ino: nat, ghost diskBlock: nat, ghost inodes: Inodes)
      returns (r: int, inode': Inode)
      requires Consistent(g, State(), inodes) && ino in inodes && inodes[ino] == inode && ino > 0
      requires Spare(g, disk, inodes, diskBlock)
      modifies this
      ensures r == 0 || r == -1
      ensures r == 0 ==>
        && Consistent(g, State(), WithInode(inodes, ino, inode'))
        && SameFiles(g, old(disk), inodes, disk, WithInode(inodes, ino, inode'))
        && Spare(g, disk, WithInode(inodes, ino, inode'), diskBlock) && disk[diskBlock] == old(disk)[diskBlock]
        && Slot(inode', IND) != 0 && SameButSlots(inode, inode')
        && DiskInodes(g, disk) == old(DiskInodes(g, disk))
        && Conserved(g, old(disk), inodes, disk, WithInode(inodes, ino, inode'))
        && sbFreeBlocks == old(sbFreeBlocks) - if Slot(inode, IND) == 0 then 1 else 0
      ensures r == -1 ==> State() == old(State()) && inode' == inode
      ensures r == -1 <==> Slot(inode, IND) == 0 && old(sbFreeBlocks) == 0
    {
      hide AllContents, AllTargets, Owned, CountsOk, FreeBlocksUsable, BlockUsed, FileBlock;
      hide DiskInodes, WithSlot, Strays, Grows;
      if Slot(inode, IND) != 0 {
        assert WithInode(inodes, ino, inode) == inodes;
        ConservedSelf(g, disk, inodes);
        return 0, inode;
      }
      var newBlock := AllocSpare(g.InodeGroup(ino), inodes);
      if newBlock < 0 {
        return -1, inode;
      }
      ghost var s := State();
      NewIndirect(g, s, inodes, ino, newBlock, diskBlock);
      WithSlotSame(inode, IND, newBlock);
      disk := disk[newBlock := Zeros(g.blockSize)];
      inode' := WithSlot(inode, IND, newBlock);
      StraysLinkIndirect(g, s, inodes, State(), WithInode(inodes, ino, inode'), ino, newBlock);
      GrowsTrans(g, old(disk), s.disk, disk);
      return 0, inode';
    }

    /** Points file block fb at a spare disk block. The inode is the caller's copy. */
    method SetFileBlock(inode: Inode, fb: nat, diskBlock: nat, ino: nat, ghost inodes: Inodes)
      returns (r: int, inode': Inode)
      requires Consistent(g, State(), inodes) && ino in inodes && inodes[ino] == inode && ino > 0
      requires Spare(g, disk, inodes, diskBlock)
      modifies this
      ensures r == 0 || r == -1
      ensures r == 0 ==>
        && fb < N_DIRECT + g.Pointers()
        && Consistent(g, State(), WithInode(inodes, ino, inode'))
        && MapUpdate(g, old(disk), inodes, disk, WithInode(inodes, ino, inode'), ino, fb, diskBlock)
        && AllContents(g, disk, WithInode(inodes, ino, inode')) ==
           AllContents(g, old(disk), inodes)[(ino, fb) := BlockAt(disk, diskBlock)]
        && BlockAt(disk, diskBlock) == BlockAt(old(disk), diskBlock)
        && SameButSlots(inode, inode')
        && DiskInodes(g, disk) == old(DiskInodes(g, disk))
        && sbFreeBlocks == old(sbFreeBlocks) + 1 - MapCost(inode, fb) && Grows(g, old(disk), disk)
        && Strays(g, disk, WithInode(inodes, ino, inode')) ==
           Strays(g, old(disk), inodes) - iset{diskBlock} + Block(FileBlock(g, old(disk), inodes, ino, fb))
      ensures r == -1 ==> State() == old(State()) && inode' == inode
      ensures r == 0 <==> CanMap(g, inode, fb, old(sbFreeBlocks) + 1)
    {
      hide CountsOk, FreeBlocksUsable, Owned, AllTargets, AllContents, FileBlock, DiskInodes, MapUpdate;
      hide Strays, Block, Grows, BlockUsed;
      inode' := inode;
      if fb < N_DIRECT {
        LinkDirect(g, State(), inodes, ino, fb, diskBlock);
        WithSlotSame(inode, fb, diskBlock);
        inode' := WithSlot(inode, fb, diskBlock);
        StraysLinkBlock(g, State(), inodes, State(), WithInode(inodes, ino, inode'), ino, fb, diskBlock);
        return 0, inode';
      }
      var e := fb - N_DIRECT;
      if e < g.blockSize / 4 {
        r, inode' := NeedIndirect(inode, ino, diskBlock, inodes);
        if r < 0 {
          return -1, inode;
        }
        ghost var s1, inodes1 := State(), WithInode(inodes, ino, inode');
        IndirectBlock(g, s1, inodes1, ino);
        var ind := Slot(inode', IND);
        var indirect := Put32(disk[ind], 4 * e, diskBlock);
        disk := disk[ind := indirect];
        LinkThroughIndirect(g, old(disk), inodes, s1, State(), inodes1, ino, fb, diskBlock);
        StraysLinkBlock(g, s1, inodes1, State(), inodes1, ino, fb, diskBlock);
        GrowsTrans(g, old(disk), s1.disk, disk);
        return 0, inode';
      }
      return -1, inode;
    }

    // ---- file write ----

    /** Maps file block fb of the caller's inode copy to a new block, or leaves everything
        as it was. */
    method MapNewBlock(inode: Inode, fb: nat, ino: nat, ghost inodes: Inodes) returns (block: nat, inode': Inode)
      requires Consistent(g, State(), inodes) && ino in inodes && inodes[ino] == inode && ino > 0
      modifies this
      ensures block == 0 ==> State() == old(State()) && inode' == inode
      ensures block != 0 <==> CanMap(g, inode, fb, old(sbFreeBlocks))
      ensures block != 0 ==>
        && Consistent(g, State(), WithInode(inodes, ino, inode'))
        && FileBlock(g, disk, WithInode(inodes, ino, inode'), ino, fb) == block
        && AllContents(g, disk, WithInode(inodes, ino, inode')) ==
           AllContents(g, old(disk), inodes)[(ino, fb) := BlockAt(disk, block)]
        && SameButSlots(inode, inode')
        && DiskInodes(g, disk) == old(DiskInodes(g, disk))
        && sbFreeBlocks == old(sbFreeBlocks) - MapCost(inode, fb) && Grows(g, old(disk), disk)
        && Strays(g, disk, WithInode(inodes, ino, inode')) ==
           Strays(g, old(disk), inodes) + Block(FileBlock(g, old(disk), inodes, ino, fb))
    {
      hide Strays, Block, Grows, BlockUsed, AllTargets, AllContents, Owned, CountsOk, FreeBlocksUsable;
      var newBlock := AllocSpare(g.InodeGroup(ino), inodes);
      if newBlock < 0 {
        return 0, inode;
      }
      ghost var s := State();
      var r;
      r, inode' := SetFileBlock(inode, fb, newBlock, ino, inodes);
      if r < 0 {
        GiveUndoesTakeAtOnce(g, old(State()), g.BlockGroup(newBlock), g.BlockIndex(newBlock));
        var _ := FreeBlock(newBlock);
        return 0, inode;
      }
      GrowsTrans(g, old(disk), s.disk, disk);
      return newBlock, inode';
    }

    /** The block a write goes to, mapped first if need be, and what it holds so far. */
    method BlockForWrite(inode: Inode, fb: nat, ino: nat, ghost stored: Inodes)
      returns (block: nat, inode': Inode, data: Buffer)
      requires ino in stored && ino > 0
      requires Consistent(g, State(), WithInode(stored, ino, inode)) && DiskInodes(g, disk) == stored
      modifies this
      ensures SameButMap(inode, inode')
      ensures var found := FileBlock(g, old(disk), WithInode(stored, ino, inode), ino, fb);
              Blocks512(inode') ==
              if block == 0 || found != 0 then Blocks512(inode) else (Blocks512(inode) + g.blockSize / 512) % WORD
      ensures block == 0 ==>
        && State() == old(State()) && inode' == inode
        && MapFails(g, State(), WithInode(stored, ino, inode), ino, fb)
      ensures block != 0 ==>
        var was, now := AllContents(g, old(disk), WithInode(stored, ino, inode)), WithInode(stored, ino, inode');
        && Consistent(g, State(), now) && DiskInodes(g, disk) == stored
        && FileBlock(g, disk, now, ino, fb) == block && |data| == g.blockSize
        && data == (if (ino, fb) in was then was[(ino, fb)] else Zeros(g.blockSize))
        && AllContents(g, disk, now) == was[(ino, fb) := BlockAt(disk, block)]
        && Conserved(g, old(disk), WithInode(stored, ino, inode), disk, now)
    {
      hide CountsOk, FreeBlocksUsable, Owned, AllTargets, AllContents, FileBlock, DiskInodes;
      hide WithBlocks512, Blocks512, BlockUsed, Strays, Grows;
      ghost var inodes := WithInode(stored, ino, inode);
      block := GetFileBlock(inode, fb, ino, inodes);
      inode' := inode;
      data := [];
      FileBlockStored(g, State(), inodes, ino, fb);
      if block == 0 {
        block, inode' := MapNewBlock(inode, fb, ino, inodes);
        if block == 0 {
          return 0, inode, data;
        }
        ghost var inode1 := inode';
        inode' := WithBlocks512(inode', Blocks512(inode') + g.blockSize / 512);
        data := Zeros(g.blockSize);
        WithBlocksSame(inode, inode1, Blocks512(inode1) + g.blockSize / 512);
        BlocksRaised(inode, inode1, g.blockSize / 512);
        RestampInode(g, State(), WithInode(inodes, ino, inode1), ino, inode');
        WithInodeTwice(inodes, ino, inode1, inode');
        WithInodeTwice(stored, ino, inode, inode');
        StraysFrame(g, disk, WithInode(inodes, ino, inode1), disk, WithInode(stored, ino, inode'));
      } else {
        data := disk[block];
        ConservedSelf(g, disk, inodes);
        assert AllContents(g, disk, inodes) == AllContents(g, disk, inodes)[(ino, fb) := data];
      }
    }

    /** One round of the write loop: maps a block if need be and writes its share of the
        data. n == 0 means no block could be mapped. */
    method WritePart(inode: Inode, ino: nat, buf: Buffer, offset: nat, k: nat, ghost c0: Contents,
                     ghost stored: Inodes, ghost inode0: Inode)
      returns (n: nat, inode': Inode)
      requires ino > 0 && k < |buf| && Writing(g, State(), stored, c0, ino, inode, offset, buf, k)
      requires SameButMap(inode0, inode) && Counted(g, c0, ino, inode0, inode, offset, k)
      modifies this
      ensures n == 0 ==>
        && State() == old(State()) && inode' == inode
        && MapFails(g, State(), WithInode(stored, ino, inode), ino, (offset + k) / g.blockSize)
      ensures n > 0 ==> Writing(g, State(), stored, c0, ino, inode', offset, buf, k + n)
      ensures SameButMap(inode0, inode')
      ensures Counted(g, c0, ino, inode0, inode', offset, k + n)
      ensures Conserved(g, old(disk), WithInode(stored, ino, inode), disk, WithInode(stored, ino, inode'))
    {
      hide CountsOk, FreeBlocksUsable, Owned, AllTargets, AllContents, FileBlock, DiskInodes, Written, MapFails;
      hide Paste, BlockUsed, BlockAt, SameButMap, Conserved, Counted, Blocks512;
      ghost var inodes := WithInode(stored, ino, inode);
      var fb := (offset + k) / g.blockSize;
      var bo := (offset + k) % g.blockSize;
      var block, data;
      block, inode', data := BlockForWrite(inode, fb, ino, stored);
      SameButMapTrans(inode0, inode, inode');
      if block == 0 {
        ConservedSelf(g, disk, inodes);
        return 0, inode;
      }
      n := g.blockSize - bo;
      if n > |buf| - k {
        n := |buf| - k;
      }
      PartSize(offset, k, |buf|, g.blockSize);
      PartCounted(g, old(State()), stored, c0, ino, inode0, inode, inode', offset, buf, k, n);
      PartStored(g, old(State()), State(), stored, c0, ino, inode, inode', offset, buf, k, n, block, data);
      disk := disk[block := Paste(data, bo, buf, k, n)];
    }

    /** Writes buf into the file from offset on; returns how many bytes were written. It
        stops early only at a hole it cannot map. */
    method WriteFile(ino: nat, buf: Buffer, offset: nat) returns (written: int)
      requires FsValid(g, State()) && (g.HasInode(ino) ==> InodeUsed(g, disk, ino))
      requires offset + |buf| < 0x8000_0000
      modifies this
      ensures !g.HasInode(ino) ==> written == -1 && State() == old(State())
      ensures g.HasInode(ino) ==>
        && 0 <= written <= |buf|
        && FsValid(g, State())
        && FileWritten(g, old(State()), State(), ino, offset, buf, written)
        && Conserved(g, old(disk), DiskInodes(g, old(disk)), disk, DiskInodes(g, disk))
    {
      hide CountsOk, FreeBlocksUsable, Owned, AllTargets, AllContents, FileBlock;
      hide Written, BlockUsed, MapFails, FileWritten;
      hide PasteInode, WithMtime, WithSize, Size, SameButMap, DiskInodes, InodeUsed, InodeAt, Conserved, Counted;
      var r, inode := ReadInode(ino);
      if r < 0 {
        return -1;
      }
      ghost var s0, stored, inode0 := State(), DiskInodes(g, disk), inode;
      ghost var c0 := AllContents(g, disk, stored);
      WriteStarts(g, s0, ino, inode, offset, buf);
      SameButMapSelf(inode);
      SameInodes(stored, ino, inode);
      ConservedSelf(g, disk, stored);
      CountedStart(g, c0, ino, inode, offset);
      var k := 0;
      while k < |buf|
        invariant SameButMap(inode0, inode) && Counted(g, c0, ino, inode0, inode, offset, k)
        invariant Writing(g, State(), stored, c0, ino, inode, offset, buf, k)
        invariant Conserved(g, s0.disk, stored, disk, WithInode(stored, ino, inode))
      {
        var n;
        ghost var d, i := disk, inode;
        n, inode := WritePart(inode, ino, buf, offset, k, c0, stored, inode0);
        ConservedTrans(g, s0.disk, stored, d, WithInode(stored, ino, i), disk, WithInode(stored, ino, inode));
        if n == 0 {
          break;
        }
        k := k + n;
      }
      ghost var s, copy := State(), inode;
      if offset + k > Size(inode) {
        inode := WithSize(inode, offset + k);
      }
      inode := WithMtime(inode, 0);
      WriteFinishes(g, s0, s, ino, copy, inode, offset, buf, k);
      var _ := StoreInode(ino, inode);
      StraysFrame(g, s.disk, WithInode(stored, ino, copy), disk, DiskInodes(g, disk));
      ConservedTrans(g, s0.disk, stored, s.disk, WithInode(stored, ino, copy), disk, DiskInodes(g, disk));
      return k;
    }

    // ---- file read ----

    method ReadFile(ino: nat, offset: nat, len: nat) returns (r: int, out: Buffer)
      requires FsValid(g, State()) && (g.HasInode(ino) ==> InodeUsed(g, disk, ino))
      ensures !g.HasInode(ino) ==> r == -1
      ensures g.HasInode(ino) ==> r == |out| && IsRead(g, State(), ino, offset, len, out)
    {
      hide CountsOk, FreeBlocksUsable, Owned, AllTargets, AllContents, FileBlock, BlockUsed, Get32, Size, InodeBlock;
      var inode;
      out := [];
      r, inode := ReadInode(ino);
      if r < 0 {
        return -1, [];
      }
      var size := Size(inode);
      ghost var inodes := DiskInodes(g, disk);
      ghost var c := AllContents(g, disk, inodes);
      if offset >= size {
        return 0, [];
      }
      var want := if offset + len > size then size - offset else len;
      while |out| < want
        invariant Reading(g, c, ino, offset, want, out)
        decreases want - |out|
      {
        var fb := (offset + |out|) / g.blockSize;
        var bo := (offset + |out|) % g.blockSize;
        var block := GetFileBlock(inode, fb, ino, inodes);
        FileBlockStored(g, State(), inodes, ino, fb);
        if block == 0 {
          break;
        }
        var data := disk[block];
        var n := g.blockSize - bo;
        if n > want - |out| {
          n := want - |out|;
        }
        ReadRound(g, c, ino, offset, want, out, fb, n);
        out := out + data[bo..bo + n];
      }
      return |out|, out;
    }

    // ---- directories ----

    static method NameLength(name: Buffer) returns (n: nat)
      ensures n <= |name| && n <= NAME_MAX && name[..n] == CutName(name)
    {
      n := 0;
      while n < |name| && n < NAME_MAX
        invariant n <= |name| && n <= NAME_MAX
      {
        n := n + 1;
      }
    }

    /** The first record of a block with room for need more bytes. */
    static method ScanBlock(buf: Buffer, need: nat) returns (found: bool, offset: nat)
      requires Tiled(buf, 0) && need > 0
      ensures found == Room(buf, 0, need)
      ensures found ==> offset < |buf| && Boundary(buf, 0, offset) && Fits(buf, offset, need)
    {
      offset := 0;
      while offset < |buf|
        invariant offset <= |buf| && Boundary(buf, 0, offset) && Tiled(buf, offset)
        invariant Room(buf, 0, need) == Room(buf, offset, need)
      {
        if RecLen(buf, offset) == 0 {
          break;
        }
        var actual := NeededLen(NameLen(buf, offset));
        if RecLen(buf, offset) > actual {
          var slack := RecLen(buf, offset) - actual;
          if slack >= need {
            return true, offset;
          }
        }
        BoundaryNext(buf, 0, offset);
        offset := offset + RecLen(buf, offset);
      }
      found := false;
    }

    /** Allocates a block and writes x to it; nothing names it yet. */
    method StageBlock(preferred: nat, x: Buffer, ghost inodes: Inodes) returns (r: int)
      requires FsValid(g, State()) && inodes == DiskInodes(g, disk) && |x| == g.blockSize
      modifies this
      ensures r == -1 <==> old(sbFreeBlocks) == 0
      ensures r == -1 ==> State() == old(State())
      ensures r != -1 ==>
        && 0 < r < 0x8000_0000 && r in old(disk) && Unnamed(AllTargets(g, old(disk), inodes), r)
        && r >= g.firstDataBlock && g.BlockGroup(r) < |g.groups|
        && !BitAt(BlockMaps(g, old(disk))[g.BlockGroup(r)], g.BlockIndex(r))
        && State() == TakeBlock(g, old(State()), g.BlockGroup(r), g.BlockIndex(r)).(disk := disk)
        && disk == TakeBlock(g, old(State()), g.BlockGroup(r), g.BlockIndex(r)).disk[r := x]
      ensures r != -1 ==>
        && Consistent(g, State(), inodes) && Spare(g, disk, inodes, r) && disk[r] == x && DiskInodes(g, disk) == inodes
        && AllContents(g, disk, inodes) == AllContents(g, old(disk), inodes)
        && (forall i, k :: i in inodes ==> FileBlock(g, disk, inodes, i, k) == FileBlock(g, old(disk), inodes, i, k))
        && sbFreeBlocks == old(sbFreeBlocks) - 1 && Grows(g, old(disk), disk) && r !in Strays(g, old(disk), inodes)
        && Strays(g, disk, inodes) == Strays(g, old(disk), inodes) + iset{r}
    {
      hide CountsOk, FreeBlocksUsable, Owned, AllTargets, AllContents, FileBlock, DiskInodes, BlockUsed, Strays, Grows;
      r := AllocSpare(preferred, inodes);
      if r < 0 {
        return -1;
      }
      ghost var s := State();
      ScratchWriteKeeps(g, s, inodes, r, x);
      ScratchStrays(g, s, inodes, r, x);
      disk := disk[r := x];
      GrowsTrans(g, old(disk), s.disk, disk);
    }

    /** Puts entry e alone in a new block at the end of the directory. */
    method AddDirBlock(dir: nat, dirInode: Inode, numBlocks: nat, e: DirEntry) returns (r: int)
      requires FsValid(g, State()) && IsDir(g, State(), dir) && dirInode == DiskInodes(g, disk)[dir] && dir > 0
      requires numBlocks == BlockCount(g, Size(dirInode)) && |e.name| <= NAME_MAX && e.ino < WORD
      requires !HasRoom(g, State(), dir, NeededLen(|e.name|))
      modifies this
      ensures r == 0 || r == -1
      ensures FsValid(g, State())
      ensures r == 0 ==> EntryAdded(g, old(State()), State(), dir, e)
      ensures r == 0 ==> EntryBlocks(g, old(State()), State(), dir, NeededLen(|e.name|))
      ensures r == -1 ==> Untouched(g, old(State()), State())
      ensures r == 0 <==> CanMap(g, dirInode, numBlocks, old(sbFreeBlocks))
    {
      hide CountsOk, FreeBlocksUsable, Owned, AllTargets, AllContents, FileBlock, PutRecord, Get16;
      hide Get32, Put32, Align4, Size;
      hide DirEntries, Entries, EntryAdded, DirOk, Untouched, InodeUsed, HasRoom;
      hide BlockCount, PasteInode, SameButSlots, MapUpdate;
      hide DiskInodes, Strays, Grows, BlockUsed, Block, CanMap, EntryBlocks;
      ghost var s0, inodes := State(), DiskInodes(g, disk);
      SameInodes(inodes, dir, dirInode);
      var x := PutRecord(Zeros(g.blockSize), 0, e, g.blockSize);
      var newBlock := StageBlock(g.InodeGroup(dir), x, inodes);
      if newBlock < 0 {
        UntouchedSelf(g, s0);
        CanMapNeeds(g, dirInode, numBlocks, s0.sbBlocks);
        return -1;
      }
      ghost var d := disk;
      assert FileBlock(g, d, inodes, dir, numBlocks) == PastEnd(g, s0, dir);
      var dirInode';
      r, dirInode' := SetFileBlock(dirInode, numBlocks, newBlock, dir, inodes);
      if r < 0 {
        AbandonBlock(g, s0, newBlock, x);
        var _ := FreeBlock(newBlock);
        return -1;
      }
      ghost var s1, i := State(), dirInode';
      dirInode' := WithSize(dirInode', Size(dirInode') + g.blockSize);
      dirInode' := WithBlocks512(dirInode', Blocks512(dirInode') + g.blockSize / 512);
      NewBlockAdds(g, s0, s1, dir, i, dirInode', e);
      r := StoreInode(dir, dirInode');
      LinkedOnce(Strays(g, s0.disk, inodes), newBlock, PastEnd(g, s0, dir));
      GrownBlocks(g, s0, d, s1, State(), dir, i, NeededLen(|e.name|));
    }

    /** Adds (name, ino) to directory dir: after the first record with room, else in a new
        block. A failure changes no bitmap, counter, inode or file. */
    method AddDirEntry(dir: nat, name: Buffer, ino: nat, fileType: byte) returns (r: int)
      requires FsValid(g, State()) && IsDir(g, State(), dir) && ino < WORD
      modifies this
      ensures r == 0 || r == -1
      ensures FsValid(g, State())
      ensures r == 0 ==> EntryAdded(g, old(State()), State(), dir, DirEntry(ino, CutName(name), fileType))
      ensures r == 0 ==> EntryBlocks(g, old(State()), State(), dir, NeededLen(|CutName(name)|))
      ensures r == -1 ==> Untouched(g, old(State()), State())
      ensures r == 0 <==> CanAddEntry(g, old(State()), dir, NeededLen(|CutName(name)|))
    {
      hide CountsOk, FreeBlocksUsable, Owned, AllTargets, AllContents, FileBlock, SplitRecord, Get16, Get32, Align4;
      hide DirEntries, Entries, Inserted, Boundary, IsSplit, EntryAdded, EntryBlocks, Untouched, PutRecord, CutName;
      ghost var s0, inodes := State(), DiskInodes(g, disk);
      ghost var c := AllContents(g, disk, inodes);
      var r0, dirInode := ReadInode(dir);
      var nameLen := NameLength(name);
      var e := DirEntry(ino, name[..nameLen], fileType);
      var need := Align4(HEADER + nameLen);
      var numBlocks := (Size(dirInode) + g.blockSize - 1) / g.blockSize;
      for b := 0 to numBlocks
        invariant State() == s0
        invariant forall k: nat :: k < b && (dir, k) in c ==> !Room(c[(dir, k)], 0, need)
      {
        var diskBlock := GetFileBlock(dirInode, b, dir, inodes);
        FileBlockStored(g, s0, inodes, dir, b);
        if diskBlock != 0 {
          var buf := disk[diskBlock];
          var found, offset := ScanBlock(buf, need);
          if found {
            SplitAdds(g, s0, dir, b, offset, e);
            disk := disk[diskBlock := SplitRecord(buf, offset, e)];
            return 0;
          }
        }
      }
      r := AddDirBlock(dir, dirInode, numBlocks, e);
    }

    // ---- creation ----

    /** Takes an inode number and stores a fresh inode there. */
    method NewFileInode(preferred: nat, mode: nat) returns (r: int)
      requires FsValid(g, State()) && mode < 0x10000
      modifies this
      ensures var c := Choose(InodeMaps(g, old(disk)), g.inodesPerGroup / 8 * 8, preferred, 0);
              if c.Full? then r == -1 && State() == old(State())
              else
                && r == g.InodeNo(c.group, c.index) && r < WORD
                && FileBorn(g, old(State()), State(), c.group, c.index, FreshInode(mode))
    {
      hide CountsOk, FreeBlocksUsable, Owned, AllTargets, AllContents, FileBlock, InodeUsed, PasteInode;
      hide FreshInode, BitAt, SetBitAt, DiskInodes;
      ghost var s := State();
      r := AllocInode(preferred);
      if r < 0 {
        return -1;
      }
      ghost var c := Choose(InodeMaps(g, s.disk), g.inodesPerGroup / 8 * 8, preferred, 0);
      assert c.Chosen? && r == g.InodeNo(c.group, c.index);
      FreshInodeFields(mode);
      NewInode(g, s, c.group, c.index, FreshInode(mode));
      InodeBelow(g, c.group, c.index);
      var _ := StoreInode(r, FreshInode(mode));
    }

    /** Adds "." and ".." to a directory without blocks. */
    method AddDots(ino: nat, parent: nat)
      requires FsValid(g, State()) && IsDir(g, State(), parent) && ino != parent && ino < WORD && parent < WORD
      requires ino in DiskInodes(g, disk) && Size(DiskInodes(g, disk)[ino]) == 0
               && Slot(DiskInodes(g, disk)[ino], 0) == 0
      modifies this
      ensures FsValid(g, State()) && SameOutside(g, old(State()), State(), iset{ino})
      ensures Conserved(g, old(disk), DiskInodes(g, old(disk)), disk, DiskInodes(g, disk))
      ensures sbFreeBlocks == old(sbFreeBlocks) - if old(sbFreeBlocks) > 0 then 1 else 0
      ensures IsDir(g, State(), parent) && Names(g, State(), parent) == Names(g, old(State()), parent)
      ensures DiskInodes(g, disk)[parent] == old(DiskInodes(g, disk))[parent]
      ensures IsDir(g, State(), ino) && DotsIn(g, State(), ino, parent, old(sbFreeBlocks) > 0)
      ensures var was, now := old(DiskInodes(g, disk))[ino], DiskInodes(g, disk)[ino];
              && Mode(now) == Mode(was) && Links(now) == Links(was)
              && Extended(g, was, now, if old(sbFreeBlocks) > 0 then 1 else 0)
    {
      hide CountsOk, FreeBlocksUsable, Owned, AllTargets, AllContents, FileBlock, InodeUsed, DiskInodes, Slot;
      hide Extended, EntryAdded, EntryBlocks, Untouched, Conserved, Inserted, DiskOk, SameOutside, HasRoom;
      hide DirOk, Size, Links, Mode, BlockCount, DirEntries, CanAddEntry, PastEnd, Strays;
      ghost var s0, d := State(), iset{ino};
      ghost var dot, dotdot := DirEntry(ino, DOT, 2), DirEntry(parent, DOTDOT, 2);
      BornEmpty(g, s0, ino);
      BornCost(g, s0, ino, NeededLen(|DOT|));
      var r1 := AddDirEntry(ino, DOT, ino, 2);
      ghost var s1 := State();
      AddOutcome(g, s0, s1, ino, dot, r1 == 0, d);
      if r1 == 0 {
        InsertedInEmpty(Names(g, s1, ino), dot);
        ExtendedOnce(g, DiskInodes(g, s0.disk)[ino], DiskInodes(g, s1.disk)[ino]);
        OneEntryRoom(g, s1, ino, dot, NeededLen(|DOTDOT|));
      } else {
        BornEmpty(g, s1, ino);
        BornCost(g, s1, ino, NeededLen(|DOTDOT|));
      }
      AddedConserves(g, s0, s1, ino, NeededLen(|DOT|), r1 == 0);
      var r2 := AddDirEntry(ino, DOTDOT, parent, 2);
      AddOutcome(g, s1, State(), ino, dotdot, r2 == 0, d);
      if r2 == 0 {
        InsertedMultiset(Names(g, s1, ino), Names(g, State(), ino), dotdot);
      } else {
        BornEmpty(g, State(), ino);
      }
      AddedConserves(g, s1, State(), ino, NeededLen(|DOTDOT|), r2 == 0);
      ConservedTrans(g, s0.disk, DiskInodes(g, s0.disk), s1.disk, DiskInodes(g, s1.disk), disk, DiskInodes(g, disk));
      if r1 == 0 {
        ExtendedTrans(g, DiskInodes(g, s0.disk)[ino], DiskInodes(g, s1.disk)[ino], DiskInodes(g, disk)[ino], 1, 0);
      } else {
        ExtendedNone(g, DiskInodes(g, s0.disk)[ino]);
      }
      SameOutsideTrans(g, s0, s1, State(), d);
      NamesSame(g, s0, State(), d, parent);
    }

    /** The entries of a new directory and the link it adds to its parent; failures to add
        an entry are ignored. */
    method FillDirectory(ino: nat, parent: nat)
      requires FsValid(g, State()) && IsDir(g, State(), parent) && ino != parent && ino < WORD && parent < WORD
      requires ino in DiskInodes(g, disk) && Size(DiskInodes(g, disk)[ino]) == 0
               && Slot(DiskInodes(g, disk)[ino], 0) == 0
      modifies this
      ensures FsValid(g, State()) && SameOutside(g, old(State()), State(), iset{parent, ino})
      ensures Conserved(g, old(disk), DiskInodes(g, old(disk)), disk, DiskInodes(g, disk))
      ensures sbFreeBlocks == old(sbFreeBlocks) - if old(sbFreeBlocks) > 0 then 1 else 0
      ensures IsDir(g, State(), parent) && Names(g, State(), parent) == Names(g, old(State()), parent)
      ensures var was, now := old(DiskInodes(g, disk))[parent], DiskInodes(g, disk)[parent];
              && Mode(now) == Mode(was) && Links(now) == (Links(was) + 1) % 0x10000
              && now == WithLinks(was, (Links(was) + 1) % 0x10000)
      ensures IsDir(g, State(), ino) && DotsIn(g, State(), ino, parent, old(sbFreeBlocks) > 0)
      ensures var was, now := old(DiskInodes(g, disk))[ino], DiskInodes(g, disk)[ino];
              && Mode(now) == Mode(was) && Links(now) == Links(was)
              && Extended(g, was, now, if old(sbFreeBlocks) > 0 then 1 else 0)
    {
      hide CountsOk, FreeBlocksUsable, Owned, AllTargets, AllContents, FileBlock;
      hide InodeUsed, DiskInodes, PasteInode, WithLinks, Extended;
      hide DiskOk, SameOutside, Names, HasRoom, DirOk, Size, Links, Mode, Conserved;
      AddDots(ino, parent);
      ghost var s1 := State();
      ghost var d := iset{parent, ino};
      var r, inode := ReadInode(parent);
      StoredInode(g, s1, parent);
      LinksStored(g, s1, parent, inode, (Links(inode) + 1) % 0x10000);
      LinksOnly(inode, (Links(inode) + 1) % 0x10000);
      var _ := StoreInode(parent, WithLinks(inode, (Links(inode) + 1) % 0x10000));
      SameOutsideMore(g, s1, State(), iset{parent}, d);
      NamesSame(g, s1, State(), iset{parent}, ino);
      ConservedTrans(g, old(disk), DiskInodes(g, old(disk)), s1.disk, DiskInodes(g, s1.disk), disk,
                     DiskInodes(g, disk));
      SameOutsideMore(g, old(State()), s1, iset{ino}, d);
      SameOutsideTrans(g, old(State()), s1, State(), d);
    }

    /** Creates a file or directory under parent. On failure bitmaps, counters, inodes and
        every file's contents are as they were. */
    method CreateFile(parent: nat, name: Buffer, mode: nat) returns (r: int)
      requires FsValid(g, State()) && IsDir(g, State(), parent) && mode < 0x10000 && 0 < parent < WORD
      modifies this
      ensures FsValid(g, State())
      ensures r == -1 || r > 0
      ensures r == -1 ==> Untouched(g, old(State()), State())
      ensures r > 0 ==> r < WORD
      ensures r > 0 ==>
        Created(g, old(State()), State(), parent, r,
                DirEntry(r, CutName(name), if IsDirMode(mode) then 2 else 1), mode)
      ensures r > 0 ==> CreatedBlocks(g, old(State()), State(), parent, NeededLen(|CutName(name)|), mode)
      ensures var c := InodeChoice(g, old(disk), parent);
              && (r > 0 <==> c.Chosen? && CanAddEntry(g, old(State()), parent, NeededLen(|CutName(name)|)))
              && (r > 0 ==> r == g.InodeNo(c.group, c.index))
    {
      hide CountsOk, FreeBlocksUsable, Owned, AllTargets, AllContents, FileBlock;
      hide InodeUsed, DiskInodes, FreshInode, BitAt;
      hide SameOutside, Names, HasRoom, DirOk, Size, Links, Mode, BlockCount, InodeBorn;
      hide Untouched, EntryAdded, DotsIn, SetBitAt, CanAddEntry;
      hide Conserved, EntryBlocks, CreatedBlocks, EntryCost, Extended, WithLinks;
      ghost var s0 := State();
      ghost var c := Choose(InodeMaps(g, disk), g.inodesPerGroup / 8 * 8, g.InodeGroup(parent), 0);
      var newIno := NewFileInode(g.InodeGroup(parent), mode);
      if newIno < 0 {
        UntouchedSelf(g, s0);
        return -1;
      }
      ghost var s1, d, d0 := State(), iset{parent, newIno}, iset{newIno};
      FreshInodeFields(mode);
      BornFacts(g, s0, s1, parent, newIno, FreshInode(mode));
      BornRoom(g, s0, s1, parent, newIno, FreshInode(mode), NeededLen(|CutName(name)|));
      var fileType := if IsDirMode(mode) then 2 else 1;
      ghost var e := DirEntry(newIno, CutName(name), fileType);
      r := AddDirEntry(parent, name, newIno, fileType);
      if r < 0 {
        UnbornInode(g, s0, s1, State(), c.group, c.index, FreshInode(mode));
        InodeNumbering(g, c.group, c.index, newIno);
        var _ := FreeInode(newIno);
        return -1;
      }
      ghost var s2 := State();
      EntryFacts(g, s0, s1, s2, parent, newIno, e, FreshInode(mode));
      if IsDirMode(mode) {
        FillDirectory(newIno, parent);
        SameOutsideTrans(g, s0, s2, State(), d);
        LinksCommute(g, DiskInodes(g, s0.disk)[parent], DiskInodes(g, s2.disk)[parent],
                     if HasRoom(g, s0, parent, NeededLen(|e.name|)) then 0 else 1,
                     Links(DiskInodes(g, disk)[parent]));
      } else {
        ConservedSelf(g, disk, DiskInodes(g, disk));
        LinksAsWere(DiskInodes(g, s0.disk)[parent], DiskInodes(g, disk)[parent]);
        ExtendedNone(g, FreshInode(mode));
      }
      CreationBlocks(g, s0, s1, s2, State(), parent, newIno, FreshInode(mode), NeededLen(|CutName(name)|), mode);
      return newIno;
    }
  }
}
