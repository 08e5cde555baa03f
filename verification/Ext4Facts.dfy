/** What the standing invariant says about every file at once, and how far the inode search reaches. */
module Ext4Facts {
  import opened Bytes
  import opened Arith
  import opened Ext4Layout
  import opened Ext4Ownership
  import opened Ext4Alloc
  import opened Ext4State
  import opened Ext4Steps
  import opened Ext4Files
  import opened Ext4Strays
  import opened Ext4Dir
  import opened Ext4Names
  import opened Ext4Create

  /** Between operations, whatever place names a block, be it a data slot, an indirect block or an entry
      in one, that block is marked used in its bitmap and named nowhere else; named by a file it is
      no bitmap and no part of an inode table. */
  lemma NamedBlocksOwned(g: Geometry, s: FsState, p: Place)
    requires FsValid(g, s) && IsPlace(g, DiskInodes(g, s.disk).Keys, p)
    requires Target(g, s.disk, DiskInodes(g, s.disk), p) != 0
    ensures var b := Target(g, s.disk, DiskInodes(g, s.disk), p);
            && b in s.disk && BlockUsed(g, s.disk, b)
            && (p.InodeSlot? || p.Entry? ==> NotBlockBitmap(g, b) && NotInodeMeta(g, b))
            && (forall q ::
                  IsPlace(g, DiskInodes(g, s.disk).Keys, q) && Target(g, s.disk, DiskInodes(g, s.disk), q) == b ==>
                  q == p)
  {
    var inodes := DiskInodes(g, s.disk);
    var t := AllTargets(g, s.disk, inodes);
    assert p in t;
    if p.InodeSlot? || p.Entry? {
      NotMetadata(g, s.disk, inodes, t[p]);
    }
    forall q | IsPlace(g, inodes.Keys, q) && Target(g, s.disk, inodes, q) == t[p] ensures q == p {
      assert q in t && t[q] == t[p];
    }
  }

  /** A mapped file block is named at its place. */
  lemma FileBlockNamed(g: Geometry, s: FsState, ino: nat, fb: nat)
    requires FsValid(g, s) && ino in DiskInodes(g, s.disk) && FileBlock(g, s.disk, DiskInodes(g, s.disk), ino, fb) != 0
    ensures Mappable(g, fb) && IsPlace(g, DiskInodes(g, s.disk).Keys, PlaceOf(g, ino, fb))
    ensures Target(g, s.disk, DiskInodes(g, s.disk), PlaceOf(g, ino, fb)) ==
            FileBlock(g, s.disk, DiskInodes(g, s.disk), ino, fb)
  {
    PlaceOfIsPlace(g, DiskInodes(g, s.disk).Keys, ino, fb);
  }

  /** No block of a file's contents is shared: not with another block of the file, nor with another file. */
  lemma FileBlocksApart(g: Geometry, s: FsState, ino: nat, fb: nat, ino': nat, fb': nat)
    requires FsValid(g, s) && ino in DiskInodes(g, s.disk) && ino' in DiskInodes(g, s.disk)
    requires FileBlock(g, s.disk, DiskInodes(g, s.disk), ino, fb) ==
             FileBlock(g, s.disk, DiskInodes(g, s.disk), ino', fb') != 0
    ensures ino == ino' && fb == fb'
    ensures BlockUsed(g, s.disk, FileBlock(g, s.disk, DiskInodes(g, s.disk), ino, fb))
  {
    hide Consistent, Owned, Target, IsPlace, PlaceOf, FileBlock, BlockUsed, NotBlockBitmap, NotInodeMeta;
    FileBlockNamed(g, s, ino, fb);
    FileBlockNamed(g, s, ino', fb');
    NamedBlocksOwned(g, s, PlaceOf(g, ino, fb));
    PlaceOfInjective(g, ino, fb, ino', fb');
  }

  /** Adding an entry loses a block exactly when the directory grows over one mapped past its end. */
  lemma EntryLosesIff(g: Geometry, s: FsState, s': FsState, dir: nat, need: nat)
    requires FsValid(g, s) && IsDir(g, s, dir) && EntryBlocks(g, s, s', dir, need)
    ensures Conserved(g, s.disk, DiskInodes(g, s.disk), s'.disk, DiskInodes(g, s'.disk)) <==>
            HasRoom(g, s, dir, need) || PastEnd(g, s, dir) == 0
  {
    hide DiskInodes, HasRoom, FileBlock, AllContents, DirOk, Size, BlockCount, BlockUsed, Target, IsPlace;
    var inodes, b := DiskInodes(g, s.disk), PastEnd(g, s, dir);
    if b != 0 {
      var fb := BlockCount(g, Size(inodes[dir]));
      FileBlockNamed(g, s, dir, fb);
      TargetAt(g, s.disk, inodes, PlaceOf(g, dir, fb));
      assert b !in Strays(g, s.disk, inodes);
    }
  }

  // ---- the inode search ----

  /** Allocation by whole bitmap bytes fails only when every inode is taken. */
  ghost predicate SearchComplete(limit: nat, inodesPerGroup: nat, blockSize: nat)
    requires limit <= inodesPerGroup <= 8 * blockSize
  {
    forall maps: seq<Buffer>, start: nat ::
      |maps| > 0 && (forall i :: 0 <= i < |maps| ==> |maps[i]| == blockSize) && Choose(maps, limit, start, 0).Full? ==>
        forall group: nat :: group < |maps| ==> NoneClear(maps[group], inodesPerGroup)
  }

  /** A bitmap whose first n bytes are full. */
  function FullBytes(n: nat, size: nat): (b: Buffer)
    requires n <= size
    ensures |b| == size
  {
    seq(size, i => if i < n then 255 else 0)
  }

  lemma {:induction false} BitOfZero(i: nat)
    ensures !Bit(0, i)
  {
    if i > 0 {
      BitOfZero(i - 1);
    }
  }

  /** The search of ext4_alloc_inode looks at inodes_per_group / 8 whole bytes, so it sees every inode
      exactly when the inodes of a group fill whole bytes. */
  lemma InodeSearchCompleteIff(inodesPerGroup: nat, blockSize: nat)
    requires 0 < inodesPerGroup <= 8 * blockSize
    ensures SearchComplete(inodesPerGroup / 8 * 8, inodesPerGroup, blockSize) <==> inodesPerGroup % 8 == 0
  {
    var bytes, limit := inodesPerGroup / 8, inodesPerGroup / 8 * 8;
    if inodesPerGroup % 8 == 0 {
      forall maps: seq<Buffer>, start: nat |
        |maps| > 0 && (forall i :: 0 <= i < |maps| ==> |maps[i]| == blockSize) && Choose(maps, limit, start, 0).Full?
        ensures forall group: nat :: group < |maps| ==> NoneClear(maps[group], inodesPerGroup)
      {
        FullIffNoneClear(maps, limit, start);
      }
    } else {
      var bits := FullBytes(bytes, blockSize);
      var maps := [bits];
      forall j: nat | j < limit ensures BitAt(bits, j) {
        FullByte(255);
      }
      BitOfZero(0);
      assert !BitAt(bits, limit);
      FullIffNoneClear(maps, limit, 0);
      assert !NoneClear(maps[0], inodesPerGroup);
      assert Choose(maps, limit, 0, 0).Full?;
    }
  }

  // ---- the invariant can be met ----

  const TINY := Geometry(1024, 5, 8, 128, 1, false, [Group(1, 2, 3)])

  /** One group of five blocks: its two bitmaps, one table block and two free blocks; no inode in use. */
  function TinyDisk(): Disk {
    map[1 := Zeros(1024)[0 := 7], 2 := Zeros(1024), 3 := Zeros(1024), 4 := Zeros(1024), 5 := Zeros(1024)]
  }

  function TinyState(): FsState {
    FsState(TinyDisk(), [Counts(2, 0, 8, 0)], 2, 8)
  }

  lemma {:induction false} AllClear(bits: Buffer, n: nat)
    requires n <= 8 * |bits| && forall i :: 0 <= i < |bits| ==> bits[i] == 0
    ensures ClearBits(bits, n) == n
  {
    if n > 0 {
      AllClear(bits, n - 1);
      BitOfZero((n - 1) % 8);
    }
  }

  lemma TinyShape()
    ensures TINY.Valid() && DiskOk(TINY, TinyDisk())
    ensures BlockMaps(TINY, TinyDisk()) == [TinyDisk()[1]] && InodeMaps(TINY, TinyDisk()) == [TinyDisk()[2]]
    ensures forall k: nat :: TINY.HasTableBlock(0, k) <==> k == 0
  {
  }

  /** The counters of the small file system. */
  lemma TinyCounts()
    ensures TINY.Valid() && DiskOk(TINY, TinyDisk()) && CountsOk(TINY, TinyState())
    ensures forall j: nat :: j < 3 ==> BitAt(TinyDisk()[1], j)
    ensures !BitAt(TinyDisk()[1], 3) && !BitAt(TinyDisk()[1], 4) && forall j: nat :: j < 8 ==> !BitAt(TinyDisk()[2], j)
  {
    TinyShape();
    var b, i := TinyDisk()[1], TinyDisk()[2];
    assert Bit(7, 0) && Bit(7, 1) && Bit(7, 2) && !Bit(7, 3) && !Bit(7, 4);
    assert BitAt(b, 0) && BitAt(b, 1) && BitAt(b, 2) && !BitAt(b, 3) && !BitAt(b, 4);
    assert ClearBits(b, 0) == ClearBits(b, 1) == ClearBits(b, 2) == ClearBits(b, 3) == 0;
    assert ClearBits(b, 4) == 1 && ClearBits(b, 5) == 2;
    AllClear(i, 8);
    forall j: nat | j < 8 ensures !BitAt(i, j) {
      BitOfZero(j);
    }
    assert TotalClear([b], 5, 1) == TotalClear([b], 5, 0) + ClearBits(b, 5);
    assert TotalClear([i], 8, 1) == TotalClear([i], 8, 0) + ClearBits(i, 8);
  }

  lemma TinyNoInodes()
    ensures TINY.Valid() && DiskOk(TINY, TinyDisk())
    ensures forall ino: nat :: ino !in DiskInodes(TINY, TinyDisk())
  {
    hide TinyDisk;
    TinyCounts();
    TinyShape();
    var d := TinyDisk();
    forall ino: nat ensures ino !in DiskInodes(TINY, d) {
      if TINY.HasInode(ino) {
        assert !BitAt(d[2], TINY.InodeIndex(ino));
      }
    }
  }

  /** Without inodes only the metadata has places. */
  lemma TinyPlaces(inodes: Inodes, p: Place)
    requires TINY.Valid() && (forall ino: nat :: ino !in inodes) && IsPlace(TINY, inodes.Keys, p)
    ensures p == BlockBitmap(0) || p == InodeBitmap(0) || p == InodeTable(0, 0)
    ensures Target(TINY, TinyDisk(), inodes, p) == if p.BlockBitmap? then 1 else if p.InodeBitmap? then 2 else 3
  {
    hide TinyDisk;
    TinyShape();
    match p
    case Entry(parent, j) =>
      assert IsPlace(TINY, inodes.Keys, if parent.Entry? then parent.parent else parent);
      assert false;
    case _ =>
  }

  lemma TinyKeys()
    ensures forall b: nat :: b in TinyDisk() <==> 1 <= b <= 5
  {
  }

  lemma TinyBase()
    ensures BaseOk(TINY, TinyState())
  {
    hide TinyDisk, BitAt, CountsOk;
    TinyShape();
    TinyCounts();
    TinyKeys();
    assert |TinyState().counts| == 1;
  }

  lemma TinyUsed(b: nat)
    requires 1 <= b <= 3
    ensures TINY.Valid() && DiskOk(TINY, TinyDisk()) && BlockUsed(TINY, TinyDisk(), b) && b in TinyDisk()
  {
    TinyShape();
    TinyCounts();
    assert BitAt(TinyDisk()[1], b - 1);
  }

  /** A freshly made file system meets the invariant every operation asks for and keeps. */
  lemma FreshIsValid()
    ensures FsValid(TINY, TinyState())
  {
    hide TinyDisk, DiskInodes, BlockUsed, CountsOk, FreeBlocksUsable, Target, IsPlace, DiskOk;
    TinyBase();
    TinyNoInodes();
    var inodes := DiskInodes(TINY, TinyDisk());
    var t := AllTargets(TINY, TinyDisk(), inodes);
    forall p | p in t
      ensures p == BlockBitmap(0) || p == InodeBitmap(0) || p == InodeTable(0, 0)
      ensures t[p] == if p.BlockBitmap? then 1 else if p.InodeBitmap? then 2 else 3
    {
      TinyPlaces(inodes, p);
    }
    TinyUsed(1);
    TinyUsed(2);
    TinyUsed(3);
  }

  const DIR_MODE := 0x41ED

  /** An inode of size 0 without a first block: an empty directory. */
  ghost predicate Blank(g: Geometry, s: FsState, ino: nat) {
    && FsValid(g, s) && ino in DiskInodes(g, s.disk)
    && Size(DiskInodes(g, s.disk)[ino]) == 0 && Slot(DiskInodes(g, s.disk)[ino], 0) == 0
  }

  /** Its first entry takes one block. */
  lemma BlankFacts(g: Geometry, s: FsState, ino: nat)
    requires Blank(g, s, ino)
    ensures IsDir(g, s, ino) && Names(g, s, ino) == [] && InodeUsed(g, s.disk, ino)
    ensures forall need: nat :: EntryCost(g, s, ino, need) == 1 && (CanAddEntry(g, s, ino, need) <==> s.sbBlocks > 0)
  {
    hide AllContents, Size, HasRoom, FileBlock, DirOk, Slot, CountsOk, FreeBlocksUsable, Owned, AllTargets;
    BornEmpty(g, s, ino);
    forall need: nat
      ensures EntryCost(g, s, ino, need) == 1 && (CanAddEntry(g, s, ino, need) <==> s.sbBlocks > 0)
    {
      BornCost(g, s, ino, need);
    }
  }

  /** Any free inode can be made an empty directory. */
  lemma EmptyDirectory(g: Geometry, s: FsState, group: nat, index: nat) returns (s2: FsState)
    requires FsValid(g, s) && group < |g.groups| && index < g.inodesPerGroup
             && !BitAt(InodeMaps(g, s.disk)[group], index)
    ensures FileBorn(g, s, s2, group, index, FreshInode(DIR_MODE)) && Blank(g, s2, g.InodeNo(group, index))
  {
    hide CountsOk, FreeBlocksUsable, Owned, AllTargets, AllContents, FreshInode, InodeUsed, Slot, BitAt, SetBitAt;
    FreshInodeFields(DIR_MODE);
    NewInode(g, s, group, index, FreshInode(DIR_MODE));
    s2 := WriteInode(g, TakeInode(g, s, group, index), g.InodeNo(group, index), FreshInode(DIR_MODE));
  }

  lemma TinyParts()
    ensures TinyState().disk == TinyDisk() && TinyState().sbBlocks == 2
  {
  }

  /** The maps of the small file system after inode 1 was taken. */
  lemma TinyBorn(s: FsState)
    requires FileBorn(TINY, TinyState(), s, 0, 0, FreshInode(DIR_MODE))
    ensures BaseOk(TINY, s) && s.sbBlocks == 2 && BlockMaps(TINY, s.disk) == [TinyDisk()[1]]
    ensures InodeMaps(TINY, s.disk) == [SetBitAt(TinyDisk()[2], 0)]
  {
    hide TinyDisk, CountsOk, FreeBlocksUsable, Owned, FreshInode, SetBitAt, AllContents, DiskInodes, Strays, FileBlock;
    TinyShape();
  }

  lemma TinyChoice(disk: Disk)
    requires TINY.Valid() && DiskOk(TINY, disk) && InodeMaps(TINY, disk) == [SetBitAt(TinyDisk()[2], 0)]
    ensures InodeChoice(TINY, disk, 1).Chosen?
  {
    hide TinyDisk, SetBitAt, DiskOk, InodeMaps;
    TinyShape();
    TinyCounts();
    SetBitAtBits(TinyDisk()[2], 0, 1);
    FullIffNoneClear(InodeMaps(TINY, disk), 8, 0);
    assert !BitAt(InodeMaps(TINY, disk)[0], 1);
  }

  /** A valid state with a directory in which a creation succeeds. */
  lemma FreshDirectory() returns (s: FsState)
    ensures BaseOk(TINY, s) && Blank(TINY, s, 1) && s.sbBlocks == 2
    ensures BlockMaps(TINY, s.disk) == [TinyDisk()[1]]
    ensures InodeMaps(TINY, s.disk) == [SetBitAt(TinyDisk()[2], 0)]
    ensures IsDir(TINY, s, 1) && InodeUsed(TINY, s.disk, 1)
    ensures InodeChoice(TINY, s.disk, 1).Chosen? && forall need: nat :: CanAddEntry(TINY, s, 1, need)
  {
    hide TinyState, TinyDisk, FsValid, InodeUsed, CanAddEntry, SetBitAt, EntryCost, DirOk, InodeBorn, TakeInode;
    hide InodeChoice;
    TinyShape();
    TinyCounts();
    FreshIsValid();
    TinyParts();
    s := EmptyDirectory(TINY, TinyState(), 0, 0);
    TinyBorn(s);
    TinyChoice(s.disk);
    BlankFacts(TINY, s, 1);
  }

  // ---- concrete failures ----

  lemma PairNotEmpty(s: seq<DirEntry>, a: DirEntry, b: DirEntry)
    requires multiset(s) == multiset{a, b}
    ensures s != []
  {
    assert a in multiset(s);
  }

  /** A creation that succeeds makes a directory without "." and ".." exactly when the parent's entry takes
      the last free block. */
  lemma DirectoryEmptyIff(g: Geometry, s: FsState, s': FsState, parent: nat, ino: nat, e: DirEntry, mode: nat)
    requires Created(g, s, s', parent, ino, e, mode) && IsDirMode(mode)
             && CanAddEntry(g, s, parent, NeededLen(|e.name|))
    ensures Names(g, s', ino) == [] <==> s.sbBlocks == EntryCost(g, s, parent, NeededLen(|e.name|))
    ensures Names(g, s', ino) != [] ==>
              multiset(Names(g, s', ino)) == multiset{DirEntry(ino, DOT, 2), DirEntry(parent, DOTDOT, 2)}
  {
    hide SameOutside, DiskInodes, AllContents, DirOk, DiskOk, Names, HasRoom, Mode;
    hide Links, Size, Slot, Inserted, BlockCount;
    if RoomForDots(g, s, parent, NeededLen(|e.name|)) {
      PairNotEmpty(Names(g, s', ino), DirEntry(ino, DOT, 2), DirEntry(parent, DOTDOT, 2));
    }
  }

  /** A directory without entries. */
  ghost predicate Bare(g: Geometry, s: FsState, ino: nat) {
    IsDir(g, s, ino) && Names(g, s, ino) == []
  }

  lemma TakesLastBlock(g: Geometry, s: FsState, s': FsState, parent: nat, ino: nat, e: DirEntry, mode: nat)
    requires Created(g, s, s', parent, ino, e, mode) && IsDirMode(mode)
             && CanAddEntry(g, s, parent, NeededLen(|e.name|))
    requires s.sbBlocks == EntryCost(g, s, parent, NeededLen(|e.name|))
    ensures Bare(g, s', ino)
  {
    hide SameOutside, DiskInodes, AllContents, DirOk, DiskOk, Names, HasRoom, Mode;
    hide Links, Size, Slot, Inserted, BlockCount;
    DirectoryEmptyIff(g, s, s', parent, ino, e, mode);
  }

  lemma DirModeIsDir()
    ensures IsDirMode(DIR_MODE)
  {
  }

  /** A block reserved takes nothing from an empty directory. */
  lemma BlankAfterTake(g: Geometry, s: FsState, ino: nat, group: nat, index: nat)
    requires Blank(g, s, ino) && group < |g.groups| && index < g.blocksPerGroup
    requires !BitAt(BlockMaps(g, s.disk)[group], index)
    ensures var s1 := TakeBlock(g, s, group, index);
            && Blank(g, s1, ino) && s1.sbBlocks == s.sbBlocks - 1 && InodeMaps(g, s1.disk) == InodeMaps(g, s.disk)
  {
    hide Owned, AllTargets, CountsOk, FreeBlocksUsable, Size, Slot, BitAt, SetBitAt, BlockUsed;
    TakeBlockKeeps(g, s, DiskInodes(g, s.disk), group, index);
    TakeBlockCountsPositive(g, s, group, index);
  }

  /** With one block left, making a directory in the empty directory 1 succeeds, and the new directory has
      no entries. */
  lemma DirectoryOnLastBlock(name: Buffer) returns (s: FsState)
    ensures FsValid(TINY, s) && IsDir(TINY, s, 1) && s.sbBlocks == 1
    ensures InodeChoice(TINY, s.disk, 1).Chosen? && CanAddEntry(TINY, s, 1, NeededLen(|CutName(name)|))
    ensures forall s', ino, e: DirEntry :: e.name == CutName(name) && Created(TINY, s, s', 1, ino, e, DIR_MODE) ==>
              Bare(TINY, s', ino)
  {
    hide TinyState, TinyDisk, FsValid, InodeUsed, CanAddEntry, EntryCost, DirOk, DiskInodes, Created, Bare, IsDirMode;
    hide SetBitAt, TakeBlock, InodeChoice;
    TinyCounts();
    var s0 := FreshDirectory();
    BlankAfterTake(TINY, s0, 1, 0, 3);
    s := TakeBlock(TINY, s0, 0, 3);
    BlankFacts(TINY, s, 1);
    TinyChoice(s.disk);
    DirModeIsDir();
    forall s', ino, e: DirEntry | e.name == CutName(name) && Created(TINY, s, s', 1, ino, e, DIR_MODE)
      ensures Bare(TINY, s', ino)
    {
      TakesLastBlock(TINY, s, s', 1, ino, e, DIR_MODE);
    }
  }

  lemma SizeOfWithSlot(i: Inode, k: nat, v: nat)
    requires k < 15
    ensures Size(WithSlot(i, k, v)) == Size(i)
  {
  }

  /** A block mapped past the end of an empty directory. */
  lemma MapPastEnd(g: Geometry, s: FsState, ino: nat, group: nat, index: nat) returns (s2: FsState)
    requires Blank(g, s, ino) && group < |g.groups| && index < g.blocksPerGroup
    requires !BitAt(BlockMaps(g, s.disk)[group], index)
    ensures FsValid(g, s2) && IsDir(g, s2, ino) && PastEnd(g, s2, ino) == g.BlockNo(group, index) > 0
    ensures s2.sbBlocks == s.sbBlocks - 1
    ensures forall need: nat :: !HasRoom(g, s2, ino, need) && (CanAddEntry(g, s2, ino, need) <==> s2.sbBlocks > 0)
  {
    hide Owned, AllTargets, CountsOk, FreeBlocksUsable, Size, Slot, BitAt, SetBitAt, BlockUsed, WithSlot, FileBlock;
    hide AllContents, HasRoom, DirOk, PasteInode;
    var inodes, b := DiskInodes(g, s.disk), g.BlockNo(group, index);
    AllocatedIsSpare(g, s, inodes, group, index);
    TakeBlockCountsPositive(g, s, group, index);
    var s1, i := TakeBlock(g, s, group, index), WithSlot(inodes[ino], 0, b);
    LinkDirect(g, s1, inodes, ino, 0, b);
    SizeOfWithSlot(inodes[ino], 0, b);
    StoreFinishes(g, s1, inodes, ino, i, i);
    s2 := WriteInode(g, s1, ino, i);
    BornEmpty(g, s2, ino);
  }

  ghost predicate Loses(g: Geometry, s: FsState, s': FsState) {
    Grows(g, s.disk, s'.disk) && !Conserved(g, s.disk, DiskInodes(g, s.disk), s'.disk, DiskInodes(g, s'.disk))
  }

  lemma EntryLosesNow(g: Geometry, s: FsState, s': FsState, dir: nat, need: nat)
    requires FsValid(g, s) && IsDir(g, s, dir) && EntryBlocks(g, s, s', dir, need)
    requires !HasRoom(g, s, dir, need) && PastEnd(g, s, dir) != 0
    ensures Loses(g, s, s')
  {
    hide DiskInodes, HasRoom, PastEnd, Strays;
    EntryLosesIff(g, s, s', dir, need);
  }

  /** In a directory of the small file system that maps block 4 past its end an entry can be added, and block 4
      is lost. */
  lemma EntryLosesBlock() returns (s: FsState)
    ensures FsValid(TINY, s) && IsDir(TINY, s, 1) && PastEnd(TINY, s, 1) == 4
    ensures forall need: nat :: CanAddEntry(TINY, s, 1, need)
    ensures forall s', need: nat :: EntryBlocks(TINY, s, s', 1, need) ==> Loses(TINY, s, s')
  {
    hide TinyState, TinyDisk, FsValid, CanAddEntry, DirOk, DiskInodes, SetBitAt, EntryBlocks, Loses, HasRoom, PastEnd;
    TinyCounts();
    var s0 := FreshDirectory();
    s := MapPastEnd(TINY, s0, 1, 0, 3);
    forall s', need: nat | EntryBlocks(TINY, s, s', 1, need) ensures Loses(TINY, s, s') {
      EntryLosesNow(TINY, s, s', 1, need);
    }
  }

  /** Freeing a free block leaves the disk as it is and counts the block once more. */
  lemma FreeAgain(g: Geometry, s: FsState, group: nat, index: nat)
    requires FsValid(g, s) && group < |g.groups| && index < g.blocksPerGroup
    requires !BitAt(BlockMaps(g, s.disk)[group], index)
    ensures var s' := GiveBlock(g, s, group, index);
            s'.disk == s.disk && s'.sbBlocks == s.sbBlocks + 1 && !FsValid(g, s')
  {
    hide BitAt, ClearBitAt, AllTargets, Owned, DiskInodes, BlockUsed;
    var maps, s' := BlockMaps(g, s.disk), GiveBlock(g, s, group, index);
    ClearUnset(maps[group], index);
    TotalsBelow(g, s);
    CountsGiveBlock(g, maps, s.counts, s.sbBlocks, group, index);
    assert maps[group := ClearBitAt(maps[group], index)] == maps;
    assert s'.disk == s.disk;
  }

  /** Block 4 of the small file system, one of two free ones, is freed: the counter then says three. */
  lemma DoubleFree()
    ensures FsValid(TINY, TinyState()) && TINY.BlockNo(0, 3) == 4
    ensures var s' := GiveBlock(TINY, TinyState(), 0, 3);
            s'.disk == TinyState().disk && s'.sbBlocks == 3 && !FsValid(TINY, s')
  {
    hide TinyState, TinyDisk, FsValid, GiveBlock;
    FreshIsValid();
    TinyShape();
    TinyCounts();
    TinyParts();
    FreeAgain(TINY, TinyState(), 0, 3);
  }
}
