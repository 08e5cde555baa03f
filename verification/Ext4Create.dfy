/** Creating a file: a new inode, an entry for it, and what stays the same. */
module Ext4Create {
  import opened Bytes
  import opened Arith
  import opened Ext4Layout
  import opened Ext4Ownership
  import opened Ext4Alloc
  import opened Ext4State
  import opened Ext4Steps
  import opened Ext4Files
  import opened Ext4Strays
  import opened Ext4Dir
  import opened Ext4Names

  const S_IFDIR := 0x4000

  predicate IsDirMode(mode: nat) { mode / S_IFDIR % 2 == 1 }

  /** The inode a new file starts with: all zero but mode and link count. */
  function FreshInode(mode: nat): Inode {
    WithLinks(WithMode(Zeros(INODE_BYTES), mode), 1)
  }

  lemma FreshInodeFields(mode: nat)
    requires mode < 0x10000
    ensures var i := FreshInode(mode);
            && Mode(i) == mode && Links(i) == 1 && Size(i) == 0 && Blocks512(i) == 0
            && (forall k :: 2 <= k < INODE_BYTES && !(26 <= k < 28) ==> i[k] == 0)
            && forall k: nat :: k < 15 ==> Slot(i, k) == 0
  {
    Get16Put16(Zeros(INODE_BYTES), 0, mode);
    Get16Put16(WithMode(Zeros(INODE_BYTES), mode), 26, 1);
  }

  // ---- an inode without blocks ----

  lemma {:induction false} EmptyInodeTarget(g: Geometry, disk: Disk, inodes: Inodes, ino: nat, i: Inode, p: Place)
    requires g.Valid() && ino !in inodes && (forall k: nat :: k <= DIND ==> Slot(i, k) == 0)
    requires IsPlace(g, inodes[ino := i].Keys, p)
    ensures if IsPlace(g, inodes.Keys, p) then Target(g, disk, inodes[ino := i], p) == Target(g, disk, inodes, p)
            else Target(g, disk, inodes[ino := i], p) == 0
  {
    if p.Entry? {
      EmptyInodeTarget(g, disk, inodes, ino, i, p.parent);
    }
  }

  lemma {:induction false} MorePlaces(g: Geometry, a: iset<nat>, b: iset<nat>, p: Place)
    requires g.Valid() && a <= b && IsPlace(g, a, p)
    ensures IsPlace(g, b, p)
  {
    if p.Entry? {
      MorePlaces(g, a, b, p.parent);
    }
  }

  lemma NotItsPlace(g: Geometry, inos: iset<nat>, ino: nat, fb: nat)
    requires g.Valid() && Mappable(g, fb) && ino !in inos
    ensures !IsPlace(g, inos, PlaceOf(g, ino, fb))
  {
    if fb >= N_DIRECT + g.Pointers() {
      var r := fb - N_DIRECT - g.Pointers();
      assert !IsPlace(g, inos, InodeSlot(ino, DIND));
      assert !IsPlace(g, inos, Entry(InodeSlot(ino, DIND), r / g.Pointers()));
    }
  }

  /** More places that name nothing make no difference to the strays. */
  lemma SameStrays(g: Geometry, disk: Disk, inodes: Inodes, inodes': Inodes)
    requires g.Valid() && DiskOk(g, disk)
    requires var t, t' := AllTargets(g, disk, inodes), AllTargets(g, disk, inodes');
             t.Keys <= t'.Keys && forall p :: p in t' ==> t'[p] == if p in t then t[p] else 0
    ensures Strays(g, disk, inodes') == Strays(g, disk, inodes)
  {
    hide AllTargets, BlockUsed;
    var t, t' := AllTargets(g, disk, inodes), AllTargets(g, disk, inodes');
    forall b: nat | b > 0 ensures Unnamed(t', b) <==> Unnamed(t, b) {
      if !Unnamed(t, b) {
        var p :| p in t && t[p] == b;
        assert t'[p] == b;
      }
    }
  }

  /** Adding or removing an inode that names no blocks keeps ownership and contents. */
  lemma EmptyInodeMatters(g: Geometry, s: FsState, inodes: Inodes, ino: nat, i: Inode)
    requires BaseOk(g, s) && ino !in inodes
    requires forall k: nat :: k <= DIND ==> Slot(i, k) == 0
    ensures Consistent(g, s, inodes[ino := i]) <==> Consistent(g, s, inodes)
    ensures AllContents(g, s.disk, inodes[ino := i]) == AllContents(g, s.disk, inodes)
    ensures Strays(g, s.disk, inodes[ino := i]) == Strays(g, s.disk, inodes)
    ensures forall k: nat, fb: nat :: k in inodes ==>
              FileBlock(g, s.disk, inodes[ino := i], k, fb) == FileBlock(g, s.disk, inodes, k, fb)
  {
    hide CountsOk, FreeBlocksUsable, Slot, BlockUsed, Strays;
    var inodes' := inodes[ino := i];
    var t, t' := AllTargets(g, s.disk, inodes), AllTargets(g, s.disk, inodes');
    forall p | IsPlace(g, inodes'.Keys, p)
      ensures p in t' && t'[p] == if p in t then t[p] else 0
    {
      EmptyInodeTarget(g, s.disk, inodes, ino, i, p);
    }
    forall p | IsPlace(g, inodes.Keys, p)
      ensures IsPlace(g, inodes'.Keys, p)
    {
      MorePlaces(g, inodes.Keys, inodes'.Keys, p);
    }
    SameStrays(g, s.disk, inodes, inodes');
    forall k: nat, fb: nat | k in inodes' && Mappable(g, fb)
      ensures FileBlock(g, s.disk, inodes', k, fb) == if k in inodes then FileBlock(g, s.disk, inodes, k, fb) else 0
    {
      PlaceOfIsPlace(g, inodes'.Keys, k, fb);
      EmptyInodeTarget(g, s.disk, inodes, ino, i, PlaceOf(g, k, fb));
      if k in inodes {
        PlaceOfIsPlace(g, inodes.Keys, k, fb);
      } else {
        NotItsPlace(g, inodes.Keys, k, fb);
      }
    }
  }

  // ---- taking an inode number and storing its inode ----

  /** The same blocks are used, the same of them named, and the first files map the same ones. */
  ghost predicate SameBlocks(g: Geometry, disk: Disk, inodes: Inodes, disk': Disk, inodes': Inodes) {
    && g.Valid() && DiskOk(g, disk) && DiskOk(g, disk') && inodes.Keys <= inodes'.Keys
    && BlockMaps(g, disk') == BlockMaps(g, disk) && Strays(g, disk', inodes') == Strays(g, disk, inodes)
    && forall i: nat, k: nat :: i in inodes ==> FileBlock(g, disk', inodes', i, k) == FileBlock(g, disk, inodes, i, k)
  }

  lemma SameBlocksTrans(g: Geometry, d0: Disk, i0: Inodes, d1: Disk, i1: Inodes, d2: Disk, i2: Inodes)
    requires SameBlocks(g, d0, i0, d1, i1) && SameBlocks(g, d1, i1, d2, i2)
    ensures SameBlocks(g, d0, i0, d2, i2)
  {
    hide FileBlock, Strays, DiskOk, BlockMaps;
  }

  /** A metadata write that moves no target. */
  lemma MetaSameBlocks(g: Geometry, disk: Disk, disk': Disk, inodes: Inodes)
    requires g.Valid() && DiskOk(g, disk) && DiskOk(g, disk') && BlockMaps(g, disk') == BlockMaps(g, disk)
    requires AllTargets(g, disk', inodes) == AllTargets(g, disk, inodes)
    ensures SameBlocks(g, disk, inodes, disk', inodes)
  {
    hide FileBlock, Strays, AllTargets;
    StraysFrame(g, disk, inodes, disk', inodes);
    SameTargetsSameMap(g, disk, disk', inodes, inodes);
  }

  /** s' is s with one more inode, stored as i, and no other file changed. */
  ghost predicate InodeBorn(g: Geometry, s: FsState, s': FsState, ino: nat, i: Inode) {
    && g.Valid() && DiskOk(g, s.disk) && DiskOk(g, s'.disk)
    && ino !in DiskInodes(g, s.disk) && DiskInodes(g, s'.disk) == DiskInodes(g, s.disk)[ino := i]
    && AllContents(g, s'.disk, DiskInodes(g, s'.disk)) == AllContents(g, s.disk, DiskInodes(g, s.disk))
    && SameBlocks(g, s.disk, DiskInodes(g, s.disk), s'.disk, DiskInodes(g, s'.disk))
    && s'.sbBlocks == s.sbBlocks
  }

  lemma InodeUnused(g: Geometry, s: FsState, inodes: Inodes, group: nat, index: nat)
    requires FsValid(g, s) && inodes == DiskInodes(g, s.disk)
    requires group < |g.groups| && index < g.inodesPerGroup && !InodeUsed(g, s.disk, g.InodeNo(group, index))
    ensures g.InodeNo(group, index) !in inodes
  {
  }

  lemma TakeNumber(g: Geometry, s: FsState, inodes: Inodes, group: nat, index: nat)
    requires FsValid(g, s) && inodes == DiskInodes(g, s.disk)
    requires group < |g.groups| && index < g.inodesPerGroup && !BitAt(InodeMaps(g, s.disk)[group], index)
    ensures var ino, s1 := g.InodeNo(group, index), TakeInode(g, s, group, index);
            && Consistent(g, s1, inodes) && g.HasInode(ino) && ino !in inodes
            && ino in DiskInodes(g, s1.disk) && DiskInodes(g, s1.disk) - {ino} == inodes
            && AllContents(g, s1.disk, inodes) == AllContents(g, s.disk, inodes)
            && SameBlocks(g, s.disk, inodes, s1.disk, inodes)
  {
    hide CountsOk, FreeBlocksUsable, Owned, AllTargets, AllContents, FileBlock, InodeAt, InodeUsed, SameBlocks;
    TakeInodeKeeps(g, s, inodes, group, index);
    InodeUnused(g, s, inodes, group, index);
    MetaKeepsContents(g, s, TakeInode(g, s, group, index).disk, inodes, InodeBitmap(group));
    MetaSameBlocks(g, s.disk, TakeInode(g, s, group, index).disk, inodes);
  }

  lemma PutBack(all: Inodes, rest: Inodes, ino: nat, i: Inode)
    requires ino in all && all - {ino} == rest
    ensures all[ino := i] == rest[ino := i]
  {
  }

  lemma TakeAway(rest: Inodes, ino: nat, i: Inode)
    requires ino !in rest
    ensures rest[ino := i] - {ino} == rest
  {
  }

  lemma StoreFresh(g: Geometry, s1: FsState, inodes: Inodes, ino: nat, i: Inode)
    requires Consistent(g, s1, inodes) && g.HasInode(ino) && ino !in inodes
    requires ino in DiskInodes(g, s1.disk) && DiskInodes(g, s1.disk) - {ino} == inodes
    requires forall k: nat :: k <= DIND ==> Slot(i, k) == 0
    ensures var s2 := WriteInode(g, s1, ino, i);
            && FsValid(g, s2) && DiskInodes(g, s2.disk) == inodes[ino := i]
            && AllContents(g, s2.disk, inodes[ino := i]) == AllContents(g, s1.disk, inodes)
            && SameBlocks(g, s1.disk, inodes, s2.disk, inodes[ino := i])
            && InodeMaps(g, s2.disk) == InodeMaps(g, s1.disk)
  {
    hide CountsOk, FreeBlocksUsable, Owned, AllTargets, AllContents, FileBlock, PasteInode, InodeAt, Slot, Strays;
    InodeHome(g, ino);
    WriteInodeKeeps(g, s1, inodes, ino, i);
    PutBack(DiskInodes(g, s1.disk), inodes, ino, i);
    var s2 := WriteInode(g, s1, ino, i);
    MetaKeepsContents(g, s1, s2.disk, inodes, InodeTable(g.InodeGroup(ino), g.TableIndex(ino)));
    MetaSameBlocks(g, s1.disk, s2.disk, inodes);
    EmptyInodeMatters(g, s2, inodes, ino, i);
  }

  lemma TakeInodeMaps(g: Geometry, s: FsState, group: nat, index: nat)
    requires FsValid(g, s) && group < |g.groups| && index < g.inodesPerGroup
    ensures DiskOk(g, TakeInode(g, s, group, index).disk)
    ensures InodeMaps(g, TakeInode(g, s, group, index).disk) ==
            InodeMaps(g, s.disk)[group := SetBitAt(InodeMaps(g, s.disk)[group], index)]
  {
    var inodes := DiskInodes(g, s.disk);
    InodeBitmapApart(g, s.disk, AllTargets(g, s.disk, inodes), inodes, group);
    InodeMapsAfter(g, s.disk, group, SetBitAt(s.disk[g.groups[group].inodeBitmap], index));
  }

  /** s' is s after a free inode number was taken and i stored there. */
  ghost predicate FileBorn(g: Geometry, s: FsState, s': FsState, group: nat, index: nat, i: Inode) {
    && FsValid(g, s) && FsValid(g, s') && group < |g.groups| && index < g.inodesPerGroup
    && !BitAt(InodeMaps(g, s.disk)[group], index) && g.HasInode(g.InodeNo(group, index))
    && s' == TakeInode(g, s, group, index).(disk := s'.disk)
    && InodeMaps(g, s'.disk) == InodeMaps(g, s.disk)[group := SetBitAt(InodeMaps(g, s.disk)[group], index)]
    && InodeBorn(g, s, s', g.InodeNo(group, index), i)
  }

  lemma NewInode(g: Geometry, s: FsState, group: nat, index: nat, i: Inode)
    requires FsValid(g, s) && (forall k: nat :: k <= DIND ==> Slot(i, k) == 0)
    requires group < |g.groups| && index < g.inodesPerGroup && !BitAt(InodeMaps(g, s.disk)[group], index)
    ensures var ino, s1 := g.InodeNo(group, index), TakeInode(g, s, group, index);
            && DiskOk(g, s1.disk) && g.HasInode(ino)
            && FileBorn(g, s, WriteInode(g, s1, ino, i), group, index, i)
  {
    hide CountsOk, FreeBlocksUsable, Owned, AllTargets, AllContents, FileBlock, PasteInode;
    hide InodeAt, Slot, InodeUsed, Strays;
    TakeNumber(g, s, DiskInodes(g, s.disk), group, index);
    var s1, ino, inodes := TakeInode(g, s, group, index), g.InodeNo(group, index), DiskInodes(g, s.disk);
    StoreFresh(g, s1, inodes, ino, i);
    SameBlocksTrans(g, s.disk, inodes, s1.disk, inodes, WriteInode(g, s1, ino, i).disk, inodes[ino := i]);
    TakeInodeMaps(g, s, group, index);
  }

  /** Giving back the number of an inode that names no blocks. */
  lemma GiveNumber(g: Geometry, s3: FsState, inodes: Inodes, group: nat, index: nat, i: Inode)
    requires FsValid(g, s3) && group < |g.groups| && index < g.inodesPerGroup
    requires g.InodeNo(group, index) !in inodes && DiskInodes(g, s3.disk) == inodes[g.InodeNo(group, index) := i]
    requires BitAt(InodeMaps(g, s3.disk)[group], index) && (forall k: nat :: k <= DIND ==> Slot(i, k) == 0)
    ensures var s4 := GiveInode(g, s3, group, index);
            && FsValid(g, s4) && DiskInodes(g, s4.disk) == inodes
            && AllContents(g, s4.disk, inodes) == AllContents(g, s3.disk, inodes[g.InodeNo(group, index) := i])
            && Strays(g, s4.disk, inodes) == Strays(g, s3.disk, inodes[g.InodeNo(group, index) := i])
            && BlockMaps(g, s4.disk) == BlockMaps(g, s3.disk)
  {
    hide CountsOk, FreeBlocksUsable, Owned, AllTargets, AllContents, FileBlock, Slot, InodeUsed, Strays;
    var ino, s4 := g.InodeNo(group, index), GiveInode(g, s3, group, index);
    EmptyInodeMatters(g, s3, inodes, ino, i);
    GiveInodeKeeps(g, s3, inodes, group, index);
    TakeAway(inodes, ino, i);
    MetaKeepsContents(g, s3, s4.disk, inodes, InodeBitmap(group));
    StraysFrame(g, s3.disk, inodes, s4.disk, inodes);
  }

  lemma UnbornMaps(g: Geometry, s: FsState, group: nat, index: nat)
    requires FsValid(g, s) && group < |g.groups| && index < g.inodesPerGroup
    ensures DiskOk(g, GiveInode(g, s, group, index).disk)
    ensures InodeMaps(g, GiveInode(g, s, group, index).disk) ==
            InodeMaps(g, s.disk)[group := ClearBitAt(InodeMaps(g, s.disk)[group], index)]
  {
    var inodes := DiskInodes(g, s.disk);
    InodeBitmapApart(g, s.disk, AllTargets(g, s.disk, inodes), inodes, group);
    InodeMapsAfter(g, s.disk, group, ClearBitAt(s.disk[g.groups[group].inodeBitmap], index));
  }

  lemma UnbornCounts(g: Geometry, s: FsState, group: nat, index: nat)
    requires BaseOk(g, s) && group < |g.groups| && index < g.inodesPerGroup
             && !BitAt(InodeMaps(g, s.disk)[group], index)
    ensures var c := s.counts[group];
            && Inc(Dec(c.inodesLo, 0x10000), 0x10000) == c.inodesLo
            && Inc(Dec(s.sbInodes, WORD), WORD) == s.sbInodes
  {
    CountsTakeInode(g, InodeMaps(g, s.disk), s.counts, s.sbInodes, group, index);
    TotalsBelow(g, s);
  }

  /** Giving the number of a still empty inode back undoes its creation. */
  lemma UnbornInode(g: Geometry, s: FsState, s2: FsState, s3: FsState, group: nat, index: nat, i: Inode)
    requires FileBorn(g, s, s2, group, index, i) && (forall k: nat :: k <= DIND ==> Slot(i, k) == 0)
    requires Untouched(g, s2, s3) && FsValid(g, s3)
    ensures var s4 := GiveInode(g, s3, group, index);
            FsValid(g, s4) && Untouched(g, s, s4)
  {
    hide CountsOk, FreeBlocksUsable, Owned, AllTargets, AllContents, FileBlock, Slot, InodeUsed, DiskInodes;
    hide SetBitAt, ClearBitAt, BitAt, Strays;
    var maps := InodeMaps(g, s.disk);
    SetBitAtBits(maps[group], index, index);
    GiveNumber(g, s3, DiskInodes(g, s.disk), group, index, i);
    UnbornMaps(g, s3, group, index);
    ClearAfterSet(maps[group], index);
    UnbornCounts(g, s, group, index);
  }

  // ---- what changes and what does not ----

  /** Outside the inodes in d, inodes and file contents are the same. */
  ghost predicate SameOutside(g: Geometry, s: FsState, s': FsState, d: iset<nat>) {
    && g.Valid() && DiskOk(g, s.disk) && DiskOk(g, s'.disk)
    && var inodes, inodes' := DiskInodes(g, s.disk), DiskInodes(g, s'.disk);
       var c, c' := AllContents(g, s.disk, inodes), AllContents(g, s'.disk, inodes');
       && (forall i: nat :: i !in d ==> (i in inodes' <==> i in inodes) && (i in inodes ==> inodes'[i] == inodes[i]))
       && (forall i: nat, fb: nat :: i !in d ==>
             ((i, fb) in c' <==> (i, fb) in c) && ((i, fb) in c ==> c'[(i, fb)] == c[(i, fb)]))
  }

  lemma SameOutsideTrans(g: Geometry, s: FsState, s1: FsState, s2: FsState, d: iset<nat>)
    requires SameOutside(g, s, s1, d) && SameOutside(g, s1, s2, d)
    ensures SameOutside(g, s, s2, d)
  {
    hide AllContents, DiskInodes, DiskOk;
  }

  lemma SameOutsideMore(g: Geometry, s: FsState, s1: FsState, d: iset<nat>, e: iset<nat>)
    requires SameOutside(g, s, s1, d) && d <= e
    ensures SameOutside(g, s, s1, e)
  {
    hide AllContents, DiskInodes, DiskOk;
  }

  lemma BornSame(g: Geometry, s: FsState, s': FsState, ino: nat, i: Inode, d: iset<nat>)
    requires InodeBorn(g, s, s', ino, i) && ino in d
    ensures SameOutside(g, s, s', d)
  {
    hide AllContents, DiskInodes, DiskOk;
  }

  lemma AddedSame(g: Geometry, s: FsState, s': FsState, dir: nat, e: DirEntry, d: iset<nat>)
    requires EntryAdded(g, s, s', dir, e) && dir in d
    ensures SameOutside(g, s, s', d)
  {
    hide AllContents, DiskInodes, DiskOk, IsDir, Names, HasRoom, Inserted, Mode, Links, Size;
  }

  lemma UntouchedSame(g: Geometry, s: FsState, s': FsState, d: iset<nat>)
    requires Untouched(g, s, s')
    ensures SameOutside(g, s, s', d)
  {
    hide AllContents, DiskInodes, DiskOk;
  }

  /** A directory that is not among the changed inodes lists the same names. */
  lemma NamesSame(g: Geometry, s: FsState, s': FsState, d: iset<nat>, dir: nat)
    requires SameOutside(g, s, s', d) && dir !in d && IsDir(g, s, dir)
    ensures IsDir(g, s', dir) && Names(g, s', dir) == Names(g, s, dir)
    ensures DiskInodes(g, s'.disk)[dir] == DiskInodes(g, s.disk)[dir]
  {
    hide AllContents, DiskInodes, DiskOk, BlockCount, Size, Tiled;
    var inodes, inodes' := DiskInodes(g, s.disk), DiskInodes(g, s'.disk);
    DirFrame(AllContents(g, s.disk, inodes), AllContents(g, s'.disk, inodes'), dir, BlockCount(g, Size(inodes[dir])));
  }

  // ---- the entries of a new directory ----

  const DOT: Buffer := [46]
  const DOTDOT: Buffer := [46, 46]

  lemma InsertedInEmpty(s: seq<DirEntry>, e: DirEntry)
    requires Inserted([], s, e)
    ensures s == [e]
  {
  }

  /** A block with a single record has room for anything that fits beside its name. */
  lemma SingleEntryRoom(b: Buffer, e: DirEntry, need: nat)
    requires Tiled(b, 0) && Entries(b, 0) == [e] && NeededLen(|e.name|) + need <= |b|
    ensures Room(b, 0, need)
  {
    var next := RecLen(b, 0);
    assert Entries(b, 0) == [EntryAt(b, 0)] + Entries(b, next);
    assert |Entries(b, next)| == 0;
    assert next == |b|;
    assert Entries(b, 0)[0] == EntryAt(b, 0);
    assert Fits(b, 0, need);
  }

  /** A directory of one block with one entry has room for another short name. */
  lemma OneEntryRoom(g: Geometry, s: FsState, dir: nat, e: DirEntry, need: nat)
    requires FsValid(g, s) && IsDir(g, s, dir) && Names(g, s, dir) == [e]
    requires Size(DiskInodes(g, s.disk)[dir]) == g.blockSize && NeededLen(|e.name|) + need <= g.blockSize
    ensures BlockCount(g, g.blockSize) == 1 && HasRoom(g, s, dir, need) && CanAddEntry(g, s, dir, need)
  {
    hide CountsOk, FreeBlocksUsable, Owned, AllTargets, AllContents, FileBlock, InodeUsed, Align4;
    hide Tiled, Entries, Size, DiskInodes, Room;
    OneBlockMore(g, 0);
    var inodes := DiskInodes(g, s.disk);
    var c := AllContents(g, s.disk, inodes);
    ContentsSize(g, s, inodes);
    assert DirEntries(c, dir, 1) == DirEntries(c, dir, 0) + (if (dir, 0) in c then Entries(c[(dir, 0)], 0) else []);
    assert (dir, 0) in c;
    SingleEntryRoom(c[(dir, 0)], e, need);
  }

  // ---- the parent's link count ----

  lemma LinksOnly(i: Inode, v: nat)
    requires v < 0x10000
    ensures var i' := WithLinks(i, v);
            && Links(i') == v && Size(i') == Size(i) && Mode(i') == Mode(i)
            && forall k: nat :: k <= DIND ==> Slot(i', k) == Slot(i, k)
  {
    Get16Put16(i, 26, v);
  }

  /** Growing and counting a link touch different bytes. */
  lemma LinksCommute(g: Geometry, was: Inode, i: Inode, n: nat, v: nat)
    requires Extended(g, was, i, n)
    ensures Extended(g, WithLinks(was, v), WithLinks(i, v), n)
  {
    hide Raised;
  }

  lemma LinksAsWere(was: Inode, now: Inode)
    requires Links(now) == Links(was)
    ensures WithLinks(was, Links(now)) == was
  {
  }

  lemma LinksStored(g: Geometry, s: FsState, dir: nat, i: Inode, v: nat)
    requires FsValid(g, s) && IsDir(g, s, dir) && i == DiskInodes(g, s.disk)[dir] && v < 0x10000
    ensures g.HasInode(dir)
    ensures var s' := WriteInode(g, s, dir, WithLinks(i, v));
            && FsValid(g, s') && SameOutside(g, s, s', iset{dir})
            && IsDir(g, s', dir) && Names(g, s', dir) == Names(g, s, dir)
            && DiskInodes(g, s'.disk)[dir] == WithLinks(i, v)
            && Conserved(g, s.disk, DiskInodes(g, s.disk), s'.disk, DiskInodes(g, s'.disk))
  {
    hide CountsOk, FreeBlocksUsable, Owned, AllTargets, AllContents, FileBlock, InodeUsed;
    hide Tiled, WithLinks, BlockCount, PasteInode;
    hide Strays, Grows;
    var inodes := DiskInodes(g, s.disk);
    SameInodes(inodes, dir, i);
    LinksOnly(i, v);
    StoreFinishes(g, s, inodes, dir, i, WithLinks(i, v));
    var s' := WriteInode(g, s, dir, WithLinks(i, v));
    StraysFrame(g, s.disk, inodes, s'.disk, DiskInodes(g, s'.disk));
  }

  // ---- creation as a whole ----

  /** The inode number a creation under parent would take. */
  ghost function InodeChoice(g: Geometry, disk: Disk, parent: nat): Choice {
    if g.Valid() && DiskOk(g, disk) && parent > 0 then
      Choose(InodeMaps(g, disk), g.inodesPerGroup / 8 * 8, g.InodeGroup(parent), 0)
    else Full
  }

  /** The names of a new directory: itself and its parent, or none when no block was left for them. */
  ghost predicate DotsIn(g: Geometry, s: FsState, ino: nat, parent: nat, room: bool)
    requires IsDir(g, s, ino)
  {
    if room then multiset(Names(g, s, ino)) == multiset{DirEntry(ino, DOT, 2), DirEntry(parent, DOTDOT, 2)}
    else Names(g, s, ino) == []
  }

  /** More free blocks than the entry in the parent takes: a new directory gets its own two entries. */
  ghost predicate RoomForDots(g: Geometry, s: FsState, parent: nat, need: nat)
    requires IsDir(g, s, parent)
  {
    s.sbBlocks > EntryCost(g, s, parent, need)
  }

  /** File ino was created under parent with entry e: nothing outside the two changed, the
      parent lists e besides what it listed, and a directory counts as one more link to
      its parent and lists itself and its parent exactly when the entry left a block free. */
  ghost predicate Created(g: Geometry, s: FsState, s': FsState, parent: nat, ino: nat, e: DirEntry, mode: nat) {
    && SameOutside(g, s, s', iset{parent, ino}) && ino != parent
    && ino !in DiskInodes(g, s.disk) && IsDir(g, s, parent)
    && IsDir(g, s', parent) && IsDir(g, s', ino)
    && Inserted(Names(g, s, parent), Names(g, s', parent), e)
    && var was, now, made := DiskInodes(g, s.disk)[parent], DiskInodes(g, s'.disk)[parent], DiskInodes(g, s'.disk)[ino];
       && Mode(now) == Mode(was) && Mode(made) == mode && Links(made) == 1
       && Links(now) == (if IsDirMode(mode) then (Links(was) + 1) % 0x10000 else Links(was))
       && Extended(g, WithLinks(was, Links(now)), now, if HasRoom(g, s, parent, NeededLen(|e.name|)) then 0 else 1)
       && Extended(g, FreshInode(mode), made,
                   if IsDirMode(mode) && RoomForDots(g, s, parent, NeededLen(|e.name|)) then 1 else 0)
       && (if IsDirMode(mode) then DotsIn(g, s', ino, parent, RoomForDots(g, s, parent, NeededLen(|e.name|)))
           else made == FreshInode(mode))
  }

  /** The blocks a creation takes: those of the parent's entry, and one for a directory that has room for its
      own entries. All of them are named afterwards, but for a block the parent's growth lost. */
  ghost predicate CreatedBlocks(g: Geometry, s: FsState, s': FsState, parent: nat, need: nat, mode: nat)
    requires IsDir(g, s, parent)
  {
    && Grows(g, s.disk, s'.disk)
    && s'.sbBlocks == s.sbBlocks - EntryCost(g, s, parent, need) -
                      (if IsDirMode(mode) && RoomForDots(g, s, parent, need) then 1 else 0)
    && Strays(g, s'.disk, DiskInodes(g, s'.disk)) ==
       Strays(g, s.disk, DiskInodes(g, s.disk)) +
       if HasRoom(g, s, parent, need) then iset{} else Block(PastEnd(g, s, parent))
  }

  /** A freshly born inode is an empty directory in the sense of having no entries. */
  lemma BornEmpty(g: Geometry, s: FsState, ino: nat)
    requires g.Valid() && DiskOk(g, s.disk) && ino in DiskInodes(g, s.disk) && Size(DiskInodes(g, s.disk)[ino]) == 0
    ensures BlockCount(g, 0) == 0 && IsDir(g, s, ino) && Names(g, s, ino) == []
    ensures forall need: nat :: !HasRoom(g, s, ino, need)
  {
    hide AllContents, DiskInodes, DiskOk, Size, InodeUsed, Tiled, Room;
  }

  /** The first entry of a directory without blocks takes one block and loses none. */
  lemma BornCost(g: Geometry, s: FsState, ino: nat, need: nat)
    requires g.Valid() && DiskOk(g, s.disk) && ino in DiskInodes(g, s.disk)
    requires Size(DiskInodes(g, s.disk)[ino]) == 0 && Slot(DiskInodes(g, s.disk)[ino], 0) == 0
    ensures IsDir(g, s, ino) && EntryCost(g, s, ino, need) == 1 && PastEnd(g, s, ino) == 0 && !HasRoom(g, s, ino, need)
    ensures CanAddEntry(g, s, ino, need) <==> s.sbBlocks > 0
  {
    hide AllContents, DiskInodes, DiskOk, Size, InodeUsed, HasRoom, FileBlock, DirOk, Slot;
    BornEmpty(g, s, ino);
    MapDirect(g, s.disk, DiskInodes(g, s.disk), ino, 0);
  }

  lemma StoredInode(g: Geometry, s: FsState, ino: nat)
    requires g.Valid() && DiskOk(g, s.disk) && ino in DiskInodes(g, s.disk)
    ensures g.HasInode(ino) && InodeBlock(g, ino) in s.disk && DiskInodes(g, s.disk)[ino] == InodeAt(g, s.disk, ino)
  {
    InodeHome(g, ino);
  }

  /** Either way an attempt to add an entry ends, only the directory may have changed. */
  lemma AddOutcome(g: Geometry, s: FsState, s': FsState, dir: nat, e: DirEntry, added: bool, d: iset<nat>)
    requires dir in d && IsDir(g, s, dir)
    requires if added then EntryAdded(g, s, s', dir, e) else Untouched(g, s, s')
    ensures SameOutside(g, s, s', d) && IsDir(g, s', dir)
    ensures added ==> Inserted(Names(g, s, dir), Names(g, s', dir), e)
    ensures var was, now := DiskInodes(g, s.disk)[dir], DiskInodes(g, s'.disk)[dir];
            && Mode(now) == Mode(was) && Links(now) == Links(was)
            && Extended(g, was, now, if added && !HasRoom(g, s, dir, NeededLen(|e.name|)) then 1 else 0)
    ensures !added ==>
              Names(g, s', dir) == Names(g, s, dir) && DiskInodes(g, s'.disk)[dir] == DiskInodes(g, s.disk)[dir]
  {
    hide AllContents, DiskInodes, DiskOk, SameOutside, HasRoom, Extended, Inserted, Mode, Links;
    if added {
      AddedSame(g, s, s', dir, e, d);
    } else {
      UntouchedSame(g, s, s', d);
      ExtendedNone(g, DiskInodes(g, s.disk)[dir]);
    }
  }

  /** A new inode neither makes nor takes room in a directory. */
  lemma BornRoom(g: Geometry, s: FsState, s1: FsState, parent: nat, ino: nat, i: Inode, need: nat)
    requires InodeBorn(g, s, s1, ino, i) && IsDir(g, s, parent) && IsDir(g, s1, parent)
    ensures CanAddEntry(g, s1, parent, need) <==> CanAddEntry(g, s, parent, need)
    ensures EntryCost(g, s1, parent, need) == EntryCost(g, s, parent, need)
    ensures HasRoom(g, s1, parent, need) == HasRoom(g, s, parent, need)
            && PastEnd(g, s1, parent) == PastEnd(g, s, parent)
  {
    hide AllContents, DiskOk, DirOk, FileBlock, Strays, BlockMaps, InodeUsed, Size, BlockCount;
  }

  /** What the rest of a creation needs to know about the new inode. */
  lemma BornFacts(g: Geometry, s: FsState, s1: FsState, parent: nat, ino: nat, i: Inode)
    requires InodeBorn(g, s, s1, ino, i) && IsDir(g, s, parent)
    ensures ino != parent && ino !in DiskInodes(g, s.disk)
    ensures SameOutside(g, s, s1, iset{ino}) && SameOutside(g, s, s1, iset{parent, ino})
    ensures IsDir(g, s1, parent) && Names(g, s1, parent) == Names(g, s, parent)
    ensures DiskInodes(g, s1.disk)[parent] == DiskInodes(g, s.disk)[parent]
    ensures ino in DiskInodes(g, s1.disk) && DiskInodes(g, s1.disk)[ino] == i
  {
    hide AllContents, DiskOk, SameOutside, Names, DirOk, InodeUsed;
    BornSame(g, s, s1, ino, i, iset{ino});
    BornSame(g, s, s1, ino, i, iset{parent, ino});
    NamesSame(g, s, s1, iset{ino}, parent);
  }

  lemma EntryFacts(g: Geometry, s: FsState, s1: FsState, s2: FsState, parent: nat, ino: nat, e: DirEntry, i: Inode)
    requires InodeBorn(g, s, s1, ino, i) && IsDir(g, s, parent) && EntryAdded(g, s1, s2, parent, e)
    requires Size(i) == 0
    ensures ino != parent && SameOutside(g, s, s2, iset{parent, ino})
    ensures ino !in DiskInodes(g, s.disk) && ino in DiskInodes(g, s2.disk) && DiskInodes(g, s2.disk)[ino] == i
    ensures IsDir(g, s2, parent) && Inserted(Names(g, s, parent), Names(g, s2, parent), e)
    ensures IsDir(g, s2, ino)
    ensures Mode(DiskInodes(g, s2.disk)[parent]) == Mode(DiskInodes(g, s.disk)[parent])
    ensures Links(DiskInodes(g, s2.disk)[parent]) == Links(DiskInodes(g, s.disk)[parent])
    ensures Extended(g, DiskInodes(g, s.disk)[parent], DiskInodes(g, s2.disk)[parent],
                     if HasRoom(g, s, parent, NeededLen(|e.name|)) then 0 else 1)
  {
    hide AllContents, DiskInodes, DiskOk, SameOutside, Names, DirOk, HasRoom, Inserted, Mode, Links, Extended;
    BornFacts(g, s, s1, parent, ino, i);
    BornRoom(g, s, s1, parent, ino, i, NeededLen(|e.name|));
    AddedSame(g, s1, s2, parent, e, iset{parent, ino});
    SameOutsideTrans(g, s, s1, s2, iset{parent, ino});
    BornEmpty(g, s2, ino);
  }

  /** An attempt to add an entry to a directory that maps nothing past its end. */
  lemma AddedConserves(g: Geometry, s: FsState, s': FsState, dir: nat, need: nat, added: bool)
    requires IsDir(g, s, dir) && (HasRoom(g, s, dir, need) || PastEnd(g, s, dir) == 0)
    requires if added then EntryBlocks(g, s, s', dir, need) else Untouched(g, s, s')
    ensures Conserved(g, s.disk, DiskInodes(g, s.disk), s'.disk, DiskInodes(g, s'.disk))
    ensures s'.sbBlocks == s.sbBlocks - if added then EntryCost(g, s, dir, need) else 0
  {
    hide IsDir, HasRoom, PastEnd, Strays, DiskInodes, AllContents, EntryCost;
    if !added {
      SameMaps(g, s.disk, s'.disk);
    }
  }

  /** The blocks of a creation as a whole: the inode, the parent's entry, the directory's own entries. */
  lemma CreationBlocks(g: Geometry, s: FsState, s1: FsState, s2: FsState, s3: FsState,
                       parent: nat, ino: nat, i: Inode, need: nat, mode: nat)
    requires InodeBorn(g, s, s1, ino, i) && IsDir(g, s, parent) && IsDir(g, s1, parent)
             && EntryBlocks(g, s1, s2, parent, need)
    requires DiskOk(g, s2.disk) && DiskOk(g, s3.disk)
    requires Conserved(g, s2.disk, DiskInodes(g, s2.disk), s3.disk, DiskInodes(g, s3.disk))
    requires s3.sbBlocks == s2.sbBlocks - if IsDirMode(mode) && s2.sbBlocks > 0 then 1 else 0
    ensures CreatedBlocks(g, s, s3, parent, need, mode)
    ensures RoomForDots(g, s, parent, need) <==> s2.sbBlocks > 0
  {
    hide IsDir, HasRoom, PastEnd, Strays, DiskInodes, AllContents, EntryCost, IsDirMode, Grows, FileBlock;
    BornRoom(g, s, s1, parent, ino, i, need);
    SameMaps(g, s.disk, s1.disk);
    GrowsTrans(g, s.disk, s1.disk, s2.disk);
    GrowsTrans(g, s.disk, s2.disk, s3.disk);
  }
}
