/** Files as block contents: the block map as a function from file blocks to places,
    and how writes and pointer updates change what files hold. */
module Ext4Files {
  import opened Bytes
  import opened Ext4Layout
  import opened Ext4Ownership
  import opened Ext4Alloc
  import opened Ext4State
  import opened Ext4Steps
  import opened Arith

  // ---- the block map ----

  /** File blocks reachable through direct, indirect and double indirect pointers. */
  predicate Mappable(g: Geometry, fb: nat) {
    fb < N_DIRECT + g.Pointers() || fb - N_DIRECT - g.Pointers() < g.Pointers() * g.Pointers()
  }

  lemma SmallMappable(g: Geometry, fb: nat)
    requires fb < N_DIRECT + g.Pointers()
    ensures Mappable(g, fb)
  {
  }

  /** Where the pointer of file block fb is kept. */
  function PlaceOf(g: Geometry, ino: nat, fb: nat): (p: Place)
    requires g.Valid() && Mappable(g, fb)
    ensures IsData(p)
  {
    if fb < N_DIRECT then InodeSlot(ino, fb)
    else if fb < N_DIRECT + g.Pointers() then Entry(InodeSlot(ino, IND), fb - N_DIRECT)
    else
      var r := fb - N_DIRECT - g.Pointers();
      Entry(Entry(InodeSlot(ino, DIND), r / g.Pointers()), r % g.Pointers())
  }

  lemma PlaceOfIsPlace(g: Geometry, inos: iset<nat>, ino: nat, fb: nat)
    requires g.Valid() && Mappable(g, fb) && ino in inos
    ensures IsPlace(g, inos, PlaceOf(g, ino, fb))
  {
    if fb >= N_DIRECT + g.Pointers() {
      var r := fb - N_DIRECT - g.Pointers();
      assert r / g.Pointers() < g.Pointers() by {
        if r / g.Pointers() >= g.Pointers() {
          MulLe(g.Pointers(), r / g.Pointers(), g.Pointers());
          Quotient(r, g.Pointers());
        }
      }
    }
  }

  /** Different file blocks, of one file or of two, have different places. */
  lemma PlaceOfInjective(g: Geometry, ino: nat, fb: nat, ino': nat, fb': nat)
    requires g.Valid() && Mappable(g, fb) && Mappable(g, fb')
    requires PlaceOf(g, ino, fb) == PlaceOf(g, ino', fb')
    ensures ino == ino' && fb == fb'
  {
    if fb >= N_DIRECT + g.Pointers() {
      SplitUnique(fb - N_DIRECT - g.Pointers(), fb' - N_DIRECT - g.Pointers(), g.Pointers());
    }
  }

  /** The disk block of a file block, 0 for a hole: the map ext4_get_file_block computes. */
  ghost function FileBlock(g: Geometry, disk: Disk, inodes: Inodes, ino: nat, fb: nat): nat
    requires g.Valid() && ino in inodes
  {
    if Mappable(g, fb) then
      PlaceOfIsPlace(g, inodes.Keys, ino, fb);
      Target(g, disk, inodes, PlaceOf(g, ino, fb))
    else 0
  }

  // ---- contents ----

  type Contents = imap<(nat, nat), Buffer>

  function BlockAt(disk: Disk, b: nat): Buffer { if b in disk then disk[b] else [] }

  /** The mapped blocks of all files: (inode number, file block) to bytes. */
  ghost function AllContents(g: Geometry, disk: Disk, inodes: Inodes): Contents
    requires g.Valid()
  {
    imap k: (nat, nat) | k.0 in inodes && FileBlock(g, disk, inodes, k.0, k.1) != 0 ::
      BlockAt(disk, FileBlock(g, disk, inodes, k.0, k.1))
  }

  lemma ContentsSize(g: Geometry, s: FsState, inodes: Inodes)
    requires Consistent(g, s, inodes)
    ensures forall k :: k in AllContents(g, s.disk, inodes) ==> |AllContents(g, s.disk, inodes)[k]| == g.blockSize
  {
    var t := AllTargets(g, s.disk, inodes);
    forall k: (nat, nat) | k in AllContents(g, s.disk, inodes)
      ensures FileBlock(g, s.disk, inodes, k.0, k.1) in s.disk
    {
      PlaceOfIsPlace(g, inodes.Keys, k.0, k.1);
      assert t[PlaceOf(g, k.0, k.1)] == FileBlock(g, s.disk, inodes, k.0, k.1);
    }
  }

  lemma FileBlockStored(g: Geometry, s: FsState, inodes: Inodes, ino: nat, fb: nat)
    requires Consistent(g, s, inodes) && ino in inodes
    ensures var b, c := FileBlock(g, s.disk, inodes, ino, fb), AllContents(g, s.disk, inodes);
            && ((ino, fb) in c <==> b != 0)
            && (b != 0 ==> b in s.disk && |s.disk[b]| == g.blockSize && c[(ino, fb)] == s.disk[b])
  {
    if FileBlock(g, s.disk, inodes, ino, fb) != 0 {
      PlaceOfIsPlace(g, inodes.Keys, ino, fb);
      assert PlaceOf(g, ino, fb) in AllTargets(g, s.disk, inodes);
    }
  }

  lemma SameTargetsSameMap(g: Geometry, disk: Disk, disk': Disk, inodes: Inodes, inodes': Inodes)
    requires g.Valid() && inodes'.Keys == inodes.Keys && AllTargets(g, disk', inodes') == AllTargets(g, disk, inodes)
    ensures forall i, k :: i in inodes ==> FileBlock(g, disk', inodes', i, k) == FileBlock(g, disk, inodes, i, k)
  {
    forall i: nat, k: nat | i in inodes && Mappable(g, k)
      ensures FileBlock(g, disk', inodes', i, k) == FileBlock(g, disk, inodes, i, k)
    {
      PlaceOfIsPlace(g, inodes.Keys, i, k);
      var p := PlaceOf(g, i, k);
      assert AllTargets(g, disk', inodes')[p] == AllTargets(g, disk, inodes)[p];
    }
  }

  /** No disk block belongs to two file blocks. */
  lemma FileBlockOnce(g: Geometry, disk: Disk, inodes: Inodes, ino: nat, fb: nat, ino': nat, fb': nat)
    requires g.Valid() && DiskOk(g, disk) && Owned(g, disk, AllTargets(g, disk, inodes))
    requires ino in inodes && ino' in inodes
    requires FileBlock(g, disk, inodes, ino, fb) == FileBlock(g, disk, inodes, ino', fb') != 0
    ensures ino == ino' && fb == fb'
  {
    var t := AllTargets(g, disk, inodes);
    PlaceOfIsPlace(g, inodes.Keys, ino, fb);
    PlaceOfIsPlace(g, inodes.Keys, ino', fb');
    assert t[PlaceOf(g, ino, fb)] == t[PlaceOf(g, ino', fb')];
    PlaceOfInjective(g, ino, fb, ino', fb');
  }

  lemma ContentsAfterWrite(g: Geometry, disk: Disk, inodes: Inodes, ino: nat, fb: nat, x: Buffer)
    requires g.Valid() && DiskOk(g, disk) && ino in inodes
    requires Owned(g, disk, AllTargets(g, disk, inodes))
    requires var b := FileBlock(g, disk, inodes, ino, fb);
             b != 0 && AllTargets(g, disk[b := x], inodes) == AllTargets(g, disk, inodes)
    ensures var b := FileBlock(g, disk, inodes, ino, fb);
            AllContents(g, disk[b := x], inodes) == AllContents(g, disk, inodes)[(ino, fb) := x]
  {
    var b := FileBlock(g, disk, inodes, ino, fb);
    SameTargetsSameMap(g, disk, disk[b := x], inodes, inodes);
    forall i: nat, k: nat | i in inodes && FileBlock(g, disk, inodes, i, k) == b
      ensures (i, k) == (ino, fb)
    {
      FileBlockOnce(g, disk, inodes, ino, fb, i, k);
    }
  }

  /** Writing the block of a mapped file block changes that block of that file alone. */
  lemma FileWriteKeeps(g: Geometry, s: FsState, inodes: Inodes, ino: nat, fb: nat, x: Buffer)
    requires Consistent(g, s, inodes) && ino in inodes && |x| == g.blockSize
    requires FileBlock(g, s.disk, inodes, ino, fb) != 0
    ensures var b := FileBlock(g, s.disk, inodes, ino, fb);
            var s' := s.(disk := s.disk[b := x]);
            && Consistent(g, s', inodes)
            && AllTargets(g, s'.disk, inodes) == AllTargets(g, s.disk, inodes)
            && DiskInodes(g, s'.disk) == DiskInodes(g, s.disk) && BlockMaps(g, s'.disk) == BlockMaps(g, s.disk)
            && AllContents(g, s'.disk, inodes) == AllContents(g, s.disk, inodes)[(ino, fb) := x]
  {
    var b, p := FileBlock(g, s.disk, inodes, ino, fb), PlaceOf(g, ino, fb);
    var t := AllTargets(g, s.disk, inodes);
    PlaceOfIsPlace(g, inodes.Keys, ino, fb);
    assert p in t && t[p] == b;
    NotMetadata(g, s.disk, inodes, b);
    BaseFrame(g, s, b, x);
    NamedNotPointer(g, s.disk, t, p);
    WriteKeepsTargets(g, s.disk, inodes, b, x);
    OwnedFrame(g, s.disk, s.disk[b := x], t);
    ContentsAfterWrite(g, s.disk, inodes, ino, fb, x);
  }

  /** Same targets, and contents equal but for a block no file block names. */
  lemma ContentsFrame(g: Geometry, disk: Disk, disk': Disk, inodes: Inodes, inodes': Inodes, b: nat)
    requires g.Valid() && inodes'.Keys == inodes.Keys && AllTargets(g, disk', inodes') == AllTargets(g, disk, inodes)
    requires forall c :: c != b ==> BlockAt(disk', c) == BlockAt(disk, c)
    requires forall p :: p in AllTargets(g, disk, inodes) && IsData(p) && b != 0 ==> AllTargets(g, disk, inodes)[p] != b
    ensures AllContents(g, disk', inodes') == AllContents(g, disk, inodes)
  {
    SameTargetsSameMap(g, disk, disk', inodes, inodes');
    forall k: (nat, nat) | k.0 in inodes && FileBlock(g, disk, inodes, k.0, k.1) != 0
      ensures FileBlock(g, disk, inodes, k.0, k.1) != b || b == 0
    {
      PlaceOfIsPlace(g, inodes.Keys, k.0, k.1);
      assert PlaceOf(g, k.0, k.1) in AllTargets(g, disk, inodes);
    }
  }

  /** Writing a block that nothing names changes no file. */
  lemma ScratchWriteKeeps(g: Geometry, s: FsState, inodes: Inodes, b: nat, x: Buffer)
    requires Consistent(g, s, inodes) && |x| == g.blockSize && b in s.disk && b != 0
    requires Unnamed(AllTargets(g, s.disk, inodes), b)
    ensures var s' := s.(disk := s.disk[b := x]);
            && Consistent(g, s', inodes)
            && AllTargets(g, s'.disk, inodes) == AllTargets(g, s.disk, inodes)
            && DiskInodes(g, s'.disk) == DiskInodes(g, s.disk) && BlockMaps(g, s'.disk) == BlockMaps(g, s.disk)
            && AllContents(g, s'.disk, inodes) == AllContents(g, s.disk, inodes)
  {
    var t := AllTargets(g, s.disk, inodes);
    NotMetadata(g, s.disk, inodes, b);
    BaseFrame(g, s, b, x);
    UnnamedNotPointer(t, b);
    WriteKeepsTargets(g, s.disk, inodes, b, x);
    OwnedFrame(g, s.disk, s.disk[b := x], t);
    ContentsFrame(g, s.disk, s.disk[b := x], inodes, inodes, b);
  }

  // ---- linking blocks into a file ----

  /** A block that is marked used and exists but that nothing names yet. */
  ghost predicate Spare(g: Geometry, disk: Disk, inodes: Inodes, b: nat)
    requires g.Valid() && DiskOk(g, disk)
  {
    0 < b < WORD && b in disk && BlockUsed(g, disk, b) && Unnamed(AllTargets(g, disk, inodes), b)
  }

  /** How many free blocks filling the hole at file block fb takes: one, or two when the indirect block is
      still missing. */
  function MapCost(i: Inode, fb: nat): nat {
    if fb >= N_DIRECT && Slot(i, IND) == 0 then 2 else 1
  }

  /** A hole at file block fb can be filled: writes map direct and single indirect blocks. */
  predicate CanMap(g: Geometry, i: Inode, fb: nat, free: nat) {
    fb < N_DIRECT + g.Pointers() && free >= MapCost(i, fb)
  }

  /** The block map gained or changed exactly one file block. */
  ghost predicate MapUpdate(g: Geometry, disk: Disk, inodes: Inodes, disk': Disk, inodes': Inodes, ino: nat, fb: nat,
                            b: nat)
    requires g.Valid()
  {
    && inodes'.Keys == inodes.Keys
    && forall i: nat, k: nat :: i in inodes ==>
         FileBlock(g, disk', inodes', i, k) == if (i, k) == (ino, fb) then b else FileBlock(g, disk, inodes, i, k)
  }

  lemma MapAfterRelink(g: Geometry, disk: Disk, disk': Disk, inodes: Inodes, inodes': Inodes, ino: nat, fb: nat, b: nat)
    requires g.Valid() && inodes'.Keys == inodes.Keys && ino in inodes && Mappable(g, fb)
    requires AllTargets(g, disk', inodes') == AllTargets(g, disk, inodes)[PlaceOf(g, ino, fb) := b]
    ensures MapUpdate(g, disk, inodes, disk', inodes', ino, fb, b)
  {
    var t, t' := AllTargets(g, disk, inodes), AllTargets(g, disk', inodes');
    PlaceOfIsPlace(g, inodes.Keys, ino, fb);
    forall i: nat, k: nat | i in inodes && Mappable(g, k)
      ensures FileBlock(g, disk', inodes', i, k) == if (i, k) == (ino, fb) then b else FileBlock(g, disk, inodes, i, k)
    {
      PlaceOfIsPlace(g, inodes.Keys, i, k);
      assert t'[PlaceOf(g, i, k)] == FileBlock(g, disk', inodes', i, k);
      assert t[PlaceOf(g, i, k)] == FileBlock(g, disk, inodes, i, k);
      if PlaceOf(g, i, k) == PlaceOf(g, ino, fb) {
        PlaceOfInjective(g, i, k, ino, fb);
      }
    }
  }

  /** Pointing a file block at another disk block changes the contents of that file block
      only, provided the blocks of the other file blocks keep their bytes. */
  lemma ContentsAfterRelink(g: Geometry, disk: Disk, inodes: Inodes, disk': Disk, inodes': Inodes, ino: nat, fb: nat,
                            b: nat)
    requires g.Valid() && ino in inodes && b != 0
    requires MapUpdate(g, disk, inodes, disk', inodes', ino, fb, b)
    requires forall p :: p in AllTargets(g, disk, inodes) && IsData(p) ==>
               BlockAt(disk', AllTargets(g, disk, inodes)[p]) == BlockAt(disk, AllTargets(g, disk, inodes)[p])
    ensures AllContents(g, disk', inodes') == AllContents(g, disk, inodes)[(ino, fb) := BlockAt(disk', b)]
  {
    forall i: nat, k: nat | i in inodes && FileBlock(g, disk, inodes, i, k) != 0
      ensures BlockAt(disk', FileBlock(g, disk, inodes, i, k)) == BlockAt(disk, FileBlock(g, disk, inodes, i, k))
    {
      PlaceOfIsPlace(g, inodes.Keys, i, k);
      var p := PlaceOf(g, i, k);
      assert p in AllTargets(g, disk, inodes) && AllTargets(g, disk, inodes)[p] == FileBlock(g, disk, inodes, i, k);
    }
  }

  /** What re-pointing one file block at a spare block amounts to. */
  lemma Relinked(g: Geometry, s: FsState, s': FsState, inodes: Inodes, inodes': Inodes, ino: nat, fb: nat, b: nat)
    requires Consistent(g, s, inodes) && BaseOk(g, s') && BlockMaps(g, s'.disk) == BlockMaps(g, s.disk)
    requires inodes'.Keys == inodes.Keys && ino in inodes && Mappable(g, fb) && Spare(g, s.disk, inodes, b)
    requires s'.disk.Keys == s.disk.Keys && s'.disk[b] == s.disk[b]
    requires forall p :: p in AllTargets(g, s.disk, inodes) && IsData(p) ==>
               BlockAt(s'.disk, AllTargets(g, s.disk, inodes)[p]) == BlockAt(s.disk, AllTargets(g, s.disk, inodes)[p])
    requires AllTargets(g, s'.disk, inodes') == AllTargets(g, s.disk, inodes)[PlaceOf(g, ino, fb) := b]
    ensures Consistent(g, s', inodes')
    ensures MapUpdate(g, s.disk, inodes, s'.disk, inodes', ino, fb, b)
    ensures AllContents(g, s'.disk, inodes') == AllContents(g, s.disk, inodes)[(ino, fb) := s.disk[b]]
  {
    var t := AllTargets(g, s.disk, inodes);
    PlaceOfIsPlace(g, inodes.Keys, ino, fb);
    OwnedFrame(g, s.disk, s'.disk, t);
    OwnedAfterRelink(g, s'.disk, t, PlaceOf(g, ino, fb), b);
    MapAfterRelink(g, s.disk, s'.disk, inodes, inodes', ino, fb, b);
    ContentsAfterRelink(g, s.disk, inodes, s'.disk, inodes', ino, fb, b);
  }

  lemma LinkDirect(g: Geometry, s: FsState, inodes: Inodes, ino: nat, fb: nat, b: nat)
    requires Consistent(g, s, inodes) && ino in inodes && fb < N_DIRECT && Spare(g, s.disk, inodes, b)
    ensures var inodes' := WithInode(inodes, ino, WithSlot(inodes[ino], fb, b));
            && Consistent(g, s, inodes')
            && MapUpdate(g, s.disk, inodes, s.disk, inodes', ino, fb, b)
            && AllTargets(g, s.disk, inodes') == AllTargets(g, s.disk, inodes)[InodeSlot(ino, fb) := b]
            && AllContents(g, s.disk, inodes') == AllContents(g, s.disk, inodes)[(ino, fb) := s.disk[b]]
  {
    SmallMappable(g, fb);
    TargetsAfterSlot(g, s.disk, inodes, ino, fb, b);
    Relinked(g, s, s, inodes, WithInode(inodes, ino, WithSlot(inodes[ino], fb, b)), ino, fb, b);
  }

  /** Re-pointing an indirect slot moves no file block when every other target stays. */
  lemma DataPlacesSame(g: Geometry, disk: Disk, inodes: Inodes, inodes': Inodes, ino: nat, b: nat)
    requires g.Valid() && inodes'.Keys == inodes.Keys && ino in inodes
    requires AllTargets(g, disk, inodes') == AllTargets(g, disk, inodes)[InodeSlot(ino, IND) := b]
    ensures forall i, k :: i in inodes ==> FileBlock(g, disk, inodes', i, k) == FileBlock(g, disk, inodes, i, k)
  {
    hide Target;
    var t, t' := AllTargets(g, disk, inodes), AllTargets(g, disk, inodes');
    forall i: nat, k: nat | i in inodes && Mappable(g, k)
      ensures FileBlock(g, disk, inodes', i, k) == FileBlock(g, disk, inodes, i, k)
    {
      PlaceOfIsPlace(g, inodes.Keys, i, k);
      assert t'[PlaceOf(g, i, k)] == t[PlaceOf(g, i, k)];
    }
  }

  lemma SameMapSameContents(g: Geometry, disk: Disk, inodes: Inodes, inodes': Inodes)
    requires g.Valid() && inodes'.Keys == inodes.Keys
    requires forall i, k :: i in inodes ==> FileBlock(g, disk, inodes', i, k) == FileBlock(g, disk, inodes, i, k)
    ensures AllContents(g, disk, inodes') == AllContents(g, disk, inodes)
  {
    hide FileBlock;
  }

  /** A zeroed block becomes a file's indirect block: no file block changes. */
  lemma LinkIndirect(g: Geometry, s: FsState, inodes: Inodes, ino: nat, b: nat)
    requires Consistent(g, s, inodes) && ino in inodes && Spare(g, s.disk, inodes, b)
    requires Slot(inodes[ino], IND) == 0 && s.disk[b] == Zeros(g.blockSize)
    ensures var inodes' := WithInode(inodes, ino, WithSlot(inodes[ino], IND, b));
            && Consistent(g, s, inodes')
            && AllTargets(g, s.disk, inodes') == AllTargets(g, s.disk, inodes)[InodeSlot(ino, IND) := b]
            && (forall i, k :: i in inodes ==>
                  FileBlock(g, s.disk, inodes', i, k) == FileBlock(g, s.disk, inodes, i, k))
            && AllContents(g, s.disk, inodes') == AllContents(g, s.disk, inodes)
            && Slot(inodes'[ino], IND) == b
  {
    hide FileBlock, AllContents, CountsOk, FreeBlocksUsable;
    var i := inodes[ino];
    var inodes' := WithInode(inodes, ino, WithSlot(i, IND, b));
    forall j: nat | j < g.Pointers() ensures Word(s.disk, b, j) == 0 {
      Get32Zeros(g.blockSize, 4 * j);
    }
    SlotOfWithSlot(i, IND, b, IND);
    TargetsAfterSlot(g, s.disk, inodes, ino, IND, b);
    var t, t' := AllTargets(g, s.disk, inodes), AllTargets(g, s.disk, inodes');
    OwnedAfterRelink(g, s.disk, t, InodeSlot(ino, IND), b);
    DataPlacesSame(g, s.disk, inodes, inodes', ino, b);
    SameMapSameContents(g, s.disk, inodes, inodes');
  }

  /** A file's indirect block exists, is no metadata and holds no file contents. */
  lemma IndirectBlock(g: Geometry, s: FsState, inodes: Inodes, ino: nat)
    requires Consistent(g, s, inodes) && ino in inodes && Slot(inodes[ino], IND) != 0
    ensures var ind, t := Slot(inodes[ino], IND), AllTargets(g, s.disk, inodes);
            && ind in s.disk && NotBlockBitmap(g, ind) && NotInodeMeta(g, ind)
            && !Unnamed(t, ind)
            && forall p :: p in t && IsData(p) ==> t[p] != ind
  {
    var at, t := InodeSlot(ino, IND), AllTargets(g, s.disk, inodes);
    assert at in t && t[at] == Slot(inodes[ino], IND);
    NotMetadata(g, s.disk, inodes, t[at]);
    NamedOnce(g, s.disk, t, at);
  }

  lemma EntryStep(g: Geometry, s: FsState, s': FsState, inodes: Inodes, ino: nat, j: nat, b: nat)
    requires Consistent(g, s, inodes) && ino in inodes && Spare(g, s.disk, inodes, b)
    requires j < g.Pointers() && Slot(inodes[ino], IND) != 0
    requires s' == s.(disk := s'.disk) && EntryWrite(g, s.disk, s'.disk, Slot(inodes[ino], IND), j, b)
    requires |s'.disk[Slot(inodes[ino], IND)]| == g.blockSize
    ensures BaseOk(g, s') && s'.disk.Keys == s.disk.Keys && s'.disk[b] == s.disk[b]
    ensures DiskInodes(g, s'.disk) == DiskInodes(g, s.disk) && BlockMaps(g, s'.disk) == BlockMaps(g, s.disk)
    ensures AllTargets(g, s'.disk, inodes) == AllTargets(g, s.disk, inodes)[Entry(InodeSlot(ino, IND), j) := b]
    ensures forall p :: p in AllTargets(g, s.disk, inodes) && IsData(p) ==>
               BlockAt(s'.disk, AllTargets(g, s.disk, inodes)[p]) == BlockAt(s.disk, AllTargets(g, s.disk, inodes)[p])
  {
    var ind := Slot(inodes[ino], IND);
    IndirectBlock(g, s, inodes, ino);
    BaseFrame(g, s, ind, s'.disk[ind]);
    TargetsAfterEntry(g, s.disk, inodes, InodeSlot(ino, IND), s'.disk, j, b);
  }

  /** Storing a block number in a file's indirect block. */
  lemma LinkEntry(g: Geometry, s: FsState, s': FsState, inodes: Inodes, ino: nat, fb: nat, b: nat)
    requires Consistent(g, s, inodes) && ino in inodes && Spare(g, s.disk, inodes, b)
    requires N_DIRECT <= fb < N_DIRECT + g.Pointers() && Slot(inodes[ino], IND) != 0
    requires s' == s.(disk := s'.disk) && EntryWrite(g, s.disk, s'.disk, Slot(inodes[ino], IND), fb - N_DIRECT, b)
    requires |s'.disk[Slot(inodes[ino], IND)]| == g.blockSize
    ensures Consistent(g, s', inodes)
    ensures DiskInodes(g, s'.disk) == DiskInodes(g, s.disk) && BlockMaps(g, s'.disk) == BlockMaps(g, s.disk)
    ensures MapUpdate(g, s.disk, inodes, s'.disk, inodes, ino, fb, b)
    ensures AllTargets(g, s'.disk, inodes) ==
            AllTargets(g, s.disk, inodes)[Entry(InodeSlot(ino, IND), fb - N_DIRECT) := b]
    ensures AllContents(g, s'.disk, inodes) == AllContents(g, s.disk, inodes)[(ino, fb) := s.disk[b]]
    ensures s'.disk[b] == s.disk[b]
  {
    hide CountsOk, FreeBlocksUsable, FileBlock, AllContents, AllTargets, MapUpdate, Owned;
    SmallMappable(g, fb);
    EntryStep(g, s, s', inodes, ino, fb - N_DIRECT, b);
    Relinked(g, s, s', inodes, inodes, ino, fb, b);
  }

  // ---- steps on metadata, seen from the files ----

  /** A write to a metadata block that moves no target changes no file. */
  lemma MetaKeepsContents(g: Geometry, s: FsState, disk': Disk, inodes: Inodes, p: Place)
    requires Consistent(g, s, inodes) && IsPlace(g, inodes.Keys, p) && !p.InodeSlot? && !p.Entry?
    requires AllTargets(g, disk', inodes) == AllTargets(g, s.disk, inodes)
    requires var b := Target(g, s.disk, inodes, p); b in disk' && disk' == s.disk[b := disk'[b]]
    ensures AllContents(g, disk', inodes) == AllContents(g, s.disk, inodes)
    ensures forall i: nat, k: nat :: i in inodes ==>
            FileBlock(g, disk', inodes, i, k) == FileBlock(g, s.disk, inodes, i, k)
  {
    var t := AllTargets(g, s.disk, inodes);
    assert p in t && t[p] == Target(g, s.disk, inodes, p);
    NamedOnce(g, s.disk, t, p);
    ContentsFrame(g, s.disk, disk', inodes, inodes, t[p]);
    SameTargetsSameMap(g, s.disk, disk', inodes, inodes);
  }

  /** Two states in which the same files hold the same bytes at the same places. */
  ghost predicate SameFiles(g: Geometry, disk: Disk, inodes: Inodes, disk': Disk, inodes': Inodes)
    requires g.Valid()
  {
    && inodes'.Keys == inodes.Keys
    && AllContents(g, disk', inodes') == AllContents(g, disk, inodes)
    && forall i: nat, k: nat :: i in inodes ==> FileBlock(g, disk', inodes', i, k) == FileBlock(g, disk, inodes, i, k)
  }

  /** An allocated block is spare, and every other spare block stays spare. */
  lemma AllocatedIsSpare(g: Geometry, s: FsState, inodes: Inodes, group: nat, index: nat)
    requires Consistent(g, s, inodes)
    requires group < |g.groups| && index < g.blocksPerGroup && !BitAt(BlockMaps(g, s.disk)[group], index)
    ensures var s', b := TakeBlock(g, s, group, index), g.BlockNo(group, index);
            && Consistent(g, s', inodes)
            && DiskInodes(g, s'.disk) == DiskInodes(g, s.disk)
            && SameFiles(g, s.disk, inodes, s'.disk, inodes)
            && Spare(g, s'.disk, inodes, b) && !BlockUsed(g, s.disk, b) && 0 < b < 0x8000_0000
            && b in s.disk && s'.disk[b] == s.disk[b] && Unnamed(AllTargets(g, s.disk, inodes), b)
            && forall c :: Spare(g, s.disk, inodes, c) ==>
                 c != b && Spare(g, s'.disk, inodes, c) && s'.disk[c] == s.disk[c]
  {
    var s', b := TakeBlock(g, s, group, index), g.BlockNo(group, index);
    TakeBlockKeeps(g, s, inodes, group, index);
    MetaKeepsContents(g, s, s'.disk, inodes, BlockBitmap(group));
    NotMetadata(g, s.disk, inodes, b);
    forall c | Spare(g, s.disk, inodes, c)
      ensures c != b && Spare(g, s'.disk, inodes, c) && s'.disk[c] == s.disk[c]
    {
      NotMetadata(g, s.disk, inodes, c);
      MarkedAfterSet(g, BlockMaps(g, s.disk), group, index, c);
    }
  }

  /** s' is s with the free block b taken. */
  ghost predicate Taken(g: Geometry, s: FsState, s': FsState, b: nat) {
    && g.Valid() && DiskOk(g, s.disk) && |s.counts| == |g.groups|
    && b >= g.firstDataBlock && g.BlockGroup(b) < |g.groups|
    && !BitAt(BlockMaps(g, s.disk)[g.BlockGroup(b)], g.BlockIndex(b))
    && s' == TakeBlock(g, s, g.BlockGroup(b), g.BlockIndex(b))
  }

  /** Zeroing a spare block and making it the indirect block changes no file. */
  lemma NewIndirect(g: Geometry, s: FsState, inodes: Inodes, ino: nat, b: nat, c: nat)
    requires Consistent(g, s, inodes) && ino in inodes && Slot(inodes[ino], IND) == 0
    requires Spare(g, s.disk, inodes, b) && Spare(g, s.disk, inodes, c) && b != c
    ensures var s2 := s.(disk := s.disk[b := Zeros(g.blockSize)]);
            var inodes' := WithInode(inodes, ino, WithSlot(inodes[ino], IND, b));
            && Consistent(g, s2, inodes')
            && DiskInodes(g, s2.disk) == DiskInodes(g, s.disk)
            && SameFiles(g, s.disk, inodes, s2.disk, inodes')
            && AllTargets(g, s2.disk, inodes') == AllTargets(g, s.disk, inodes)[InodeSlot(ino, IND) := b]
            && BlockMaps(g, s2.disk) == BlockMaps(g, s.disk)
            && Spare(g, s2.disk, inodes', c) && s2.disk[c] == s.disk[c]
            && Slot(inodes'[ino], IND) == b
  {
    var s2 := s.(disk := s.disk[b := Zeros(g.blockSize)]);
    ScratchWriteKeeps(g, s, inodes, b, Zeros(g.blockSize));
    SameTargetsSameMap(g, s.disk, s2.disk, inodes, inodes);
    LinkIndirect(g, s2, inodes, ino, b);
  }

  /** Linking through the indirect block, seen from a state with the same files. */
  lemma LinkThroughIndirect(g: Geometry, disk: Disk, inodes: Inodes, s1: FsState, s2: FsState, inodes1: Inodes,
                            ino: nat, fb: nat, b: nat)
    requires g.Valid() && Consistent(g, s1, inodes1) && SameFiles(g, disk, inodes, s1.disk, inodes1)
    requires ino in inodes1 && Slot(inodes1[ino], IND) != 0 && N_DIRECT <= fb < N_DIRECT + g.Pointers()
    requires Spare(g, s1.disk, inodes1, b) && b in disk && s1.disk[b] == disk[b]
    requires var ind := Slot(inodes1[ino], IND);
             ind in s1.disk && s2 == s1.(disk := s1.disk[ind := Put32(s1.disk[ind], 4 * (fb - N_DIRECT), b)])
    ensures Consistent(g, s2, inodes1)
    ensures DiskInodes(g, s2.disk) == DiskInodes(g, s1.disk)
    ensures MapUpdate(g, disk, inodes, s2.disk, inodes1, ino, fb, b)
    ensures AllTargets(g, s2.disk, inodes1) ==
            AllTargets(g, s1.disk, inodes1)[Entry(InodeSlot(ino, IND), fb - N_DIRECT) := b]
    ensures BlockMaps(g, s2.disk) == BlockMaps(g, s1.disk)
    ensures b in s2.disk && s2.disk[b] == disk[b]
    ensures AllContents(g, s2.disk, inodes1) == AllContents(g, disk, inodes)[(ino, fb) := BlockAt(s2.disk, b)]
  {
    var ind := Slot(inodes1[ino], IND);
    PutWord(g, s1.disk, s2.disk, ind, fb - N_DIRECT, b);
    LinkEntry(g, s1, s2, inodes1, ino, fb, b);
  }

  // ---- the block map in terms of stored words ----

  lemma NotMapped(g: Geometry, disk: Disk, inodes: Inodes, ino: nat, fb: nat)
    requires g.Valid() && ino in inodes && !Mappable(g, fb)
    ensures FileBlock(g, disk, inodes, ino, fb) == 0
  {
  }

  lemma Quotients(r: nat, d: nat)
    requires d > 0
    ensures r / d >= 0 && 0 <= r % d < d
  {
  }

  lemma MapDirect(g: Geometry, disk: Disk, inodes: Inodes, ino: nat, fb: nat)
    requires g.Valid() && ino in inodes && fb < N_DIRECT
    ensures FileBlock(g, disk, inodes, ino, fb) == Slot(inodes[ino], fb)
  {
    SmallMappable(g, fb);
  }

  lemma MapIndirect(g: Geometry, s: FsState, inodes: Inodes, ino: nat, fb: nat)
    requires Consistent(g, s, inodes) && ino in inodes && N_DIRECT <= fb < N_DIRECT + g.Pointers()
    ensures var ind := Slot(inodes[ino], IND);
            && (ind != 0 ==> ind in s.disk)
            && FileBlock(g, s.disk, inodes, ino, fb) == if ind == 0 then 0 else Get32(s.disk[ind], 4 * (fb - N_DIRECT))
  {
    SmallMappable(g, fb);
    assert Target(g, s.disk, inodes, InodeSlot(ino, IND)) == Slot(inodes[ino], IND);
    if Slot(inodes[ino], IND) != 0 {
      IndirectBlock(g, s, inodes, ino);
    }
  }

  /** A pointer place that names a block names one on the disk. */
  lemma TargetOnDisk(g: Geometry, s: FsState, inodes: Inodes, p: Place)
    requires Consistent(g, s, inodes) && IsPlace(g, inodes.Keys, p) && Target(g, s.disk, inodes, p) != 0
    ensures Target(g, s.disk, inodes, p) in s.disk
  {
    var t := AllTargets(g, s.disk, inodes);
    assert p in t && t[p] == Target(g, s.disk, inodes, p);
  }

  lemma MapDouble(g: Geometry, s: FsState, inodes: Inodes, ino: nat, fb: nat, i: nat, j: nat)
    requires Consistent(g, s, inodes) && ino in inodes && N_DIRECT + g.Pointers() <= fb && Mappable(g, fb)
    requires i == (fb - N_DIRECT - g.Pointers()) / g.Pointers() && j == (fb - N_DIRECT - g.Pointers()) % g.Pointers()
    ensures i < g.Pointers() && j < g.Pointers()
    ensures var dind := Slot(inodes[ino], DIND);
            && (dind != 0 ==> dind in s.disk)
            && var ind := if dind == 0 then 0 else Get32(s.disk[dind], 4 * i);
               && (ind != 0 ==> ind in s.disk)
               && FileBlock(g, s.disk, inodes, ino, fb) == if ind == 0 then 0 else Get32(s.disk[ind], 4 * j)
  {
    PlaceOfIsPlace(g, inodes.Keys, ino, fb);
    var at := InodeSlot(ino, DIND);
    assert PlaceOf(g, ino, fb) == Entry(Entry(at, i), j);
    assert Target(g, s.disk, inodes, at) == Slot(inodes[ino], DIND);
    assert Target(g, s.disk, inodes, Entry(at, i)) ==
           if Slot(inodes[ino], DIND) == 0 then 0 else Word(s.disk, Slot(inodes[ino], DIND), i);
    if Slot(inodes[ino], DIND) != 0 {
      TargetOnDisk(g, s, inodes, at);
      if Get32(s.disk[Slot(inodes[ino], DIND)], 4 * i) != 0 {
        TargetOnDisk(g, s, inodes, Entry(at, i));
      }
    }
  }

  /** Changing inode bytes other than the slots touches no file block. */
  lemma RestampInode(g: Geometry, s: FsState, inodes: Inodes, ino: nat, i: Inode)
    requires Consistent(g, s, inodes) && ino in inodes
    requires forall k: nat :: k <= DIND ==> Slot(i, k) == Slot(inodes[ino], k)
    ensures Consistent(g, s, WithInode(inodes, ino, i))
    ensures AllTargets(g, s.disk, WithInode(inodes, ino, i)) == AllTargets(g, s.disk, inodes)
    ensures SameFiles(g, s.disk, inodes, s.disk, WithInode(inodes, ino, i))
  {
    TargetsSameSlots(g, s.disk, inodes, ino, i);
    SameTargetsSameMap(g, s.disk, s.disk, inodes, WithInode(inodes, ino, i));
  }

  /** Storing the working copy of an inode: what was true of the copy is now true on disk. */
  lemma StoreFinishes(g: Geometry, s: FsState, stored: Inodes, ino: nat, i: Inode, i': Inode)
    requires ino in stored && Consistent(g, s, WithInode(stored, ino, i)) && DiskInodes(g, s.disk) == stored
    requires forall k: nat :: k <= DIND ==> Slot(i', k) == Slot(i, k)
    ensures g.HasInode(ino)
    ensures var s' := WriteInode(g, s, ino, i');
            && FsValid(g, s')
            && DiskInodes(g, s'.disk) == WithInode(stored, ino, i')
            && SameFiles(g, s.disk, WithInode(stored, ino, i), s'.disk, WithInode(stored, ino, i'))
            && AllTargets(g, s'.disk, WithInode(stored, ino, i')) == AllTargets(g, s.disk, WithInode(stored, ino, i))
            && BlockMaps(g, s'.disk) == BlockMaps(g, s.disk) && InodeMaps(g, s'.disk) == InodeMaps(g, s.disk)
  {
    hide CountsOk, FreeBlocksUsable, AllContents, FileBlock, AllTargets, Owned;
    var inodes, inodes' := WithInode(stored, ino, i), WithInode(stored, ino, i');
    var s' := WriteInode(g, s, ino, i');
    WithInodeTwice(stored, ino, i, i');
    RestampInode(g, s, inodes, ino, i');
    WriteInodeKeeps(g, s, inodes', ino, i');
    InodeHome(g, ino);
    MetaKeepsContents(g, s, s'.disk, inodes', InodeTable(g.InodeGroup(ino), g.TableIndex(ino)));
  }
}
