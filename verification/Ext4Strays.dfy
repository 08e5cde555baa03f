/** Which blocks an operation uses up: the used blocks that nothing names, and what each step makes of them. */
module Ext4Strays {
  import opened Bytes
  import opened Ext4Layout
  import opened Ext4Ownership
  import opened Ext4Alloc
  import opened Ext4State
  import opened Ext4Steps
  import opened Ext4Files
  import opened Arith

  /** The blocks marked used though no place names them: reserved ones, and ones that leaked. */
  ghost function Strays(g: Geometry, disk: Disk, inodes: Inodes): iset<nat>
    requires g.Valid() && DiskOk(g, disk)
  {
    iset b: nat | 0 < b && BlockUsed(g, disk, b) && Unnamed(AllTargets(g, disk, inodes), b)
  }

  /** No block became free. */
  ghost predicate Grows(g: Geometry, disk: Disk, disk': Disk) {
    && g.Valid() && DiskOk(g, disk) && DiskOk(g, disk')
    && forall b: nat :: BlockUsed(g, disk, b) ==> BlockUsed(g, disk', b)
  }

  /** A target as a set of blocks: 0 stands for none. */
  function Block(b: nat): iset<nat> {
    if b == 0 then iset{} else iset{b}
  }

  /** No block became free, and none became used without a place that names it, nor lost its place. */
  ghost predicate Conserved(g: Geometry, disk: Disk, inodes: Inodes, disk': Disk, inodes': Inodes) {
    Grows(g, disk, disk') && Strays(g, disk', inodes') == Strays(g, disk, inodes)
  }

  /** In a consistent state that says which blocks are used: those used before and those newly named. */
  lemma ConservedUse(g: Geometry, s: FsState, inodes: Inodes, s': FsState, inodes': Inodes, b: nat)
    requires Consistent(g, s, inodes) && Consistent(g, s', inodes') && Conserved(g, s.disk, inodes, s'.disk, inodes')
             && b > 0
    ensures BlockUsed(g, s'.disk, b) <==>
            || BlockUsed(g, s.disk, b)
            || (Unnamed(AllTargets(g, s.disk, inodes), b) && !Unnamed(AllTargets(g, s'.disk, inodes'), b))
  {
    assert b in Strays(g, s.disk, inodes) <==> b in Strays(g, s'.disk, inodes');
  }

  lemma GrowsTrans(g: Geometry, a: Disk, b: Disk, c: Disk)
    requires Grows(g, a, b) && Grows(g, b, c)
    ensures Grows(g, a, c)
  {
  }

  lemma SameMaps(g: Geometry, disk: Disk, disk': Disk)
    requires g.Valid() && DiskOk(g, disk) && DiskOk(g, disk') && BlockMaps(g, disk') == BlockMaps(g, disk)
    ensures Grows(g, disk, disk')
    ensures forall b: nat :: BlockUsed(g, disk', b) <==> BlockUsed(g, disk, b)
  {
  }

  /** A step that moves no target and changes no block bitmap. */
  lemma StraysFrame(g: Geometry, disk: Disk, inodes: Inodes, disk': Disk, inodes': Inodes)
    requires g.Valid() && DiskOk(g, disk) && DiskOk(g, disk') && BlockMaps(g, disk') == BlockMaps(g, disk)
    requires AllTargets(g, disk', inodes') == AllTargets(g, disk, inodes)
    ensures Conserved(g, disk, inodes, disk', inodes')
  {
    hide AllTargets, BlockUsed, Unnamed;
    SameMaps(g, disk, disk');
  }

  /** An allocated block is a stray until it is linked. */
  lemma StraysTake(g: Geometry, s: FsState, inodes: Inodes, group: nat, index: nat)
    requires Consistent(g, s, inodes)
    requires group < |g.groups| && index < g.blocksPerGroup && !BitAt(BlockMaps(g, s.disk)[group], index)
    ensures var s', b := TakeBlock(g, s, group, index), g.BlockNo(group, index);
            && Grows(g, s.disk, s'.disk)
            && Strays(g, s'.disk, inodes) == Strays(g, s.disk, inodes) + iset{b} && b !in Strays(g, s.disk, inodes)
  {
    hide AllTargets, Owned, CountsOk, FreeBlocksUsable, BitAt, SetBitAt, MarkedUsed;
    var s', b := TakeBlock(g, s, group, index), g.BlockNo(group, index);
    TakeBlockKeeps(g, s, inodes, group, index);
    forall c: nat
      ensures BlockUsed(g, s'.disk, c) <==> c == b || BlockUsed(g, s.disk, c)
    {
      MarkedAfterSet(g, BlockMaps(g, s.disk), group, index, c);
    }
  }

  lemma NamedAfterRelink(g: Geometry, disk: Disk, t: Targets, p: Place, b: nat, c: nat)
    requires g.Valid() && DiskOk(g, disk) && Owned(g, disk, t) && p in t && Unnamed(t, b) && 0 < b && 0 < c
    ensures Unnamed(t[p := b], c) <==> c != b && (Unnamed(t, c) || c == t[p])
  {
    if c == t[p] && c != b {
      var t' := t[p := b];
      forall q | q in t' ensures t'[q] != c {
        assert q == p || t[q] != t[p];
      }
    }
    if c == b {
      assert t[p := b][p] == c;
    }
    if !Unnamed(t, c) && c != t[p] {
      var q :| q in t && t[q] == c;
      assert t[p := b][q] == c;
    }
  }

  lemma TargetAt(g: Geometry, disk: Disk, inodes: Inodes, p: Place)
    requires g.Valid() && IsPlace(g, inodes.Keys, p)
    ensures p in AllTargets(g, disk, inodes) && AllTargets(g, disk, inodes)[p] == Target(g, disk, inodes, p)
  {
  }

  lemma StrayMeans(g: Geometry, disk: Disk, inodes: Inodes, c: nat)
    requires g.Valid() && DiskOk(g, disk)
    ensures c in Strays(g, disk, inodes) <==> 0 < c && BlockUsed(g, disk, c) && Unnamed(AllTargets(g, disk, inodes), c)
  {
  }

  lemma UnnamedNot(t: Targets, p: Place, b: nat)
    requires p in t && Unnamed(t, b)
    ensures t[p] != b
  {
  }

  lemma StrayAfterLink(g: Geometry, disk: Disk, t: Targets, p: Place, b: nat, c: nat)
    requires g.Valid() && DiskOk(g, disk) && Owned(g, disk, t) && p in t && Unnamed(t, b) && 0 < b
    ensures 0 < c && BlockUsed(g, disk, c) && Unnamed(t[p := b], c) <==>
            (0 < c && c != b && BlockUsed(g, disk, c) && Unnamed(t, c)) || c in Block(t[p])
  {
    hide BlockUsed, DiskOk, Unnamed;
    if c > 0 {
      NamedAfterRelink(g, disk, t, p, b, c);
      UnnamedNot(t, p, b);
    }
  }

  /** Linking a stray at a place: it is one no more, but the block the place named before is. */
  lemma StraysLink(g: Geometry, s: FsState, inodes: Inodes, s': FsState, inodes': Inodes, p: Place, b: nat)
    requires Consistent(g, s, inodes) && Spare(g, s.disk, inodes, b) && IsPlace(g, inodes.Keys, p)
    requires DiskOk(g, s'.disk) && BlockMaps(g, s'.disk) == BlockMaps(g, s.disk)
    requires AllTargets(g, s'.disk, inodes') == AllTargets(g, s.disk, inodes)[p := b]
    ensures Grows(g, s.disk, s'.disk)
    ensures Strays(g, s'.disk, inodes') == Strays(g, s.disk, inodes) - iset{b} + Block(Target(g, s.disk, inodes, p))
  {
    hide BlockUsed, Unnamed, CountsOk, FreeBlocksUsable, DiskOk, AllTargets, Owned, Strays, Block, Target, Grows;
    var t := AllTargets(g, s.disk, inodes);
    SameMaps(g, s.disk, s'.disk);
    TargetAt(g, s.disk, inodes, p);
    forall c: nat
      ensures c in Strays(g, s'.disk, inodes') <==> c in Strays(g, s.disk, inodes) - iset{b} + Block(t[p])
    {
      StrayAfterLink(g, s.disk, t, p, b, c);
      StrayMeans(g, s.disk, inodes, c);
      StrayMeans(g, s'.disk, inodes', c);
    }
  }

  // ---- the steps of the driver ----

  lemma PlaceTarget(g: Geometry, disk: Disk, inodes: Inodes, ino: nat, fb: nat)
    requires g.Valid() && ino in inodes && Mappable(g, fb)
    ensures IsPlace(g, inodes.Keys, PlaceOf(g, ino, fb))
    ensures FileBlock(g, disk, inodes, ino, fb) == Target(g, disk, inodes, PlaceOf(g, ino, fb))
  {
    PlaceOfIsPlace(g, inodes.Keys, ino, fb);
  }

  lemma StraysLinkBlock(g: Geometry, s: FsState, inodes: Inodes, s': FsState, inodes': Inodes, ino: nat, fb: nat,
                        b: nat)
    requires Consistent(g, s, inodes) && Spare(g, s.disk, inodes, b) && ino in inodes && fb < N_DIRECT + g.Pointers()
    requires DiskOk(g, s'.disk) && BlockMaps(g, s'.disk) == BlockMaps(g, s.disk)
    requires AllTargets(g, s'.disk, inodes') == AllTargets(g, s.disk, inodes)[
               if fb < N_DIRECT then InodeSlot(ino, fb) else Entry(InodeSlot(ino, IND), fb - N_DIRECT) := b]
    ensures Grows(g, s.disk, s'.disk)
    ensures Strays(g, s'.disk, inodes') ==
            Strays(g, s.disk, inodes) - iset{b} + Block(FileBlock(g, s.disk, inodes, ino, fb))
  {
    hide AllTargets, Owned, CountsOk, FreeBlocksUsable, FileBlock, Strays, Block, Target, BlockUsed;
    SmallMappable(g, fb);
    PlaceTarget(g, s.disk, inodes, ino, fb);
    StraysLink(g, s, inodes, s', inodes', PlaceOf(g, ino, fb), b);
  }

  lemma StraysLinkIndirect(g: Geometry, s: FsState, inodes: Inodes, s': FsState, inodes': Inodes, ino: nat, b: nat)
    requires Consistent(g, s, inodes) && Spare(g, s.disk, inodes, b) && ino in inodes && Slot(inodes[ino], IND) == 0
    requires DiskOk(g, s'.disk) && BlockMaps(g, s'.disk) == BlockMaps(g, s.disk)
    requires AllTargets(g, s'.disk, inodes') == AllTargets(g, s.disk, inodes)[InodeSlot(ino, IND) := b]
    ensures Grows(g, s.disk, s'.disk)
    ensures Strays(g, s'.disk, inodes') == Strays(g, s.disk, inodes) - iset{b}
  {
    hide AllTargets, Owned, CountsOk, FreeBlocksUsable, FileBlock, Strays, BlockUsed;
    StraysLink(g, s, inodes, s', inodes', InodeSlot(ino, IND), b);
  }

  /** Writing a spare block neither makes nor loses a stray and changes no block map. */
  lemma ScratchStrays(g: Geometry, s: FsState, inodes: Inodes, b: nat, x: Buffer)
    requires Consistent(g, s, inodes) && |x| == g.blockSize && Spare(g, s.disk, inodes, b)
    ensures var disk' := s.disk[b := x];
            && DiskOk(g, disk') && Conserved(g, s.disk, inodes, disk', inodes) && Spare(g, disk', inodes, b)
            && forall i, k :: i in inodes ==> FileBlock(g, disk', inodes, i, k) == FileBlock(g, s.disk, inodes, i, k)
  {
    hide AllTargets, Owned, CountsOk, FreeBlocksUsable, FileBlock, Strays, Grows, DiskInodes, AllContents;
    var disk' := s.disk[b := x];
    ScratchWriteKeeps(g, s, inodes, b, x);
    StraysFrame(g, s.disk, inodes, disk', inodes);
    SameTargetsSameMap(g, s.disk, disk', inodes, inodes);
  }

  lemma LinkedOnce(strays: iset<nat>, b: nat, was: nat)
    requires b !in strays
    ensures strays + iset{b} - iset{b} + Block(was) == strays + Block(was)
  {
  }

  lemma ConservedSelf(g: Geometry, disk: Disk, inodes: Inodes)
    requires g.Valid() && DiskOk(g, disk)
    ensures Conserved(g, disk, inodes, disk, inodes)
  {
  }

  lemma ConservedTrans(g: Geometry, d0: Disk, i0: Inodes, d1: Disk, i1: Inodes, d2: Disk, i2: Inodes)
    requires Conserved(g, d0, i0, d1, i1) && Conserved(g, d1, i1, d2, i2)
    ensures Conserved(g, d0, i0, d2, i2)
  {
    hide Strays;
  }
}
