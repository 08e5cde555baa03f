/** How single block writes and pointer updates change the targets of places. */
module Ext4Ownership {
  import opened Bytes
  import opened Ext4Layout
  import opened Arith

  /** No pointer block is b. */
  ghost predicate NotPointerBlock(t: Targets, b: nat) {
    forall q :: q in t && IsPointer(q) ==> t[q] != b
  }

  /** Nothing names b. */
  ghost predicate Unnamed(t: Targets, b: nat) {
    forall q :: q in t ==> t[q] != b
  }

  lemma {:induction false} TargetFrame(g: Geometry, disk: Disk, inodes: Inodes, b: nat, x: Buffer, p: Place)
    requires g.Valid() && IsPlace(g, inodes.Keys, p)
    requires NotPointerBlock(AllTargets(g, disk, inodes), b)
    ensures Target(g, disk[b := x], inodes, p) == Target(g, disk, inodes, p)
  {
    if p.Entry? {
      TargetFrame(g, disk, inodes, b, x, p.parent);
      assert AllTargets(g, disk, inodes)[p.parent] == Target(g, disk, inodes, p.parent);
    }
  }

  /** Writing any block that holds no pointers leaves every target as it is. */
  lemma WriteKeepsTargets(g: Geometry, disk: Disk, inodes: Inodes, b: nat, x: Buffer)
    requires g.Valid()
    requires NotPointerBlock(AllTargets(g, disk, inodes), b)
    ensures AllTargets(g, disk[b := x], inodes) == AllTargets(g, disk, inodes)
  {
    forall p | IsPlace(g, inodes.Keys, p)
      ensures Target(g, disk[b := x], inodes, p) == Target(g, disk, inodes, p)
    {
      TargetFrame(g, disk, inodes, b, x, p);
    }
  }

  /** What a place names is not a pointer block unless the place says so. */
  lemma NamedNotPointer(g: Geometry, disk: Disk, t: Targets, p: Place)
    requires g.Valid() && DiskOk(g, disk) && Owned(g, disk, t)
    requires p in t && !IsPointer(p) && t[p] != 0
    ensures NotPointerBlock(t, t[p])
  {
  }

  lemma UnnamedNotPointer(t: Targets, b: nat)
    requires Unnamed(t, b)
    ensures NotPointerBlock(t, b)
  {
  }

  /** A block whose bit is clear is not named by anything. */
  lemma FreeIsUnnamed(g: Geometry, disk: Disk, t: Targets, b: nat)
    requires g.Valid() && DiskOk(g, disk) && Owned(g, disk, t)
    requires b != 0 && !BlockUsed(g, disk, b)
    ensures Unnamed(t, b)
  {
  }

  // ---- changing one inode slot ----

  lemma SlotOfWithSlot(i: Inode, k: nat, v: nat, j: nat)
    requires k < 15 && j < 15 && v < WORD
    ensures Slot(WithSlot(i, k, v), j) == if j == k then v else Slot(i, j)
  {
    Get32Put32(i, 40 + 4 * k, v);
    if j != k {
      Get32Frame(i, 40 + 4 * k, v, 40 + 4 * j);
    }
  }

  lemma WithSlotSame(i: Inode, k: nat, v: nat)
    requires k < 15
    ensures SameButSlots(i, WithSlot(i, k, v))
  {
  }

  lemma WithBlocksSame(i: Inode, i1: Inode, v: nat)
    requires SameButSlots(i, i1)
    ensures SameButMap(i, WithBlocks512(i1, v))
    ensures forall k: nat :: k < 15 ==> Slot(WithBlocks512(i1, v), k) == Slot(i1, k)
  {
  }

  lemma BlocksRaised(i: Inode, i1: Inode, unit: nat)
    requires SameButSlots(i, i1)
    ensures Blocks512(WithBlocks512(i1, Blocks512(i1) + unit)) == (Blocks512(i) + unit) % WORD
  {
    Get32Put32(i1, 28, Blocks512(i1) + unit);
  }

  /** All words of a block are zero. */
  ghost predicate NoEntries(g: Geometry, disk: Disk, b: nat) {
    forall j: nat :: j < g.Pointers() ==> Word(disk, b, j) == 0
  }

  /** A slot may be re-pointed without moving anything below it: either nothing is
      below it, or it named nothing and the new block has no entries yet. */
  ghost predicate SlotReplaceable(g: Geometry, disk: Disk, i: Inode, k: nat, v: nat) {
    k <= DIND && (k < IND || (Slot(i, k) == 0 && NoEntries(g, disk, v)))
  }

  lemma {:induction false} TargetAfterSlot(g: Geometry, disk: Disk, inodes: Inodes, ino: nat, k: nat, v: nat, p: Place)
    requires g.Valid() && IsPlace(g, inodes.Keys, p)
    requires ino in inodes && v < WORD && SlotReplaceable(g, disk, inodes[ino], k, v)
    ensures Target(g, disk, WithInode(inodes, ino, WithSlot(inodes[ino], k, v)), p) ==
            if p == InodeSlot(ino, k) then v else Target(g, disk, inodes, p)
  {
    var inodes' := WithInode(inodes, ino, WithSlot(inodes[ino], k, v));
    match p
    case InodeSlot(i, j) => SlotOfWithSlot(inodes[ino], k, v, j);
    case Entry(parent, j) =>
      TargetAfterSlot(g, disk, inodes, ino, k, v, parent);
      if parent.Entry? {
        TargetAfterSlot(g, disk, inodes, ino, k, v, parent.parent);
      }
    case _ =>
  }

  lemma TargetsAfterSlot(g: Geometry, disk: Disk, inodes: Inodes, ino: nat, k: nat, v: nat)
    requires g.Valid()
    requires ino in inodes && v < WORD && SlotReplaceable(g, disk, inodes[ino], k, v)
    ensures AllTargets(g, disk, WithInode(inodes, ino, WithSlot(inodes[ino], k, v))) ==
            AllTargets(g, disk, inodes)[InodeSlot(ino, k) := v]
  {
    var inodes' := WithInode(inodes, ino, WithSlot(inodes[ino], k, v));
    forall p | IsPlace(g, inodes.Keys, p)
      ensures Target(g, disk, inodes', p) == if p == InodeSlot(ino, k) then v else Target(g, disk, inodes, p)
    {
      TargetAfterSlot(g, disk, inodes, ino, k, v, p);
    }
  }

  /** Inode bytes outside the slots do not matter to the targets. */
  lemma {:induction false} TargetSameSlots(g: Geometry, disk: Disk, inodes: Inodes, ino: nat, i: Inode, p: Place)
    requires g.Valid() && IsPlace(g, inodes.Keys, p) && ino in inodes
    requires forall k: nat :: k <= DIND ==> Slot(i, k) == Slot(inodes[ino], k)
    ensures Target(g, disk, WithInode(inodes, ino, i), p) == Target(g, disk, inodes, p)
  {
    if p.Entry? {
      TargetSameSlots(g, disk, inodes, ino, i, p.parent);
    }
  }

  lemma TargetsSameSlots(g: Geometry, disk: Disk, inodes: Inodes, ino: nat, i: Inode)
    requires g.Valid() && ino in inodes
    requires forall k: nat :: k <= DIND ==> Slot(i, k) == Slot(inodes[ino], k)
    ensures AllTargets(g, disk, WithInode(inodes, ino, i)) == AllTargets(g, disk, inodes)
  {
    forall p | IsPlace(g, inodes.Keys, p)
      ensures Target(g, disk, WithInode(inodes, ino, i), p) == Target(g, disk, inodes, p)
    {
      TargetSameSlots(g, disk, inodes, ino, i, p);
    }
  }

  // ---- changing one entry of a pointer block whose entries are data blocks ----

  /** The two disks differ in word j of block b alone, which is now v. */
  ghost predicate EntryWrite(g: Geometry, disk: Disk, disk': Disk, b: nat, j: nat, v: nat) {
    && b in disk' && disk' == disk[b := disk'[b]]
    && (forall i: nat :: i < g.Pointers() ==> Word(disk', b, i) == if i == j then v else Word(disk, b, i))
  }

  lemma PutWordAt(disk: Disk, b: nat, j: nat, v: nat, i: nat)
    requires b in disk && 4 * j + 4 <= |disk[b]| && 4 * i + 4 <= |disk[b]| && v < WORD
    ensures Word(disk[b := Put32(disk[b], 4 * j, v)], b, i) == if i == j then v else Word(disk, b, i)
  {
    if i == j {
      Get32Put32(disk[b], 4 * j, v);
    } else {
      Get32Frame(disk[b], 4 * j, v, 4 * i);
    }
  }

  lemma PutWord(g: Geometry, disk: Disk, disk': Disk, b: nat, j: nat, v: nat)
    requires g.Valid() && b in disk && |disk[b]| == g.blockSize && j < g.Pointers() && v < WORD
    requires disk' == disk[b := Put32(disk[b], 4 * j, v)]
    ensures EntryWrite(g, disk, disk', b, j, v)
  {
    forall i: nat | i < g.Pointers()
      ensures Word(disk', b, i) == if i == j then v else Word(disk, b, i)
    {
      PutWordAt(disk, b, j, v, i);
    }
  }

  lemma {:induction false} TargetAfterEntry(g: Geometry, disk: Disk, inodes: Inodes, at: Place, disk': Disk, j: nat,
                                            v: nat, p: Place)
    requires g.Valid() && IsPlace(g, inodes.Keys, p)
    requires IsPlace(g, inodes.Keys, at) && IsPointer(at) && !IsPointer(Entry(at, j))
    requires var b := Target(g, disk, inodes, at); b != 0 && EntryWrite(g, disk, disk', b, j, v)
    requires forall q :: IsPlace(g, inodes.Keys, q) && IsPointer(q) && q != at ==>
                         Target(g, disk, inodes, q) != Target(g, disk, inodes, at)
    ensures Target(g, disk', inodes, p) ==
            if p == Entry(at, j) then v else Target(g, disk, inodes, p)
  {
    if p.Entry? {
      TargetAfterEntry(g, disk, inodes, at, disk', j, v, p.parent);
      var b, c := Target(g, disk, inodes, at), Target(g, disk, inodes, p.parent);
      assert Target(g, disk', inodes, p.parent) == c;
      if p.parent != at && c != 0 {
        assert Word(disk', c, p.j) == Word(disk, c, p.j);
      }
    }
  }

  lemma TargetsAfterEntry(g: Geometry, disk: Disk, inodes: Inodes, at: Place, disk': Disk, j: nat, v: nat)
    requires g.Valid() && DiskOk(g, disk)
    requires IsPlace(g, inodes.Keys, at) && IsPointer(at) && j < g.Pointers() && !IsPointer(Entry(at, j))
    requires var b := Target(g, disk, inodes, at); b != 0 && EntryWrite(g, disk, disk', b, j, v)
    requires Owned(g, disk, AllTargets(g, disk, inodes))
    ensures AllTargets(g, disk', inodes) ==
            AllTargets(g, disk, inodes)[Entry(at, j) := v]
  {
    var t := AllTargets(g, disk, inodes);
    forall q | IsPlace(g, inodes.Keys, q) && IsPointer(q) && q != at
      ensures Target(g, disk, inodes, q) != Target(g, disk, inodes, at)
    {
      assert t[q] == Target(g, disk, inodes, q) && t[at] == Target(g, disk, inodes, at);
    }
    forall p | IsPlace(g, inodes.Keys, p)
      ensures Target(g, disk', inodes, p) == if p == Entry(at, j) then v else Target(g, disk, inodes, p)
    {
      TargetAfterEntry(g, disk, inodes, at, disk', j, v, p);
    }
  }

  // ---- ownership ----

  lemma OwnedAfterRelink(g: Geometry, disk: Disk, t: Targets, p: Place, b: nat)
    requires g.Valid() && DiskOk(g, disk) && Owned(g, disk, t)
    requires p in t && (p.InodeSlot? || p.Entry?)
    requires Unnamed(t, b) && b in disk && BlockUsed(g, disk, b)
    ensures Owned(g, disk, t[p := b])
  {
  }

  /** Ownership only looks at which blocks exist and which are marked used. */
  lemma OwnedFrame(g: Geometry, disk: Disk, disk': Disk, t: Targets)
    requires g.Valid() && DiskOk(g, disk) && DiskOk(g, disk') && Owned(g, disk, t)
    requires disk.Keys <= disk'.Keys
    requires forall b :: BlockUsed(g, disk, b) ==> BlockUsed(g, disk', b)
    ensures Owned(g, disk', t)
  {
  }
}
