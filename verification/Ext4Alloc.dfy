/** Bitmap allocation: which bit is chosen, and what taking or giving back a bit does. */
module Ext4Alloc {
  import opened Bytes
  import opened Ext4Layout
  import opened Ext4Ownership
  import opened Arith

  // ---- choosing a bit ----

  datatype Choice = Chosen(group: nat, index: nat) | Full

  function LowestClearFrom(bits: Buffer, limit: nat, from: nat): (i: nat)
    requires from <= limit <= 8 * |bits|
    requires forall j: nat :: j < from ==> BitAt(bits, j)
    ensures from <= i <= limit
    ensures i < limit ==> !BitAt(bits, i)
    ensures forall j: nat :: j < i ==> BitAt(bits, j)
    decreases limit - from
  {
    if from == limit || !BitAt(bits, from) then from else LowestClearFrom(bits, limit, from + 1)
  }

  /** The lowest clear bit below limit, or limit. */
  function LowestClear(bits: Buffer, limit: nat): (i: nat)
    requires limit <= 8 * |bits|
    ensures i <= limit
    ensures i < limit ==> !BitAt(bits, i)
    ensures forall j: nat :: j < i ==> BitAt(bits, j)
  {
    LowestClearFrom(bits, limit, 0)
  }

  lemma LowestClearIs(bits: Buffer, limit: nat, i: nat)
    requires i <= limit <= 8 * |bits|
    requires i < limit ==> !BitAt(bits, i)
    requires forall j: nat :: j < i ==> BitAt(bits, j)
    ensures LowestClear(bits, limit) == i
  {
  }

  ghost predicate MapsOk(maps: seq<Buffer>, limit: nat) {
    forall i :: 0 <= i < |maps| ==> limit <= 8 * |maps[i]|
  }

  ghost predicate NoneClear(bits: Buffer, limit: nat)
    requires limit <= 8 * |bits|
  {
    forall j: nat :: j < limit ==> BitAt(bits, j)
  }

  /** The d-th group in cyclic order. */
  function Cyclic(start: nat, d: nat, n: nat): (r: nat)
    requires n > 0
    ensures r < n
  {
    (start + d) % n
  }

  /** The first group from start + k on, in cyclic order, with a clear bit below limit. */
  function Choose(maps: seq<Buffer>, limit: nat, start: nat, k: nat): (c: Choice)
    requires |maps| > 0 && k <= |maps| && MapsOk(maps, limit)
    ensures c.Chosen? ==> c.group < |maps| && c.index < limit && !BitAt(maps[c.group], c.index)
    decreases |maps| - k
  {
    if k == |maps| then Full
    else
      var group := Cyclic(start, k, |maps|);
      var i := LowestClear(maps[group], limit);
      if i < limit then Chosen(group, i) else Choose(maps, limit, start, k + 1)
  }

  /** The chosen bit is the lowest clear one of its group, and every group before it
      in cyclic order is full. */
  lemma {:induction false} ChosenFirst(maps: seq<Buffer>, limit: nat, start: nat, k: nat) returns (d: nat)
    requires |maps| > 0 && k <= |maps| && MapsOk(maps, limit)
    requires Choose(maps, limit, start, k).Chosen?
    ensures var c := Choose(maps, limit, start, k);
            && NoneClear(maps[c.group], c.index)
            && k <= d < |maps| && c.group == Cyclic(start, d, |maps|)
            && forall e: nat :: k <= e < d ==> NoneClear(maps[Cyclic(start, e, |maps|)], limit)
    decreases |maps| - k
  {
    var i := LowestClear(maps[Cyclic(start, k, |maps|)], limit);
    if i == limit {
      d := ChosenFirst(maps, limit, start, k + 1);
    } else {
      d := k;
    }
  }

  lemma {:induction false} FullFrom(maps: seq<Buffer>, limit: nat, start: nat, k: nat)
    requires |maps| > 0 && k <= |maps| && MapsOk(maps, limit)
    requires Choose(maps, limit, start, k).Full?
    ensures forall d: nat :: k <= d < |maps| ==> NoneClear(maps[Cyclic(start, d, |maps|)], limit)
    decreases |maps| - k
  {
    if k < |maps| {
      FullFrom(maps, limit, start, k + 1);
    }
  }

  lemma CyclicReach(n: nat, start: nat, group: nat) returns (d: nat)
    requires group < n
    ensures d < n && Cyclic(start, d, n) == group
  {
    var s, q := start % n, start / n;
    assert start == q * n + s;
    if s <= group {
      d := group - s;
      DivMod(q, n, group);
    } else {
      d := n - s + group;
      assert start + d == (q + 1) * n + group;
      DivMod(q + 1, n, group);
    }
  }

  /** Choosing fails exactly when no group has a clear bit below the limit. */
  lemma FullIffNoneClear(maps: seq<Buffer>, limit: nat, start: nat)
    requires |maps| > 0 && MapsOk(maps, limit)
    ensures Choose(maps, limit, start, 0).Full? <==>
            forall group: nat :: group < |maps| ==> NoneClear(maps[group], limit)
  {
    if Choose(maps, limit, start, 0).Full? {
      FullFrom(maps, limit, start, 0);
      forall group: nat | group < |maps|
        ensures NoneClear(maps[group], limit)
      {
        var d := CyclicReach(|maps|, start, group);
      }
    }
  }

  // ---- the mounted state ----

  /** The mutable counters of a group descriptor, as 16-bit halves. */
  datatype Counts = Counts(blocksLo: nat, blocksHi: nat, inodesLo: nat, inodesHi: nat)

  datatype FsState = FsState(disk: Disk, counts: seq<Counts>, sbBlocks: nat, sbInodes: nat)

  function Dec(v: nat, width: nat): nat requires width > 0 { if v == 0 then width - 1 else v - 1 }
  function Inc(v: nat, width: nat): nat { if v + 1 >= width then 0 else v + 1 }

  function FreeBlockCount(g: Geometry, c: Counts): nat {
    if g.wideDescriptors then c.blocksLo + 0x10000 * c.blocksHi else c.blocksLo
  }

  function FreeInodeCount(g: Geometry, c: Counts): nat {
    if g.wideDescriptors then c.inodesLo + 0x10000 * c.inodesHi else c.inodesLo
  }

  /** Number of clear bits below limit over the first n bitmaps. */
  ghost function TotalClear(maps: seq<Buffer>, limit: nat, n: nat): (c: nat)
    requires n <= |maps| && MapsOk(maps, limit)
    ensures c <= n * limit
  {
    if n == 0 then 0
    else
      assert n * limit == (n - 1) * limit + limit;
      TotalClear(maps, limit, n - 1) + ClearBits(maps[n - 1], limit)
  }

  lemma {:induction false} TotalClearUpdate(maps: seq<Buffer>, limit: nat, n: nat, i: nat, bits: Buffer)
    requires n <= |maps| && i < |maps| && MapsOk(maps, limit) && limit <= 8 * |bits|
    ensures MapsOk(maps[i := bits], limit)
    ensures TotalClear(maps[i := bits], limit, n) ==
            TotalClear(maps, limit, n) + (if i < n then ClearBits(bits, limit) - ClearBits(maps[i], limit) else 0)
  {
    if n > 0 {
      TotalClearUpdate(maps, limit, n - 1, i, bits);
    }
  }

  /** Each group's free-block counter is the number of clear bits in its bitmap range,
      and the superblock's is their sum. */
  ghost predicate BlockCountsOk(g: Geometry, maps: seq<Buffer>, counts: seq<Counts>, total: nat) {
    && |maps| == |counts| && MapsOk(maps, g.blocksPerGroup)
    && (forall i :: 0 <= i < |maps| ==>
          counts[i].blocksLo < 0x10000 && FreeBlockCount(g, counts[i]) == ClearBits(maps[i], g.blocksPerGroup))
    && total == TotalClear(maps, g.blocksPerGroup, |maps|)
  }

  ghost predicate InodeCountsOk(g: Geometry, maps: seq<Buffer>, counts: seq<Counts>, total: nat) {
    && |maps| == |counts| && MapsOk(maps, g.inodesPerGroup)
    && (forall i :: 0 <= i < |maps| ==>
          counts[i].inodesLo < 0x10000 && FreeInodeCount(g, counts[i]) == ClearBits(maps[i], g.inodesPerGroup))
    && total == TotalClear(maps, g.inodesPerGroup, |maps|)
  }

  ghost predicate CountsOk(g: Geometry, s: FsState)
    requires g.Valid() && DiskOk(g, s.disk)
  {
    && BlockCountsOk(g, BlockMaps(g, s.disk), s.counts, s.sbBlocks)
    && InodeCountsOk(g, InodeMaps(g, s.disk), s.counts, s.sbInodes)
  }

  // ---- counters follow the bitmaps ----

  lemma {:induction false} TotalAtLeast(maps: seq<Buffer>, limit: nat, n: nat, i: nat)
    requires n <= |maps| && i < n && MapsOk(maps, limit)
    ensures ClearBits(maps[i], limit) <= TotalClear(maps, limit, n)
  {
    if i < n - 1 {
      TotalAtLeast(maps, limit, n - 1, i);
    }
  }

  lemma CountsTakeBlock(g: Geometry, maps: seq<Buffer>, counts: seq<Counts>, total: nat, group: nat, index: nat)
    requires BlockCountsOk(g, maps, counts, total) && g.blocksPerGroup <= 0x8000
    requires group < |maps| && index < g.blocksPerGroup && !BitAt(maps[group], index)
    ensures counts[group].blocksLo > 0 && total > 0
    ensures BlockCountsOk(g, maps[group := SetBitAt(maps[group], index)],
                          counts[group := counts[group].(blocksLo := counts[group].blocksLo - 1)], total - 1)
  {
    hide SetBitAt, ClearBits, TotalClear;
    ClearBitsPositive(maps[group], index, g.blocksPerGroup);
    ClearBitsSet(maps[group], index, g.blocksPerGroup);
    TotalAtLeast(maps, g.blocksPerGroup, |maps|, group);
    TotalClearUpdate(maps, g.blocksPerGroup, |maps|, group, SetBitAt(maps[group], index));
  }

  /** Giving a bit back keeps the counters exact if and only if it was set: the counters go up either way. */
  lemma CountsGiveBlock(g: Geometry, maps: seq<Buffer>, counts: seq<Counts>, total: nat, group: nat, index: nat)
    requires BlockCountsOk(g, maps, counts, total) && g.blocksPerGroup <= 0x8000
    requires group < |maps| && index < g.blocksPerGroup
    ensures counts[group].blocksLo <= 0x8000
    ensures BlockCountsOk(g, maps[group := ClearBitAt(maps[group], index)],
                          counts[group := counts[group].(blocksLo := counts[group].blocksLo + 1)], total + 1)
            <==> BitAt(maps[group], index)
  {
    var maps' := maps[group := ClearBitAt(maps[group], index)];
    if BitAt(maps[group], index) {
      ClearBitsClear(maps[group], index, g.blocksPerGroup);
      assert ClearBits(ClearBitAt(maps[group], index), g.blocksPerGroup) <= g.blocksPerGroup;
      TotalClearUpdate(maps, g.blocksPerGroup, |maps|, group, ClearBitAt(maps[group], index));
    } else {
      ClearUnset(maps[group], index);
      assert maps' == maps;
    }
  }

  lemma CountsTakeInode(g: Geometry, maps: seq<Buffer>, counts: seq<Counts>, total: nat, group: nat, index: nat)
    requires InodeCountsOk(g, maps, counts, total) && g.inodesPerGroup <= 0x8000
    requires group < |maps| && index < g.inodesPerGroup && !BitAt(maps[group], index)
    ensures counts[group].inodesLo > 0 && total > 0
    ensures InodeCountsOk(g, maps[group := SetBitAt(maps[group], index)],
                          counts[group := counts[group].(inodesLo := counts[group].inodesLo - 1)], total - 1)
  {
    hide SetBitAt, ClearBits, TotalClear;
    ClearBitsPositive(maps[group], index, g.inodesPerGroup);
    ClearBitsSet(maps[group], index, g.inodesPerGroup);
    TotalAtLeast(maps, g.inodesPerGroup, |maps|, group);
    TotalClearUpdate(maps, g.inodesPerGroup, |maps|, group, SetBitAt(maps[group], index));
  }

  /** Giving a bit back keeps the counters exact if and only if it was set: the counters go up either way. */
  lemma CountsGiveInode(g: Geometry, maps: seq<Buffer>, counts: seq<Counts>, total: nat, group: nat, index: nat)
    requires InodeCountsOk(g, maps, counts, total) && g.inodesPerGroup <= 0x8000
    requires group < |maps| && index < g.inodesPerGroup
    ensures counts[group].inodesLo <= 0x8000
    ensures InodeCountsOk(g, maps[group := ClearBitAt(maps[group], index)],
                          counts[group := counts[group].(inodesLo := counts[group].inodesLo + 1)], total + 1)
            <==> BitAt(maps[group], index)
  {
    var maps' := maps[group := ClearBitAt(maps[group], index)];
    if BitAt(maps[group], index) {
      ClearBitsClear(maps[group], index, g.inodesPerGroup);
      assert ClearBits(ClearBitAt(maps[group], index), g.inodesPerGroup) <= g.inodesPerGroup;
      TotalClearUpdate(maps, g.inodesPerGroup, |maps|, group, ClearBitAt(maps[group], index));
    } else {
      ClearUnset(maps[group], index);
      assert maps' == maps;
    }
  }

  /** When no bit can be chosen the superblock's free count is zero. */
  lemma {:induction false} NoneClearTotal(maps: seq<Buffer>, limit: nat, n: nat)
    requires n <= |maps| && MapsOk(maps, limit)
    requires forall group: nat :: group < |maps| ==> NoneClear(maps[group], limit)
    ensures TotalClear(maps, limit, n) == 0
  {
    if n > 0 {
      NoneClearTotal(maps, limit, n - 1);
      ClearBitsZero(maps[n - 1], limit);
    }
  }

  lemma FullMeansZero(g: Geometry, s: FsState, start: nat)
    requires g.Valid() && DiskOk(g, s.disk) && CountsOk(g, s)
    requires Choose(BlockMaps(g, s.disk), g.blocksPerGroup, start, 0).Full?
    ensures s.sbBlocks == 0
  {
    FullIffNoneClear(BlockMaps(g, s.disk), g.blocksPerGroup, start);
    NoneClearTotal(BlockMaps(g, s.disk), g.blocksPerGroup, |g.groups|);
  }

  lemma TotalsBelow(g: Geometry, s: FsState)
    requires g.Valid() && DiskOk(g, s.disk) && CountsOk(g, s)
    ensures s.sbBlocks < 0x8000_0001 && s.sbInodes < 0x8000_0001
  {
  }
}
