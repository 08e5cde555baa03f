/** The loader working in memory, and where process_create puts programs. */
module ElfLoader {
  import opened Wrappers
  import opened Bytes
  import opened Elf

  const GAP := 0x10000

  function Align64K(x: nat): (r: nat)
    ensures x <= r < x + GAP && r % GAP == 0
  {
    (x + (GAP - 1)) / GAP * GAP
  }

  /** The number of the first header, from i on, that fails its checks, or n. */
  function FirstBad(data: Buffer, i: nat, n: nat): (r: nat)
    requires |data| >= EHDR_SIZE && i <= n
    ensures i <= r <= n && (forall j :: i <= j < r ==> Good(data, j)) && (r < n ==> !Good(data, r))
    decreases n - i
  {
    if i == n || !Good(data, i) then i else FirstBad(data, i + 1, n)
  }

  /** The lowest address of the first n segments. */
  function MinUpTo(data: Buffer, n: nat): nat
    requires |data| >= EHDR_SIZE
  {
    if n == 0 then WORD64 - 1
    else
      var s, z := Seg(data, n - 1), MinUpTo(data, n - 1);
      if s.kind == PT_LOAD && s.vaddr < z then s.vaddr else z
  }

  /** From the lowest to the highest address of the load segments; 0 if there are none or the file is invalid. */
  function Span(arch: Arch, data: Buffer): nat {
    if Validate(arch, data) != 0 then 0
    else
      var lo, hi := MinUpTo(data, HeaderCount(data)), SizeUpTo(data, HeaderCount(data));
      if hi <= lo then 0 else hi - lo
  }

  /** What process_create asks before loading. */
  method CalcSize(arch: Arch, data: Buffer) returns (size: nat)
    ensures size == Span(arch, data)
  {
    var valid := Validate(arch, data);
    if valid != 0 {
      return 0;
    }
    var minAddr, maxAddr := WORD64 - 1, 0;
    for i := 0 to HeaderCount(data)
      invariant minAddr == MinUpTo(data, i) && maxAddr == SizeUpTo(data, i)
    {
      var s := Seg(data, i);
      if s.kind == PT_LOAD {
        if s.vaddr < minAddr {
          minAddr := s.vaddr;
        }
        var end := s.vaddr + s.memsz;
        if end > maxAddr {
          maxAddr := end;
        }
      }
    }
    size := if maxAddr <= minAddr then 0 else maxAddr - minAddr;
  }

  lemma {:induction false} MinIsLowest(data: Buffer, n: nat)
    requires |data| >= EHDR_SIZE
    ensures forall i :: 0 <= i < n && Seg(data, i).kind == PT_LOAD ==> MinUpTo(data, n) <= Seg(data, i).vaddr
    ensures MinUpTo(data, n) < WORD64 - 1 ==>
              exists i :: 0 <= i < n && Seg(data, i).kind == PT_LOAD && Seg(data, i).vaddr == MinUpTo(data, n)
  {
    if n > 0 {
      MinIsLowest(data, n - 1);
      var s := Seg(data, n - 1);
      if s.kind == PT_LOAD && s.vaddr < MinUpTo(data, n - 1) {
        assert Seg(data, n - 1).vaddr == MinUpTo(data, n);
      }
    }
  }

  /** The span is the load size exactly when a segment starts at address 0. */
  lemma SpanIsSizeIff(data: Buffer, n: nat)
    requires |data| >= EHDR_SIZE && SizeUpTo(data, n) > MinUpTo(data, n)
    ensures SizeUpTo(data, n) - MinUpTo(data, n) == SizeUpTo(data, n)
            <==> exists i :: 0 <= i < n && Seg(data, i).kind == PT_LOAD && Seg(data, i).vaddr == 0
  {
    MinIsLowest(data, n);
  }

  /** The relocation table and every word aimed at lie in memory while it is processed. */
  ghost predicate RelocationsFit(mem: Buffer, arch: Arch, base: nat, addr: nat, n: nat) {
    forall i :: 0 <= i < n ==>
      var e := RelaAt(MemoryView(RelocateUpTo(mem, arch, base, addr, i), base), addr, i);
      e.Some? && (Relative(arch, e.value) ==> base + e.value.offset + 8 <= |mem|)
  }

  /** What process_relocations needs of memory: a dynamic table that ends, entries of some size, and
      relocations that stay in memory. */
  ghost predicate DynamicFits(mem: Buffer, arch: Arch, base: nat, dynamic: nat, n: nat) {
    var t := Scan(MemoryView(mem, base), dynamic, n, NO_TABLE);
    && t.Some? && (t.value.addr != 0 && t.value.size != 0 ==> t.value.ent != 0)
    && RelocationsFit(mem, arch, base, t.value.addr, EntryCount(t.value))
  }

  /** What loading needs of memory. */
  ghost predicate LoadFits(size: nat, mem: Buffer, arch: Arch, data: Buffer, base: nat, dynEntries: nat)
    requires size == |mem|
  {
    Validate(arch, data) == 0 ==>
      var n := HeaderCount(data);
      var k := FirstBad(data, 0, n);
      && Fits(data, base, size, k)
      && (k == n && Pie(data) && DynamicUpTo(data, n).Some? ==>
            DynamicFits(LoadUpTo(mem, data, base, n), arch, base, DynamicUpTo(data, n).value, dynEntries))
  }

  datatype Info = Info(entry: nat, base: nat, size: nat)

  /** Memory and answer after a load: everything up to the first bad header, or the whole. */
  ghost predicate LoadDone(mem: Buffer, arch: Arch, data: Buffer, base: nat, dynEntries: nat, code: int, info: Info,
                           after: Buffer)
  {
    if Validate(arch, data) != 0 then code == -1 && after == mem
    else
      var n := HeaderCount(data);
      var k := FirstBad(data, 0, n);
      && Fits(data, base, |mem|, k)
      && if k < n then code == -1 && after == LoadUpTo(mem, data, base, k)
         else
           && code == 0 && after == Loaded(mem, arch, data, base, dynEntries)
           && info == Info(if Pie(data) then base + Entry(data) else Entry(data), base, SizeUpTo(data, n))
  }

  lemma WordBytes(m: Buffer, a: nat, v: nat)
    requires a + 8 <= |m| && v < WORD64
    ensures Splice(m, a, Put64(m[a..a + 8], 0, v)) == Put64(m, a, v)
  {
    Get64Put64(m, a, v);
    var w, s := Put64(m[a..a + 8], 0, v), Put64(m, a, v);
    forall i | 0 <= i < 8 ensures w[i] == s[a + i] {
    }
  }

  /** One entry more. */
  lemma EntryFits(mem: Buffer, arch: Arch, base: nat, addr: nat, n: nat, i: nat)
    requires RelocationsFit(mem, arch, base, addr, n) && i < n
    ensures var m := RelocateUpTo(mem, arch, base, addr, i);
            var e := RelaAt(MemoryView(m, base), addr, i);
            && e.Some? && (Relative(arch, e.value) ==> base + e.value.offset + 8 <= |mem|)
            && RelocateUpTo(mem, arch, base, addr, i + 1)
               == if Relative(arch, e.value) then Put64(m, base + e.value.offset, Target(base, e.value)) else m
  {
    hide RelaAt, Put64, Get64;
  }

  lemma NoEntries(mem: Buffer, arch: Arch, base: nat, addr: nat)
    ensures RelocateUpTo(mem, arch, base, addr, 0) == mem
  {
  }

  /** A well-formed PIE file meets what loading needs of memory, in any memory its segments fit in. */
  lemma WellFormedFits(mem: Buffer, arch: Arch, data: Buffer, base: nat, es: seq<Rela>, dynEntries: nat)
    requires WellFormed(arch, data, es, dynEntries) && Fits(data, base, |mem|, HeaderCount(data))
    ensures FirstBad(data, 0, HeaderCount(data)) == HeaderCount(data)
    ensures LoadFits(|mem|, mem, arch, data, base, dynEntries)
  {
    hide ImageByte, LoadUpTo, Fits, Get64, RelocateUpTo, Target, Clear, Scan, DynamicUpTo, RelaAt;
    var n := HeaderCount(data);
    var m, d := LoadUpTo(mem, data, base, n), DynamicUpTo(data, n);
    assert FirstBad(data, 0, n) == n;
    if d.Some? {
      MemoryShowsImage(mem, data, base, n);
      ScanExtends(ImageView(data, n), MemoryView(m, base), d.value, dynEntries, NO_TABLE);
      var t := Scan(ImageView(data, n), d.value, dynEntries, NO_TABLE).value;
      ReadsExtends(ImageView(data, n), MemoryView(m, base), t.addr, es);
      forall i | 0 <= i < |es|
        ensures var e := RelaAt(MemoryView(RelocateUpTo(m, arch, base, t.addr, i), base), t.addr, i);
                e.Some? && (Relative(arch, e.value) ==> base + e.value.offset + 8 <= |m|)
      {
        RelocationEffect(m, arch, base, t.addr, es, i);
        TableUntouched(arch, base, t.addr, es, i, m, RelocateUpTo(m, arch, base, t.addr, i), i);
        if Relative(arch, es[i]) {
          assert WordCovered(data, n, es[i].offset);
          assert ImageByte(data, n, es[i].offset + 7).Some?;
          CoveredFits(data, base, |mem|, n, es[i].offset + 7);
        }
      }
    }
  }

  // ---- where programs go ----

  function LoadAddress(next: nat, aslr: nat): nat {
    Align64K(next + aslr)
  }

  function NextAddress(base: nat, size: nat): nat {
    Align64K(base + size + GAP)
  }

  /** One creation: the file and the random offset drawn for it, with its entries and table length. */
  datatype Creation = Creation(data: Buffer, aslr: nat, es: seq<Rela>, dynEntries: nat)

  /** Memory and the next address before the k-th creation of a run. */
  datatype Point = Point(mem: Buffer, next: nat)

  function BaseOf(p: Point, c: Creation): nat {
    LoadAddress(p.next, c.aslr)
  }

  /** A file that has no size, or that loads, or one that is refused part of the way. */
  ghost predicate Acceptable(arch: Arch, p: Point, c: Creation) {
    && Validate(arch, c.data) == 0
    && var n := HeaderCount(c.data);
       var k := FirstBad(c.data, 0, n);
       && Fits(c.data, BaseOf(p, c), |p.mem|, k)
       && (k == n && Pie(c.data) ==> WellFormed(arch, c.data, c.es, c.dynEntries))
  }

  /** Some segment of the first n lies over address a of the image. */
  predicate Covered(data: Buffer, n: nat, a: nat)
    requires |data| >= EHDR_SIZE
  {
    exists i :: 0 <= i < n && Covers(Seg(data, i), a)
  }

  /** A creation does not write to address a: a PIE file is loaded above it, and a file that is not PIE has no
      segment there. */
  predicate Spares(p: Point, c: Creation, a: nat)
    requires |c.data| >= EHDR_SIZE
  {
    if Pie(c.data) then a < BaseOf(p, c) else !Covered(c.data, FirstBad(c.data, 0, HeaderCount(c.data)), a)
  }

  /** What a creation leaves: a refused file leaves the next address alone. */
  ghost predicate Created(arch: Arch, p: Point, c: Creation, q: Point) {
    if Span(arch, c.data) == 0 then q == p
    else
      exists code, info ::
        && LoadDone(p.mem, arch, c.data, BaseOf(p, c), c.dynEntries, code, info, q.mem)
        && q.next == if code == 0 then NextAddress(BaseOf(p, c), info.size) else p.next
  }

  lemma NothingCreated(arch: Arch, p: Point, c: Creation)
    requires Span(arch, c.data) == 0
    ensures Created(arch, p, c, p)
  {
  }

  lemma CreatedBy(arch: Arch, p: Point, c: Creation, q: Point, code: int, info: Info)
    requires Span(arch, c.data) != 0 && LoadDone(p.mem, arch, c.data, BaseOf(p, c), c.dynEntries, code, info, q.mem)
    requires q.next == if code == 0 then NextAddress(BaseOf(p, c), info.size) else p.next
    ensures Created(arch, p, c, q)
  {
    hide LoadDone, Span, Align64K;
  }

  ghost predicate IsRun(arch: Arch, points: seq<Point>, cs: seq<Creation>) {
    && |points| == |cs| + 1
    && forall i :: 0 <= i < |cs| ==>
         Acceptable(arch, points[i], cs[i]) && Created(arch, points[i], cs[i], points[i + 1])
  }

  predicate Succeeds(arch: Arch, c: Creation)
    requires |c.data| >= EHDR_SIZE
  {
    Span(arch, c.data) != 0 && FirstBad(c.data, 0, HeaderCount(c.data)) == HeaderCount(c.data)
  }

  /** Two memories agree on a range. */
  predicate SameIn(a: Buffer, b: Buffer, lo: nat, hi: nat) {
    |a| == |b| && forall k :: lo <= k < hi && k < |a| ==> b[k] == a[k]
  }

  lemma LoadKeepsBelow(mem: Buffer, arch: Arch, data: Buffer, base: nat, es: seq<Rela>, dynEntries: nat)
    requires WellFormed(arch, data, es, dynEntries) && Fits(data, base, |mem|, HeaderCount(data))
    ensures forall a :: 0 <= a < base && a < |mem| ==> Loaded(mem, arch, data, base, dynEntries)[a] == mem[a]
  {
    hide AllGood, ImageByte, Scan, Clear, Reads, DynamicUpTo, Loaded, Fits, Get64, Target;
    PieLoaded(mem, arch, data, base, es, dynEntries);
    forall a | 0 <= a < base && a < |mem| ensures Loaded(mem, arch, data, base, dynEntries)[a] == mem[a] {
      assert !Aimed(arch, es, |es|, a - base);
    }
  }

  /** What the segments of a file do not cover they leave alone, wherever they go. */
  lemma SegmentsSpare(p: Point, c: Creation, k: nat, a: nat)
    requires |c.data| >= EHDR_SIZE && k == FirstBad(c.data, 0, HeaderCount(c.data))
    requires Fits(c.data, BaseOf(p, c), |p.mem|, k) && a < |p.mem| && Spares(p, c, a)
    ensures LoadUpTo(p.mem, c.data, BaseOf(p, c), k)[a] == p.mem[a]
  {
    hide LoadUpTo, Good, FirstBad, Align64K, ImageByte, Seg, Pie;
    LoadedIsImage(p.mem, c.data, BaseOf(p, c), k, a);
    if !Pie(c.data) {
      SomeCovers(c.data, k, a);
    }
  }

  lemma SparesBelow(p: Point, c: Creation, a: nat)
    requires |c.data| >= EHDR_SIZE && Pie(c.data) && Spares(p, c, a)
    ensures a < BaseOf(p, c)
  {
  }

  /** A program is placed no lower than the next address, nothing is changed where the creation does not write,
      and a program that is loaded ends, with a gap, before the address after it. */
  lemma CreationFacts(arch: Arch, p: Point, c: Creation, q: Point)
    requires Acceptable(arch, p, c) && Created(arch, p, c, q)
    ensures p.next <= BaseOf(p, c) && BaseOf(p, c) % 0x10000 == 0 && p.next <= q.next && |q.mem| == |p.mem|
    ensures Succeeds(arch, c) ==> BaseOf(p, c) + SizeUpTo(c.data, HeaderCount(c.data)) + 0x10000 <= q.next
    ensures forall a :: 0 <= a < |p.mem| && Spares(p, c, a) ==> q.mem[a] == p.mem[a]
  {
    hide LoadUpTo, SizeUpTo, WellFormed, Good, FirstBad, Align64K, Span, Spares, Relocated, Fits;
    var base, n := BaseOf(p, c), HeaderCount(c.data);
    var k := FirstBad(c.data, 0, n);
    forall a | 0 <= a < |p.mem| && Spares(p, c, a) ensures q.mem[a] == p.mem[a] {
      SegmentsSpare(p, c, k, a);
      if k == n && Pie(c.data) {
        LoadKeepsBelow(p.mem, arch, c.data, base, c.es, c.dynEntries);
        SparesBelow(p, c, a);
      }
    }
  }

  lemma UncoveredKept(mem: Buffer, data: Buffer, base: nat, n: nat, a: nat)
    requires |data| >= EHDR_SIZE && !Pie(data) && AllGood(data, n) && Fits(data, base, |mem|, n) && a < |mem|
    requires !Covered(data, n, a)
    ensures LoadUpTo(mem, data, base, n)[a] == mem[a]
  {
    hide LoadUpTo, ImageByte, Seg;
    LoadedIsImage(mem, data, base, n, a);
    SomeCovers(data, n, a);
  }

  /** A memory that shows that an address under a segment is written. */
  lemma CoveredWritten(data: Buffer, base: nat, n: nat, size: nat, a: nat) returns (mem: Buffer)
    requires |data| >= EHDR_SIZE && !Pie(data) && AllGood(data, n) && Fits(data, base, size, n) && a < size
    requires Covered(data, n, a)
    ensures |mem| == size && LoadUpTo(mem, data, base, n)[a] != mem[a]
  {
    hide LoadUpTo, ImageByte, Seg;
    SomeCovers(data, n, a);
    var v := ImageByte(data, n, a).value;
    mem := Zeros(size)[a := if v == 0 then 1 else 0];
    LoadedIsImage(mem, data, base, n, a);
  }

  /** A file that is not PIE, loaded on its own addresses, leaves a range alone whatever memory holds exactly when
      none of its segments reaches into the range. */
  lemma FixedLoadSparesIff(data: Buffer, base: nat, n: nat, size: nat, lo: nat, hi: nat)
    requires |data| >= EHDR_SIZE && !Pie(data) && AllGood(data, n) && Fits(data, base, size, n) && lo <= hi <= size
    ensures (forall mem: Buffer :: |mem| == size ==> LoadUpTo(mem, data, base, n)[lo..hi] == mem[lo..hi])
            <==> forall a: nat :: lo <= a < hi ==> !Covered(data, n, a)
  {
    hide LoadUpTo, ImageByte, Seg, Pie, Covered, Fits, AllGood;
    if forall a: nat :: lo <= a < hi ==> !Covered(data, n, a) {
      forall mem: Buffer | |mem| == size ensures LoadUpTo(mem, data, base, n)[lo..hi] == mem[lo..hi] {
        forall a | lo <= a < hi ensures LoadUpTo(mem, data, base, n)[a] == mem[a] {
          UncoveredKept(mem, data, base, n, a);
        }
      }
    } else {
      var a: nat :| lo <= a < hi && Covered(data, n, a);
      var mem := CoveredWritten(data, base, n, size, a);
      assert LoadUpTo(mem, data, base, n)[lo..hi][a - lo] != mem[lo..hi][a - lo];
    }
  }

  /** The next address never goes down. */
  lemma {:induction false} NextGrows(arch: Arch, points: seq<Point>, cs: seq<Creation>, i: nat, j: nat)
    requires IsRun(arch, points, cs) && i <= j <= |cs|
    ensures points[i].next <= points[j].next && |points[j].mem| == |points[i].mem|
    decreases j - i
  {
    hide Acceptable, Created;
    if i < j {
      NextGrows(arch, points, cs, i, j - 1);
      CreationFacts(arch, points[j - 1], cs[j - 1], points[j]);
    }
  }

  /** Creation m of a run, if it is not PIE, has no segment in a range. */
  predicate KeepsOut(c: Creation, lo: nat, hi: nat)
    requires |c.data| >= EHDR_SIZE
  {
    !Pie(c.data) ==> forall a: nat :: lo <= a < hi ==> !Covered(c.data, FirstBad(c.data, 0, HeaderCount(c.data)), a)
  }

  lemma KeepsOutSpares(p: Point, c: Creation, lo: nat, hi: nat, a: nat)
    requires |c.data| >= EHDR_SIZE && KeepsOut(c, lo, hi) && lo <= a < hi <= BaseOf(p, c)
    ensures Spares(p, c, a)
  {
  }

  /** A PIE program of a run, whatever the random offsets, starts on a multiple of 64K and ends 64K before where any
      later one is placed; and no later creation, loaded or refused, changes a byte of it, as long as those that
      are not PIE have no segment there. */
  lemma {:induction false} EarlierProgramsSafe(arch: Arch, points: seq<Point>, cs: seq<Creation>, i: nat, j: nat)
    requires IsRun(arch, points, cs) && i < j < |cs| && |cs[i].data| >= EHDR_SIZE && Succeeds(arch, cs[i])
             && Pie(cs[i].data)
    requires forall m :: i < m <= j ==> |cs[m].data| >= EHDR_SIZE
    requires forall m :: i < m <= j ==>
               KeepsOut(cs[m], BaseOf(points[i], cs[i]),
                        BaseOf(points[i], cs[i]) + SizeUpTo(cs[i].data, HeaderCount(cs[i].data)))
    ensures var start := BaseOf(points[i], cs[i]);
            var end := start + SizeUpTo(cs[i].data, HeaderCount(cs[i].data));
            && start % 0x10000 == 0 && BaseOf(points[j], cs[j]) % 0x10000 == 0
            && end + 0x10000 <= BaseOf(points[j], cs[j])
            && SameIn(points[i + 1].mem, points[j + 1].mem, start, end)
    decreases j - i
  {
    hide Acceptable, Created, SizeUpTo, Succeeds, BaseOf, Spares, KeepsOut, Pie;
    var start := BaseOf(points[i], cs[i]);
    var end := start + SizeUpTo(cs[i].data, HeaderCount(cs[i].data));
    CreationFacts(arch, points[i], cs[i], points[i + 1]);
    CreationFacts(arch, points[j], cs[j], points[j + 1]);
    NextGrows(arch, points, cs, i + 1, j);
    if i + 1 < j {
      EarlierProgramsSafe(arch, points, cs, i, j - 1);
    }
    forall a | start <= a < end && a < |points[j + 1].mem| ensures points[j + 1].mem[a] == points[j].mem[a] {
      KeepsOutSpares(points[j], cs[j], start, end, a);
    }
  }

  class Machine {
    const arch: Arch
    const mem: array<byte>
    var nextLoadAddr: nat

    method CopyIn(dest: nat, bytes: Buffer)
      requires dest + |bytes| <= mem.Length
      modifies mem
      ensures mem[..] == Splice(old(mem[..]), dest, bytes)
    {
      for i := 0 to |bytes|
        invariant forall a :: 0 <= a < mem.Length ==>
                  mem[a] == if dest <= a < dest + i then bytes[a - dest] else old(mem[a])
      {
        mem[dest + i] := bytes[i];
      }
    }

    method Clear(dest: nat, n: nat)
      requires dest + n <= mem.Length
      modifies mem
      ensures mem[..] == Splice(old(mem[..]), dest, Zeros(n))
    {
      for i := 0 to n
        invariant forall a :: 0 <= a < mem.Length ==> mem[a] == if dest <= a < dest + i then 0 else old(mem[a])
      {
        mem[dest + i] := 0;
      }
    }

    method Store64(a: nat, v: nat)
      requires a + 8 <= mem.Length && v < WORD64
      modifies mem
      ensures mem[..] == Put64(old(mem[..]), a, v)
    {
      WordBytes(mem[..], a, v);
      assert mem[..][a..a + 8] == mem[a..a + 8];
      CopyIn(a, Put64(mem[a..a + 8], 0, v));
    }

    function Load64(base: nat, k: nat): Option<nat>
      reads mem
      ensures Load64(base, k) == WordAt(mem[..], base, k)
    {
      if base + k + 8 <= mem.Length then Some(Get64(mem[..], base + k)) else None
    }

    method ReadEntry(base: nat, addr: nat, i: nat) returns (e: Rela)
      requires RelaAt(MemoryView(mem[..], base), addr, i).Some?
      ensures RelaAt(MemoryView(mem[..], base), addr, i) == Some(e)
    {
      hide Get64;
      var at := addr + RELA_SIZE * i;
      ghost var view := MemoryView(mem[..], base);
      assert view(at) == Load64(base, at);
      assert view(at + 8) == Load64(base, at + 8);
      assert view(at + 16) == Load64(base, at + 16);
      e := Rela(Load64(base, at).value, Load64(base, at + 8).value, Load64(base, at + 16).value);
    }

    /** Processes the entries of the table in order, reading each from memory. */
    method Relocate(base: nat, addr: nat, count: nat)
      requires RelocationsFit(mem[..], arch, base, addr, count)
      modifies mem
      ensures mem[..] == RelocateUpTo(old(mem[..]), arch, base, addr, count)
    {
      hide Get64, Put64, RelocateUpTo, RelocationsFit, RelaAt;
      NoEntries(mem[..], arch, base, addr);
      for i := 0 to count
        invariant mem[..] == RelocateUpTo(old(mem[..]), arch, base, addr, i)
      {
        EntryFits(old(mem[..]), arch, base, addr, count, i);
        var e := ReadEntry(base, addr, i);
        if e.info % WORD == RelativeType(arch) {
          Store64(base + e.offset, (base + e.addend) % WORD64);
        }
      }
    }

    method ProcessRelocations(base: nat, dynamic: nat, ghost n: nat)
      requires DynamicFits(mem[..], arch, base, dynamic, n)
      modifies mem
      ensures mem[..] == Relocated(old(mem[..]), arch, base, dynamic, n)
    {
      hide RelocateUpTo, RelocationsFit, Get64, Put64;
      ghost var view := MemoryView(mem[..], base);
      var t, dyn := NO_TABLE, dynamic;
      ghost var left := n;
      while Load64(base, dyn).Some? && Load64(base, dyn).value != 0
        invariant mem[..] == old(mem[..])
        invariant Scan(view, dyn, left, t) == Scan(view, dynamic, n, NO_TABLE)
        decreases left
      {
        assert view(dyn) == Load64(base, dyn) && view(dyn + 8) == Load64(base, dyn + 8);
        t := Noted(t, Load64(base, dyn).value, Load64(base, dyn + 8).value);
        dyn := dyn + 16;
        left := left - 1;
      }
      assert view(dyn) == Load64(base, dyn);
      assert Scan(view, dynamic, n, NO_TABLE) == Some(t);
      if t.addr == 0 || t.size == 0 {
        NoEntries(mem[..], arch, base, t.addr);
        return;
      }
      Relocate(base, t.addr, t.size / t.ent);
    }

    /** Copies a segment's file bytes and clears the rest of its memory. */
    method PutSegment(data: Buffer, dest: nat, s: Segment)
      requires s.offset + s.filesz <= |data| && dest + Extent(s) <= mem.Length
      modifies mem
      ensures mem[..] == LoadSegment(old(mem[..]), data, dest, s)
    {
      hide Splice, Zeros;
      CopyIn(dest, data[s.offset..s.offset + s.filesz]);
      if s.memsz > s.filesz {
        Clear(dest + s.filesz, s.memsz - s.filesz);
      }
    }

    /** Loads a file at a base: segment by segment, then the relocations of a PIE file. */
    method LoadAt(data: Buffer, base: nat, ghost dynEntries: nat) returns (code: int, info: Info)
      requires LoadFits(mem.Length, mem[..], arch, data, base, dynEntries)
      modifies mem
      ensures LoadDone(old(mem[..]), arch, data, base, dynEntries, code, info, mem[..])
    {
      hide RelocationsFit, DynamicFits, Relocated, HeaderAt, Seg;
      info := Info(0, 0, 0);
      var valid := Validate(arch, data);
      if valid != 0 {
        return -1, info;
      }
      var pie, n := Pie(data), HeaderCount(data);
      ghost var k := FirstBad(data, 0, n);
      var totalSize, dynamic := 0, None;
      var i := 0;
      while i < n
        invariant i <= k
        invariant mem[..] == LoadUpTo(old(mem[..]), data, base, i)
        invariant totalSize == SizeUpTo(data, i) && dynamic == DynamicUpTo(data, i)
      {
        if !Good(data, i) {
          return -1, info;
        }
        var s := Seg(data, i);
        if s.kind == PT_DYNAMIC {
          dynamic := Some(s.vaddr);
        } else if s.kind == PT_LOAD {
          PutSegment(data, if pie then base + s.vaddr else s.vaddr, s);
          var segEnd := s.vaddr + s.memsz;
          if segEnd > totalSize {
            totalSize := segEnd;
          }
        }
        i := i + 1;
      }
      if pie && dynamic.Some? {
        ProcessRelocations(base, dynamic.value, dynEntries);
      }
      code, info := 0, Info(if pie then base + Entry(data) else Entry(data), base, totalSize);
    }

    /** The part of process_create that loads the program and chooses where the next one may go. */
    method PlaceProgram(data: Buffer, aslr: nat, ghost es: seq<Rela>, ghost dynEntries: nat) returns (code: int)
      requires LoadFits(mem.Length, mem[..], arch, data, LoadAddress(nextLoadAddr, aslr), dynEntries)
      modifies this, mem
      ensures Created(arch, Point(old(mem[..]), old(nextLoadAddr)), Creation(data, aslr, es, dynEntries),
                      Point(mem[..], nextLoadAddr))
    {
      hide LoadDone, LoadFits, Align64K, Created, Span;
      ghost var p, c := Point(mem[..], nextLoadAddr), Creation(data, aslr, es, dynEntries);
      var size := CalcSize(arch, data);
      if size == 0 {
        NothingCreated(arch, p, c);
        return -1;
      }
      var base := Align64K(nextLoadAddr + aslr);
      var info;
      code, info := LoadAt(data, base, dynEntries);
      if code == 0 {
        nextLoadAddr := Align64K(base + info.size + GAP);
      }
      CreatedBy(arch, p, c, Point(mem[..], nextLoadAddr), code, info);
    }
  }

  // ---- concrete files ----

  /** An x86-64 header of type EXEC (2) or DYN (3) with one load segment of two sizes at a small address. */
  function Sample(kind: byte, vaddr: byte, filesz: byte, memsz: byte): (data: Buffer)
    ensures |data| == 120
  {
    Zeros(120)[0 := 0x7F][1 := 0x45][2 := 0x4C][3 := 0x46][4 := 2][5 := 1][16 := kind][18 := 62]
              [32 := 64][54 := 56][56 := 1][64 := 1][80 := vaddr][96 := filesz][104 := memsz]
  }

  lemma SampleValid(kind: byte, vaddr: byte, filesz: byte, memsz: byte)
    requires kind == 2 || kind == 3
    ensures Validate(X64, Sample(kind, vaddr, filesz, memsz)) == 0
  {
  }

  lemma SampleHeader(kind: byte, vaddr: byte, filesz: byte, memsz: byte)
    ensures var data := Sample(kind, vaddr, filesz, memsz);
            && HeaderCount(data) == 1 && HeaderAt(data, 0) == 64 && HeaderAt(data, 1) == 120
            && (Pie(data) <==> kind == 3)
  {
    var data := Sample(kind, vaddr, filesz, memsz);
    assert Get64(data, 32) == 64 && Get16(data, 54) == 56;
  }

  lemma SampleSegment(kind: byte, vaddr: byte, filesz: byte, memsz: byte)
    ensures Seg(Sample(kind, vaddr, filesz, memsz), 0) == Segment(PT_LOAD, 0, vaddr, filesz, memsz)
  {
    hide HeaderAt, HeaderCount;
    SampleHeader(kind, vaddr, filesz, memsz);
  }

  lemma SampleFields(kind: byte, vaddr: byte, filesz: byte, memsz: byte)
    requires kind == 2 || kind == 3
    ensures var data := Sample(kind, vaddr, filesz, memsz);
            && Validate(X64, data) == 0 && HeaderCount(data) == 1 && (Pie(data) <==> kind == 3)
            && Seg(data, 0) == Segment(PT_LOAD, 0, vaddr, filesz, memsz)
            && (filesz <= 120 ==> AllGood(data, 1))
            && SizeUpTo(data, 1) == vaddr + memsz && MinUpTo(data, 1) == vaddr
  {
    hide Validate, HeaderAt, HeaderCount, Pie, Seg, Sample;
    var data := Sample(kind, vaddr, filesz, memsz);
    SampleValid(kind, vaddr, filesz, memsz);
    SampleHeader(kind, vaddr, filesz, memsz);
    SampleSegment(kind, vaddr, filesz, memsz);
    assert SizeUpTo(data, 0) == 0 && MinUpTo(data, 0) == WORD64 - 1;
  }

  /** Eight file bytes in a segment of four: the image reaches past the reported size of 4. */
  lemma OverlongSegment()
    ensures var data := Sample(3, 0, 8, 4);
            && Validate(X64, data) == 0 && AllGood(data, 1) && SizeUpTo(data, 1) == 4
            && ImageByte(data, 1, 7).Some? && !Proper(data, 1)
  {
    hide Sample;
    SampleFields(3, 0, 8, 4);
    assert Covers(Seg(Sample(3, 0, 8, 4), 0), 7);
  }

  /** A segment at address 16: a span of 4 and a load size of 20. */
  lemma SpanBelowSize()
    ensures var data := Sample(3, 16, 4, 4); Span(X64, data) == 4 && SizeUpTo(data, HeaderCount(data)) == 20
  {
    hide Sample;
    SampleFields(3, 16, 4, 4);
  }

  /** A file that is not PIE, with a segment at address 16, is accepted and writes there at every base. */
  lemma FixedFileWrites(mem: Buffer, base: nat)
    requires |mem| >= 20
    ensures var data := Sample(2, 16, 4, 4);
            && Validate(X64, data) == 0 && !Pie(data) && AllGood(data, 1) && Fits(data, base, |mem|, 1)
            && Covered(data, 1, 16) && LoadUpTo(mem, data, base, 1)[16] == data[0]
  {
    hide Sample, Validate, LoadUpTo, Seg, HeaderAt, Pie;
    var data := Sample(2, 16, 4, 4);
    SampleFields(2, 16, 4, 4);
    assert Covers(Seg(data, 0), 16);
    LoadedIsImage(mem, data, base, 1, 16);
  }
}
