/** The ELF64 loader of kernel/loader/elf.c. Memory is one buffer indexed by address; file and header
    arithmetic is unbounded. */
module Elf {
  import opened Wrappers
  import opened Bytes
  import opened Arith

  const EHDR_SIZE := 64
  const PHDR_SIZE := 56
  const RELA_SIZE := 24
  const PT_LOAD := 1
  const PT_DYNAMIC := 2
  const ET_EXEC := 2
  const ET_DYN := 3
  const DT_RELA := 7
  const DT_RELASZ := 8
  const DT_RELAENT := 9

  /** The machine the kernel is built for. */
  datatype Arch = Arm64 | X64 | X86

  function MachineCode(arch: Arch): nat {
    match arch case Arm64 => 183 case X64 => 62 case X86 => 3
  }

  function RelativeType(arch: Arch): nat {
    match arch case Arm64 => 0x403 case X64 => 8 case X86 => 8
  }

  // ---- 64-bit words ----

  function Get64(b: Buffer, off: nat): (v: nat)
    requires off + 8 <= |b|
    ensures v < WORD64
  {
    Get32(b, off) + WORD * Get32(b, off + 4)
  }

  function Put64(b: Buffer, off: nat, v: nat): (r: Buffer)
    requires off + 8 <= |b|
    ensures |r| == |b|
  {
    Put32(Put32(b, off, v % WORD), off + 4, v / WORD)
  }

  lemma Get64Put64(b: Buffer, off: nat, v: nat)
    requires off + 8 <= |b| && v < WORD64
    ensures Get64(Put64(b, off, v), off) == v
    ensures forall i :: 0 <= i < |b| && !(off <= i < off + 8) ==> Put64(b, off, v)[i] == b[i]
  {
    var lo := Put32(b, off, v % WORD);
    Get32Put32(b, off, v % WORD);
    Get32Put32(lo, off + 4, v / WORD);
    Get32Frame(lo, off + 4, v / WORD, off);
  }

  /** Equal bytes make equal words. */
  lemma SameBytes64(a: Buffer, i: nat, b: Buffer, j: nat)
    requires i + 8 <= |a| && j + 8 <= |b| && a[i..i + 8] == b[j..j + 8]
    ensures Get64(a, i) == Get64(b, j) && Get32(a, i) == Get32(b, j)
  {
    var s, t := a[i..i + 8], b[j..j + 8];
    assert a[i] == s[0] && a[i + 1] == s[1] && a[i + 2] == s[2] && a[i + 3] == s[3];
    assert a[i + 4] == s[4] && a[i + 5] == s[5] && a[i + 6] == s[6] && a[i + 7] == s[7];
    assert b[j] == t[0] && b[j + 1] == t[1] && b[j + 2] == t[2] && b[j + 3] == t[3];
    assert b[j + 4] == t[4] && b[j + 5] == t[5] && b[j + 6] == t[6] && b[j + 7] == t[7];
  }

  // ---- headers ----

  /** 0, or the first check that fails. */
  function Validate(arch: Arch, data: Buffer): (code: int)
    ensures code == 0 ==> |data| >= EHDR_SIZE
    ensures -6 <= code <= 0
  {
    if |data| < EHDR_SIZE then -1
    else if data[0] != 0x7F || data[1] != 0x45 || data[2] != 0x4C || data[3] != 0x46 then -2
    else if data[4] != 2 then -3
    else if data[5] != 1 then -4
    else if Get16(data, 18) != MachineCode(arch) then -5
    else if Get16(data, 16) != ET_EXEC && Get16(data, 16) != ET_DYN then -6
    else 0
  }

  function Pie(data: Buffer): bool
    requires |data| >= EHDR_SIZE
  {
    Get16(data, 16) == ET_DYN
  }

  function Entry(data: Buffer): nat
    requires |data| >= EHDR_SIZE
  {
    Get64(data, 24)
  }

  function HeaderCount(data: Buffer): nat
    requires |data| >= EHDR_SIZE
  {
    Get16(data, 56)
  }

  function HeaderAt(data: Buffer, i: nat): nat
    requires |data| >= EHDR_SIZE
  {
    var size := Get16(data, 54);
    MulLe(0, i, size);
    Get64(data, 32) + i * size
  }

  datatype Segment = Segment(kind: nat, offset: nat, vaddr: nat, filesz: nat, memsz: nat)

  /** The i-th program header; one that does not lie in the file reads as an unused one. */
  function Seg(data: Buffer, i: nat): Segment
    requires |data| >= EHDR_SIZE
  {
    var at := HeaderAt(data, i);
    if at + PHDR_SIZE <= |data| then
      Segment(Get32(data, at), Get64(data, at + 8), Get64(data, at + 16), Get64(data, at + 32), Get64(data, at + 40))
    else Segment(0, 0, 0, 0, 0)
  }

  /** What the loader checks before it uses the i-th header. */
  predicate Good(data: Buffer, i: nat)
    requires |data| >= EHDR_SIZE
  {
    && HeaderAt(data, i + 1) <= |data|
    && var s := Seg(data, i);
       s.kind == PT_LOAD ==> s.offset <= |data| && s.filesz <= |data| - s.offset
  }

  function Max(a: nat, b: nat): nat { if a < b then b else a }

  /** The bytes a segment occupies in memory: its file bytes may exceed its memory size. */
  function Extent(s: Segment): nat { Max(s.filesz, s.memsz) }

  // ---- memory after loading ----

  /** Overwrites from at on. */
  function Splice(mem: Buffer, at: nat, bytes: Buffer): (r: Buffer)
    requires at + |bytes| <= |mem|
    ensures |r| == |mem|
    ensures forall a :: 0 <= a < |mem| ==> r[a] == if at <= a < at + |bytes| then bytes[a - at] else mem[a]
  {
    mem[..at] + bytes + mem[at + |bytes|..]
  }

  function Copied(data: Buffer, s: Segment): Buffer {
    if s.offset + s.filesz <= |data| then data[s.offset..s.offset + s.filesz] else []
  }

  /** One segment put at dest: its file bytes, then zeros up to its memory size. */
  function LoadSegment(mem: Buffer, data: Buffer, dest: nat, s: Segment): (r: Buffer)
    requires s.offset + s.filesz <= |data| && dest + Extent(s) <= |mem|
    ensures |r| == |mem|
  {
    var copied := Splice(mem, dest, Copied(data, s));
    if s.memsz > s.filesz then Splice(copied, dest + s.filesz, Zeros(s.memsz - s.filesz)) else copied
  }

  /** Where address 0 of a file goes: a file that is not PIE keeps its own addresses. */
  function Origin(data: Buffer, base: nat): nat
    requires |data| >= EHDR_SIZE
  {
    if Pie(data) then base else 0
  }

  function Dest(data: Buffer, base: nat, s: Segment): nat
    requires |data| >= EHDR_SIZE
  {
    Origin(data, base) + s.vaddr
  }

  /** The first n segments fit in a memory of that size. */
  predicate Fits(data: Buffer, base: nat, size: nat, n: nat)
    requires |data| >= EHDR_SIZE
  {
    forall i :: 0 <= i < n && Seg(data, i).kind == PT_LOAD ==>
      Dest(data, base, Seg(data, i)) + Extent(Seg(data, i)) <= size
  }

  predicate AllGood(data: Buffer, n: nat)
    requires |data| >= EHDR_SIZE
  {
    forall i :: 0 <= i < n ==> Good(data, i)
  }

  /** Memory after the first n headers. */
  function LoadUpTo(mem: Buffer, data: Buffer, base: nat, n: nat): (r: Buffer)
    requires |data| >= EHDR_SIZE && AllGood(data, n) && Fits(data, base, |mem|, n)
    ensures |r| == |mem|
  {
    if n == 0 then mem
    else
      var m, s := LoadUpTo(mem, data, base, n - 1), Seg(data, n - 1);
      if s.kind == PT_LOAD then
        assert Good(data, n - 1);
        LoadSegment(m, data, Dest(data, base, s), s)
      else m
  }

  /** The end of the highest of the first n segments. */
  function SizeUpTo(data: Buffer, n: nat): nat
    requires |data| >= EHDR_SIZE
  {
    if n == 0 then 0
    else
      var s, z := Seg(data, n - 1), SizeUpTo(data, n - 1);
      if s.kind == PT_LOAD then Max(z, s.vaddr + s.memsz) else z
  }

  /** The address of the last dynamic segment among the first n. */
  function DynamicUpTo(data: Buffer, n: nat): Option<nat>
    requires |data| >= EHDR_SIZE
  {
    if n == 0 then None
    else if Seg(data, n - 1).kind == PT_DYNAMIC then Some(Seg(data, n - 1).vaddr)
    else DynamicUpTo(data, n - 1)
  }

  // ---- the image: what a file says about memory, with no base ----

  predicate Covers(s: Segment, k: nat) {
    s.kind == PT_LOAD && s.vaddr <= k < s.vaddr + Extent(s)
  }

  /** The byte at offset k of the image of the first n segments, if any of them covers it. */
  function ImageByte(data: Buffer, n: nat, k: nat): Option<byte>
    requires |data| >= EHDR_SIZE && AllGood(data, n)
  {
    if n == 0 then None
    else
      var s := Seg(data, n - 1);
      if Covers(s, k) then
        assert Good(data, n - 1);
        Some(if k - s.vaddr < s.filesz then data[s.offset + (k - s.vaddr)] else 0)
      else ImageByte(data, n - 1, k)
  }

  lemma SegmentBytes(mem: Buffer, data: Buffer, dest: nat, s: Segment, a: nat)
    requires s.offset + s.filesz <= |data| && dest + Extent(s) <= |mem| && a < |mem|
    ensures LoadSegment(mem, data, dest, s)[a]
            == if dest <= a < dest + s.filesz then data[s.offset + (a - dest)]
               else if dest <= a < dest + s.memsz then 0
               else mem[a]
  {
    hide Splice, Zeros;
    var copied := Splice(mem, dest, Copied(data, s));
    assert copied[a] == if dest <= a < dest + s.filesz then data[s.offset + (a - dest)] else mem[a];
  }

  /** The segments put the image at the base, or at address 0 if the file is not PIE, and leave everything else
      as it was. */
  lemma {:induction false} LoadedIsImage(mem: Buffer, data: Buffer, base: nat, n: nat, a: nat)
    requires |data| >= EHDR_SIZE && AllGood(data, n) && Fits(data, base, |mem|, n) && a < |mem|
    ensures var o := Origin(data, base);
            LoadUpTo(mem, data, base, n)[a]
            == if a >= o && ImageByte(data, n, a - o).Some? then ImageByte(data, n, a - o).value else mem[a]
  {
    hide HeaderAt, Seg, Pie, LoadSegment;
    if n > 0 {
      LoadedIsImage(mem, data, base, n - 1, a);
      var s := Seg(data, n - 1);
      if s.kind == PT_LOAD {
        assert Good(data, n - 1);
        SegmentBytes(LoadUpTo(mem, data, base, n - 1), data, Dest(data, base, s), s, a);
      }
    }
  }

  /** File bytes past a segment's memory size stay below the end of the highest segment. */
  predicate Proper(data: Buffer, n: nat)
    requires |data| >= EHDR_SIZE
  {
    forall i :: 0 <= i < n && Seg(data, i).kind == PT_LOAD && Seg(data, i).filesz > Seg(data, i).memsz ==>
      Seg(data, i).vaddr + Seg(data, i).filesz <= SizeUpTo(data, n)
  }

  lemma {:induction false} SomeCovers(data: Buffer, n: nat, k: nat)
    requires |data| >= EHDR_SIZE && AllGood(data, n)
    ensures ImageByte(data, n, k).Some? <==> exists i :: 0 <= i < n && Covers(Seg(data, i), k)
  {
    if n > 0 {
      SomeCovers(data, n - 1, k);
    }
  }

  lemma {:induction false} EndsBelowSize(data: Buffer, n: nat, i: nat)
    requires |data| >= EHDR_SIZE && i < n && Seg(data, i).kind == PT_LOAD
    ensures Seg(data, i).vaddr + Seg(data, i).memsz <= SizeUpTo(data, n)
  {
    if i < n - 1 {
      EndsBelowSize(data, n - 1, i);
    }
  }

  /** The image lies inside the load size exactly when no file bytes go past it; the code compares
      neither p_filesz with p_memsz nor the result with the size it reports. */
  lemma ImageInSizeIff(data: Buffer, n: nat)
    requires |data| >= EHDR_SIZE && AllGood(data, n)
    ensures Proper(data, n) <==> forall k: nat :: ImageByte(data, n, k).Some? ==> k < SizeUpTo(data, n)
  {
    hide ImageByte, SizeUpTo, AllGood, Seg;
    if Proper(data, n) {
      forall k: nat | ImageByte(data, n, k).Some? ensures k < SizeUpTo(data, n) {
        SomeCovers(data, n, k);
        var i :| 0 <= i < n && Covers(Seg(data, i), k);
        EndsBelowSize(data, n, i);
      }
    } else {
      var i :| 0 <= i < n && Seg(data, i).kind == PT_LOAD && Seg(data, i).filesz > Seg(data, i).memsz
               && Seg(data, i).vaddr + Seg(data, i).filesz > SizeUpTo(data, n);
      var k := Seg(data, i).vaddr + Seg(data, i).filesz - 1;
      assert Covers(Seg(data, i), k);
      SomeCovers(data, n, k);
    }
  }

  lemma ImageInSize(data: Buffer, n: nat, k: nat)
    requires |data| >= EHDR_SIZE && AllGood(data, n) && Proper(data, n) && ImageByte(data, n, k).Some?
    ensures k < SizeUpTo(data, n)
  {
    ImageInSizeIff(data, n);
  }

  // ---- dynamic table and relocations ----

  /** A 64-bit word at an offset, where there is one. */
  type View = nat -> Option<nat>

  function WordAt(mem: Buffer, base: nat, k: nat): Option<nat> {
    if base + k + 8 <= |mem| then Some(Get64(mem, base + k)) else None
  }

  function MemoryView(mem: Buffer, base: nat): View {
    (k: nat) => WordAt(mem, base, k)
  }

  predicate WordCovered(data: Buffer, n: nat, k: nat)
    requires |data| >= EHDR_SIZE && AllGood(data, n)
  {
    forall i :: k <= i < k + 8 ==> ImageByte(data, n, i).Some?
  }

  function ImageBytes(data: Buffer, n: nat, k: nat): (b: Buffer)
    requires |data| >= EHDR_SIZE && AllGood(data, n) && WordCovered(data, n, k)
    ensures |b| == 8 && forall i :: 0 <= i < 8 ==> Some(b[i]) == ImageByte(data, n, k + i)
  {
    seq(8, i requires 0 <= i < 8 => ImageByte(data, n, k + i).value)
  }

  function ImageWord(data: Buffer, n: nat, k: nat): Option<nat>
    requires |data| >= EHDR_SIZE && AllGood(data, n)
  {
    if WordCovered(data, n, k) then Some(Get64(ImageBytes(data, n, k), 0)) else None
  }

  function ImageView(data: Buffer, n: nat): View
    requires |data| >= EHDR_SIZE && AllGood(data, n)
  {
    (k: nat) => ImageWord(data, n, k)
  }

  /** Where the relocation table is, as the dynamic table tells. */
  datatype Table = Table(addr: nat, size: nat, ent: nat)

  const NO_TABLE := Table(0, 0, RELA_SIZE)

  function Noted(t: Table, tag: nat, val: nat): Table {
    if tag == DT_RELA then t.(addr := val)
    else if tag == DT_RELASZ then t.(size := val)
    else if tag == DT_RELAENT then t.(ent := val)
    else t
  }

  /** Reads a dynamic table that ends within n entries. */
  function Scan(view: View, a: nat, n: nat, t: Table): Option<Table>
    decreases n
  {
    if n == 0 then None
    else if view(a).None? then None
    else if view(a).value == 0 then Some(t)
    else if view(a + 8).None? then None
    else Scan(view, a + 16, n - 1, Noted(t, view(a).value, view(a + 8).value))
  }

  datatype Rela = Rela(offset: nat, info: nat, addend: nat)

  function RelaAt(view: View, addr: nat, i: nat): Option<Rela> {
    var at := addr + RELA_SIZE * i;
    if view(at).Some? && view(at + 8).Some? && view(at + 16).Some?
    then Some(Rela(view(at).value, view(at + 8).value, view(at + 16).value)) else None
  }

  predicate Relative(arch: Arch, e: Rela) {
    e.info % WORD == RelativeType(arch)
  }

  /** The word a relative entry asks for; a negative addend is its two's complement. */
  function Target(base: nat, e: Rela): (v: nat)
    ensures v < WORD64
  {
    (base + e.addend) % WORD64
  }

  /** Memory after the first n entries, each read from memory as it then is. */
  function RelocateUpTo(mem: Buffer, arch: Arch, base: nat, addr: nat, n: nat): (r: Buffer)
    ensures |r| == |mem|
  {
    if n == 0 then mem
    else
      var m := RelocateUpTo(mem, arch, base, addr, n - 1);
      var e := RelaAt(MemoryView(m, base), addr, n - 1);
      if e.Some? && Relative(arch, e.value) && base + e.value.offset + 8 <= |m|
      then Put64(m, base + e.value.offset, Target(base, e.value)) else m
  }

  function EntryCount(t: Table): nat {
    if t.addr == 0 || t.size == 0 || t.ent == 0 then 0 else t.size / t.ent
  }

  /** Memory once a dynamic table of fewer than n entries is processed. */
  function Relocated(mem: Buffer, arch: Arch, base: nat, dynamic: nat, n: nat): (r: Buffer)
    ensures |r| == |mem|
  {
    var t := Scan(MemoryView(mem, base), dynamic, n, NO_TABLE);
    if t.None? then mem else RelocateUpTo(mem, arch, base, t.value.addr, EntryCount(t.value))
  }

  // ---- what relocation does ----

  predicate WordsApart(a: nat, b: nat) {
    a + 8 <= b || b + 8 <= a
  }

  /** Relative entries aim at different words, none of them in the relocation table. */
  predicate Clear(arch: Arch, es: seq<Rela>, addr: nat) {
    && (forall i, j :: 0 <= i < j < |es| && Relative(arch, es[i]) && Relative(arch, es[j]) ==>
          WordsApart(es[i].offset, es[j].offset))
    && (forall i :: 0 <= i < |es| && Relative(arch, es[i]) ==>
          es[i].offset + 8 <= addr || addr + RELA_SIZE * |es| <= es[i].offset)
  }

  /** Offset k is in the word some relative entry among the first n aims at. */
  predicate Aimed(arch: Arch, es: seq<Rela>, n: nat, k: int)
    requires n <= |es|
  {
    exists i :: 0 <= i < n && Relative(arch, es[i]) && es[i].offset <= k < es[i].offset + 8
  }

  predicate Reads(view: View, addr: nat, es: seq<Rela>) {
    forall i :: 0 <= i < |es| ==> RelaAt(view, addr, i) == Some(es[i])
  }

  lemma SameWordAt(a: Buffer, b: Buffer, base: nat, k: nat)
    requires |a| == |b| && forall i :: base + k <= i < base + k + 8 && i < |a| ==> a[i] == b[i]
    ensures WordAt(a, base, k) == WordAt(b, base, k)
  {
    if base + k + 8 <= |a| {
      assert a[base + k..base + k + 8] == b[base + k..base + k + 8];
      SameBytes64(a, base + k, b, base + k);
    }
  }

  /** An entry is read as it was as long as its 24 bytes are. */
  lemma SameRelaAt(a: Buffer, b: Buffer, base: nat, addr: nat, i: nat)
    requires |a| == |b|
    requires forall k :: base + addr + RELA_SIZE * i <= k < base + addr + RELA_SIZE * (i + 1) && k < |a| ==>
             a[k] == b[k]
    ensures RelaAt(MemoryView(a, base), addr, i) == RelaAt(MemoryView(b, base), addr, i)
  {
    var at := addr + RELA_SIZE * i;
    SameWordAt(a, b, base, at);
    SameWordAt(a, b, base, at + 8);
    SameWordAt(a, b, base, at + 16);
  }

  /** Bytes no entry aims at stay. */
  ghost predicate OnlyAimed(arch: Arch, base: nat, es: seq<Rela>, n: nat, mem: Buffer, after: Buffer) {
    n <= |es| && |after| == |mem| &&
    forall a :: 0 <= a < |mem| && !Aimed(arch, es, n, a - base) ==> after[a] == mem[a]
  }

  /** The words aimed at hold the base plus their addends. */
  ghost predicate Hit(arch: Arch, base: nat, es: seq<Rela>, n: nat, after: Buffer) {
    n <= |es| &&
    forall i :: 0 <= i < n && Relative(arch, es[i]) && base + es[i].offset + 8 <= |after| ==>
      Get64(after, base + es[i].offset) == Target(base, es[i])
  }

  lemma TableUntouched(arch: Arch, base: nat, addr: nat, es: seq<Rela>, n: nat, mem: Buffer, after: Buffer, i: nat)
    requires Clear(arch, es, addr) && OnlyAimed(arch, base, es, n, mem, after) && i < |es|
    ensures RelaAt(MemoryView(after, base), addr, i) == RelaAt(MemoryView(mem, base), addr, i)
  {
    forall k | base + addr + RELA_SIZE * i <= k < base + addr + RELA_SIZE * (i + 1) && k < |mem|
      ensures after[k] == mem[k]
    {
      assert RELA_SIZE * (i + 1) <= RELA_SIZE * |es|;
    }
    SameRelaAt(after, mem, base, addr, i);
  }

  lemma RelocateOneMore(mem: Buffer, arch: Arch, base: nat, addr: nat, n: nat)
    ensures n == 0 ==> RelocateUpTo(mem, arch, base, addr, n) == mem
    ensures n > 0 ==>
              var m := RelocateUpTo(mem, arch, base, addr, n - 1);
              var e := RelaAt(MemoryView(m, base), addr, n - 1);
              RelocateUpTo(mem, arch, base, addr, n)
              == if e.Some? && Relative(arch, e.value) && base + e.value.offset + 8 <= |m|
                 then Put64(m, base + e.value.offset, Target(base, e.value)) else m
  {
    hide RelaAt, MemoryView, Put64, Get64, Target, Relative;
  }

  lemma NothingAimed(mem: Buffer, arch: Arch, base: nat, es: seq<Rela>)
    ensures OnlyAimed(arch, base, es, 0, mem, mem) && Hit(arch, base, es, 0, mem)
  {
  }

  lemma RelocationStep(mem: Buffer, arch: Arch, base: nat, addr: nat, es: seq<Rela>, n: nat, m: Buffer, after: Buffer)
    requires 0 < n <= |es| && Clear(arch, es, addr)
    requires OnlyAimed(arch, base, es, n - 1, mem, m) && Hit(arch, base, es, n - 1, m)
    requires after == if Relative(arch, es[n - 1]) && base + es[n - 1].offset + 8 <= |m|
                      then Put64(m, base + es[n - 1].offset, Target(base, es[n - 1])) else m
    ensures OnlyAimed(arch, base, es, n, mem, after) && Hit(arch, base, es, n, after)
  {
    hide Put64, Get64, Target;
    var e := es[n - 1];
    if Relative(arch, e) && base + e.offset + 8 <= |m| {
      Get64Put64(m, base + e.offset, Target(base, e));
      forall a | 0 <= a < |mem| && !Aimed(arch, es, n, a - base) ensures after[a] == mem[a] {
        assert !Aimed(arch, es, n - 1, a - base);
        assert !(e.offset <= a - base < e.offset + 8);
      }
      forall i | 0 <= i < n && Relative(arch, es[i]) && base + es[i].offset + 8 <= |after|
        ensures Get64(after, base + es[i].offset) == Target(base, es[i])
      {
        if i < n - 1 {
          assert WordsApart(es[i].offset, e.offset);
          var x := base + es[i].offset;
          assert after[x..x + 8] == m[x..x + 8];
          SameBytes64(after, x, m, x);
        }
      }
    } else {
      forall a | 0 <= a < |mem| && !Aimed(arch, es, n, a - base) ensures after[a] == mem[a] {
        assert !Aimed(arch, es, n - 1, a - base);
      }
    }
  }

  lemma {:induction false} RelocationEffect(mem: Buffer, arch: Arch, base: nat, addr: nat, es: seq<Rela>, n: nat)
    requires Clear(arch, es, addr) && Reads(MemoryView(mem, base), addr, es) && n <= |es|
    ensures OnlyAimed(arch, base, es, n, mem, RelocateUpTo(mem, arch, base, addr, n))
    ensures Hit(arch, base, es, n, RelocateUpTo(mem, arch, base, addr, n))
  {
    hide Put64, Get64, Target, Clear, OnlyAimed, Hit, RelaAt, MemoryView, RelocateUpTo;
    RelocateOneMore(mem, arch, base, addr, n);
    if n == 0 {
      NothingAimed(mem, arch, base, es);
    } else {
      RelocationEffect(mem, arch, base, addr, es, n - 1);
      var m, after := RelocateUpTo(mem, arch, base, addr, n - 1), RelocateUpTo(mem, arch, base, addr, n);
      TableUntouched(arch, base, addr, es, n - 1, mem, m, n - 1);
      RelocationStep(mem, arch, base, addr, es, n, m, after);
    }
  }

  // ---- a position-independent file, loaded ----

  /** A PIE file the loader accepts, with the relocation entries es: its dynamic and relocation tables
      and all the words aimed at are part of its image, and entries have the standard size. */
  ghost predicate WellFormed(arch: Arch, data: Buffer, es: seq<Rela>, dynEntries: nat) {
    && Validate(arch, data) == 0 && Pie(data)
    && var n := HeaderCount(data);
       && AllGood(data, n)
       && (forall i :: 0 <= i < |es| && Relative(arch, es[i]) ==> WordCovered(data, n, es[i].offset))
       && match DynamicUpTo(data, n)
          case None => es == []
          case Some(d) =>
            var t := Scan(ImageView(data, n), d, dynEntries, NO_TABLE);
            && t.Some? && |es| == EntryCount(t.value)
            && (t.value.addr != 0 && t.value.size != 0 ==> t.value.ent == RELA_SIZE)
            && Reads(ImageView(data, n), t.value.addr, es) && Clear(arch, es, t.value.addr)
  }

  /** Memory after the whole load. */
  function Loaded(mem: Buffer, arch: Arch, data: Buffer, base: nat, dynEntries: nat): (r: Buffer)
    requires |data| >= EHDR_SIZE && AllGood(data, HeaderCount(data)) && Fits(data, base, |mem|, HeaderCount(data))
    ensures |r| == |mem|
  {
    var n := HeaderCount(data);
    var m := LoadUpTo(mem, data, base, n);
    var d := DynamicUpTo(data, n);
    if Pie(data) && d.Some? then Relocated(m, arch, base, d.value, dynEntries) else m
  }

  /** v knows whatever u knows. */
  ghost predicate Extends(v: View, u: View) {
    forall k: nat :: u(k).Some? ==> v(k) == u(k)
  }

  lemma {:induction false} ScanExtends(u: View, v: View, a: nat, n: nat, t: Table)
    requires Extends(v, u) && Scan(u, a, n, t).Some?
    ensures Scan(v, a, n, t) == Scan(u, a, n, t)
    decreases n
  {
    assert u(a).Some? && v(a) == u(a);
    if u(a).value != 0 {
      assert u(a + 8).Some? && v(a + 8) == u(a + 8);
      ScanExtends(u, v, a + 16, n - 1, Noted(t, u(a).value, u(a + 8).value));
    }
  }

  lemma ReadsExtends(u: View, v: View, addr: nat, es: seq<Rela>)
    requires Extends(v, u) && Reads(u, addr, es)
    ensures Reads(v, addr, es)
  {
    forall i | 0 <= i < |es| ensures RelaAt(v, addr, i) == Some(es[i]) {
      assert RelaAt(u, addr, i) == Some(es[i]);
    }
  }

  /** Covered bytes lie in memory when the segments do. */
  lemma {:induction false} CoveredFits(data: Buffer, base: nat, size: nat, n: nat, k: nat)
    requires |data| >= EHDR_SIZE && Pie(data) && AllGood(data, n) && Fits(data, base, size, n)
             && ImageByte(data, n, k).Some?
    ensures base + k < size
  {
    if !Covers(Seg(data, n - 1), k) {
      CoveredFits(data, base, size, n - 1, k);
    }
  }

  /** Loaded memory shows every word of the image. */
  lemma MemoryShowsImage(mem: Buffer, data: Buffer, base: nat, n: nat)
    requires |data| >= EHDR_SIZE && Pie(data) && AllGood(data, n) && Fits(data, base, |mem|, n)
    ensures Extends(MemoryView(LoadUpTo(mem, data, base, n), base), ImageView(data, n))
  {
    hide ImageByte, LoadUpTo, AllGood, Fits, Get64;
    var m := LoadUpTo(mem, data, base, n);
    forall k: nat | ImageWord(data, n, k).Some? ensures WordAt(m, base, k) == ImageWord(data, n, k) {
      var b := ImageBytes(data, n, k);
      forall i | 0 <= i < 8 ensures base + k + i < |mem| && m[base + k + i] == b[i] {
        assert ImageByte(data, n, k + i).Some?;
        CoveredFits(data, base, |mem|, n, k + i);
        LoadedIsImage(mem, data, base, n, base + k + i);
        assert Some(b[i]) == ImageByte(data, n, k + i);
      }
      assert ImageByte(data, n, k + 7).Some?;
      CoveredFits(data, base, |mem|, n, k + 7);
      assert m[base + k..base + k + 8] == b[0..8];
      SameBytes64(m, base + k, b, 0);
    }
  }

  /** The image's byte at an address, or what memory held. */
  function FromImage(mem: Buffer, data: Buffer, base: nat, a: nat): byte
    requires |data| >= EHDR_SIZE && AllGood(data, HeaderCount(data)) && a < |mem|
  {
    if a >= base && ImageByte(data, HeaderCount(data), a - base).Some? then
      ImageByte(data, HeaderCount(data), a - base).value
    else mem[a]
  }

  /** A well-formed PIE file loaded at any base is its image there, except that each word a relative
      entry aims at is the base plus the addend; nothing else in memory changes. */
  lemma PieLoaded(mem: Buffer, arch: Arch, data: Buffer, base: nat, es: seq<Rela>, dynEntries: nat)
    requires WellFormed(arch, data, es, dynEntries) && Fits(data, base, |mem|, HeaderCount(data))
    ensures var after := Loaded(mem, arch, data, base, dynEntries);
            && (forall i :: 0 <= i < |es| && Relative(arch, es[i]) ==>
                  base + es[i].offset + 8 <= |mem| && Get64(after, base + es[i].offset) == Target(base, es[i]))
            && (forall a :: 0 <= a < |mem| && !Aimed(arch, es, |es|, a - base) ==>
                  after[a] == FromImage(mem, data, base, a))
  {
    hide ImageByte, LoadUpTo, AllGood, Fits, Get64, RelocateUpTo, Target, Clear, Scan, DynamicUpTo, Reads;
    var n := HeaderCount(data);
    var m, after, d := LoadUpTo(mem, data, base, n), Loaded(mem, arch, data, base, dynEntries), DynamicUpTo(data, n);
    if d.Some? {
      MemoryShowsImage(mem, data, base, n);
      ScanExtends(ImageView(data, n), MemoryView(m, base), d.value, dynEntries, NO_TABLE);
      var t := Scan(ImageView(data, n), d.value, dynEntries, NO_TABLE).value;
      ReadsExtends(ImageView(data, n), MemoryView(m, base), t.addr, es);
      RelocationEffect(m, arch, base, t.addr, es, |es|);
    }
    forall i | 0 <= i < |es| && Relative(arch, es[i])
      ensures base + es[i].offset + 8 <= |mem| && Get64(after, base + es[i].offset) == Target(base, es[i])
    {
      assert WordCovered(data, n, es[i].offset);
      assert ImageByte(data, n, es[i].offset + 7).Some?;
      CoveredFits(data, base, |mem|, n, es[i].offset + 7);
    }
    forall a | 0 <= a < |mem| && !Aimed(arch, es, |es|, a - base) ensures after[a] == FromImage(mem, data, base, a) {
      LoadedIsImage(mem, data, base, n, a);
    }
  }

  lemma TargetsMove(b1: nat, b2: nat, e: Rela)
    requires b1 <= b2
    ensures Target(b2, e) == (Target(b1, e) + (b2 - b1)) % WORD64
  {
    var s := b1 + e.addend;
    assert s == WORD64 * (s / WORD64) + Target(b1, e);
  }

  /** Loads of one file at two bases, into any two memories, agree on the image byte for byte except in
      the words aimed at, which differ by the difference of the bases modulo 2^64. */
  lemma BaseIndependent(mem1: Buffer, mem2: Buffer, arch: Arch, data: Buffer, b1: nat, b2: nat, es: seq<Rela>,
                        dynEntries: nat)
    requires WellFormed(arch, data, es, dynEntries) && b1 <= b2
    requires Fits(data, b1, |mem1|, HeaderCount(data)) && Fits(data, b2, |mem2|, HeaderCount(data))
    ensures var x, y := Loaded(mem1, arch, data, b1, dynEntries), Loaded(mem2, arch, data, b2, dynEntries);
            && (forall k: nat :: ImageByte(data, HeaderCount(data), k).Some? ==>
                  b1 + k < |x| && b2 + k < |y| && (Aimed(arch, es, |es|, k) || x[b1 + k] == y[b2 + k]))
            && (forall i :: 0 <= i < |es| && Relative(arch, es[i]) ==>
                  b1 + es[i].offset + 8 <= |x| && b2 + es[i].offset + 8 <= |y|
                  && Get64(y, b2 + es[i].offset) == (Get64(x, b1 + es[i].offset) + (b2 - b1)) % WORD64)
  {
    hide ImageByte, LoadUpTo, AllGood, Fits, Get64, Loaded, Target, Clear, Scan, DynamicUpTo, Reads;
    PieLoaded(mem1, arch, data, b1, es, dynEntries);
    PieLoaded(mem2, arch, data, b2, es, dynEntries);
    var n := HeaderCount(data);
    var x, y := Loaded(mem1, arch, data, b1, dynEntries), Loaded(mem2, arch, data, b2, dynEntries);
    forall k: nat | ImageByte(data, n, k).Some?
      ensures b1 + k < |x| && b2 + k < |y| && (Aimed(arch, es, |es|, k) || x[b1 + k] == y[b2 + k])
    {
      CoveredFits(data, b1, |mem1|, n, k);
      CoveredFits(data, b2, |mem2|, n, k);
      if !Aimed(arch, es, |es|, k) {
        assert x[b1 + k] == FromImage(mem1, data, b1, b1 + k);
        assert y[b2 + k] == FromImage(mem2, data, b2, b2 + k);
      }
    }
    forall i | 0 <= i < |es| && Relative(arch, es[i])
      ensures b1 + es[i].offset + 8 <= |x| && b2 + es[i].offset + 8 <= |y|
              && Get64(y, b2 + es[i].offset) == (Get64(x, b1 + es[i].offset) + (b2 - b1)) % WORD64
    {
      TargetsMove(b1, b2, es[i]);
    }
  }

  /** Offset k is the program's own: inside the load size. */
  lemma AimedInImage(arch: Arch, data: Buffer, es: seq<Rela>, dynEntries: nat, k: nat)
    requires WellFormed(arch, data, es, dynEntries) && Proper(data, HeaderCount(data)) && Aimed(arch, es, |es|, k)
    ensures k < SizeUpTo(data, HeaderCount(data))
  {
    hide AllGood, ImageByte, SizeUpTo, Scan, Clear, Reads, DynamicUpTo;
    var i :| 0 <= i < |es| && Relative(arch, es[i]) && es[i].offset <= k < es[i].offset + 8;
    assert WordCovered(data, HeaderCount(data), es[i].offset);
    ImageInSize(data, HeaderCount(data), k);
  }

  /** Loading writes only inside the load size from the base on. */
  lemma LoadStaysInside(mem: Buffer, arch: Arch, data: Buffer, base: nat, es: seq<Rela>, dynEntries: nat, a: nat)
    requires WellFormed(arch, data, es, dynEntries) && Proper(data, HeaderCount(data))
    requires Fits(data, base, |mem|, HeaderCount(data)) && a < |mem|
    requires !(base <= a < base + SizeUpTo(data, HeaderCount(data)))
    ensures Loaded(mem, arch, data, base, dynEntries)[a] == mem[a]
  {
    hide AllGood, ImageByte, SizeUpTo, Scan, Clear, Reads, DynamicUpTo, Loaded, Fits, Get64, Target;
    PieLoaded(mem, arch, data, base, es, dynEntries);
    if Aimed(arch, es, |es|, a - base) {
      AimedInImage(arch, data, es, dynEntries, a - base);
      assert false;
    }
    if a >= base && ImageByte(data, HeaderCount(data), a - base).Some? {
      ImageInSize(data, HeaderCount(data), a - base);
      assert false;
    }
  }
}
