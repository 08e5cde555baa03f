/** What the loader reads from a file, byte by byte, and what that makes of memory. */
module ElfMeaning {
  import opened Wrappers
  import opened Bytes
  import opened Arith
  import opened Elf
  import opened ElfLoader

  // ---- words and headers ----

  lemma FourBytes()
    ensures Pow256(4) == WORD
  {
    assert Pow256(2) == 65536;
  }

  lemma WordIs(b: Buffer, off: nat)
    requires off + 8 <= |b|
    ensures Get64(b, off) == LittleEndian(b[off..off + 8])
  {
    hide Get32;
    Get32Is(b, off);
    Get32Is(b, off + 4);
    var w := b[off..off + 8];
    assert w[..4] == b[off..off + 4] && w[4..] == b[off + 4..off + 8];
    LittleEndianJoin(w[..4], w[4..]);
    assert w == w[..4] + w[4..];
    FourBytes();
  }

  /** A file is accepted exactly when it is long enough, has the magic bytes, is for 64 bits, little-endian, for the
      kernel's machine, and executable or shared. */
  lemma ValidIff(arch: Arch, data: Buffer)
    ensures Validate(arch, data) == 0 <==>
            && |data| >= 64 && data[..6] == [0x7F, 0x45, 0x4C, 0x46, 2, 1]
            && LittleEndian(data[18..20]) == (match arch case Arm64 => 183 case X64 => 62 case X86 => 3)
            && LittleEndian(data[16..18]) in {2, 3}
  {
    hide Get16;
    if |data| >= 64 {
      Get16Is(data, 16);
      Get16Is(data, 18);
    }
  }

  /** The header's fields: type 3 is PIE, and entry point, table offset, entry size and count are where the
      format has them. */
  lemma HeaderIs(data: Buffer, i: nat)
    requires |data| >= 64
    ensures Pie(data) <==> LittleEndian(data[16..18]) == 3
    ensures Entry(data) == LittleEndian(data[24..32]) && HeaderCount(data) == LittleEndian(data[56..58])
    ensures HeaderAt(data, i) == LittleEndian(data[32..40]) + i * LittleEndian(data[54..56])
  {
    hide Get16, Get64;
    Get16Is(data, 16);
    Get16Is(data, 54);
    Get16Is(data, 56);
    WordIs(data, 24);
    WordIs(data, 32);
  }

  /** A program header's fields. */
  lemma SegmentIs(data: Buffer, i: nat)
    requires |data| >= 64 && HeaderAt(data, i) + 56 <= |data|
    ensures var at, s := HeaderAt(data, i), Seg(data, i);
            && s.kind == LittleEndian(data[at..at + 4]) && s.offset == LittleEndian(data[at + 8..at + 16])
            && s.vaddr == LittleEndian(data[at + 16..at + 24]) && s.filesz == LittleEndian(data[at + 32..at + 40])
            && s.memsz == LittleEndian(data[at + 40..at + 48])
  {
    hide Get32, Get64, HeaderAt;
    var at := HeaderAt(data, i);
    Get32Is(data, at);
    WordIs(data, at + 8);
    WordIs(data, at + 16);
    WordIs(data, at + 32);
    WordIs(data, at + 40);
  }

  /** A header passes when it lies in the file and, if it is of a load segment, so do the segment's file bytes. */
  lemma GoodIff(data: Buffer, i: nat)
    requires |data| >= 64
    ensures Good(data, i) <==>
            && HeaderAt(data, i + 1) <= |data|
            && (Seg(data, i).kind == 1 ==> Seg(data, i).offset + Seg(data, i).filesz <= |data|)
  {
    hide HeaderAt, Seg;
  }

  // ---- the image ----

  predicate Over(s: Segment, k: nat) {
    s.kind == 1 && s.vaddr <= k && (k < s.vaddr + s.filesz || k < s.vaddr + s.memsz)
  }

  /** A byte of the image is that of the last load segment over it: the file's, or zero past the file bytes. */
  lemma {:induction false} ImageByteIs(data: Buffer, n: nat, i: nat, k: nat)
    requires |data| >= 64 && AllGood(data, n) && i < n && Over(Seg(data, i), k)
    requires forall j :: i < j < n ==> !Over(Seg(data, j), k)
    ensures var s := Seg(data, i);
            && (k < s.vaddr + s.filesz ==> s.offset + (k - s.vaddr) < |data|)
            && ImageByte(data, n, k) == Some(if k < s.vaddr + s.filesz then data[s.offset + (k - s.vaddr)] else 0)
  {
    hide Seg, HeaderAt;
    assert Good(data, i);
    if i < n - 1 {
      assert !Over(Seg(data, n - 1), k);
      ImageByteIs(data, n - 1, i, k);
    }
  }

  lemma {:induction false} NoImageByte(data: Buffer, n: nat, k: nat)
    requires |data| >= 64 && AllGood(data, n) && forall j :: 0 <= j < n ==> !Over(Seg(data, j), k)
    ensures ImageByte(data, n, k) == None
  {
    hide Seg, Good;
    if n > 0 {
      assert !Over(Seg(data, n - 1), k);
      NoImageByte(data, n - 1, k);
    }
  }

  /** The load size is the end of the highest load segment, 0 without any. */
  lemma {:induction false} SizeIs(data: Buffer, n: nat)
    requires |data| >= 64
    ensures forall i :: 0 <= i < n && Seg(data, i).kind == 1 ==>
              Seg(data, i).vaddr + Seg(data, i).memsz <= SizeUpTo(data, n)
    ensures SizeUpTo(data, n) > 0 ==>
              exists i :: 0 <= i < n && Seg(data, i).kind == 1
                          && Seg(data, i).vaddr + Seg(data, i).memsz == SizeUpTo(data, n)
  {
    hide Seg;
    if n > 0 {
      SizeIs(data, n - 1);
      var s := Seg(data, n - 1);
      if s.kind == 1 && s.vaddr + s.memsz >= SizeUpTo(data, n - 1) {
        assert Seg(data, n - 1).vaddr + Seg(data, n - 1).memsz == SizeUpTo(data, n);
      }
    }
  }

  // ---- the dynamic table and its relocations ----

  /** The dynamic table is where the last header of type 2 says. */
  lemma {:induction false} DynamicIs(data: Buffer, n: nat)
    requires |data| >= 64
    ensures match DynamicUpTo(data, n)
            case None => forall i :: 0 <= i < n ==> Seg(data, i).kind != 2
            case Some(a) => exists i :: 0 <= i < n && Seg(data, i).kind == 2 && Seg(data, i).vaddr == a
                                        && forall j :: i < j < n ==> Seg(data, j).kind != 2
  {
    hide Seg;
    if n > 0 {
      DynamicIs(data, n - 1);
      if Seg(data, n - 1).kind == 2 {
        assert Seg(data, n - 1).vaddr == DynamicUpTo(data, n).value;
      }
    }
  }

  /** The value of the last of m table entries with a tag. */
  function LastOf(view: View, a: nat, m: nat, tag: nat, none: nat): nat {
    if m == 0 then none
    else if view(a + 16 * (m - 1)) == Some(tag) && view(a + 16 * (m - 1) + 8).Some?
    then view(a + 16 * (m - 1) + 8).value
    else LastOf(view, a, m - 1, tag, none)
  }

  lemma {:induction false} LastOfLater(view: View, a: nat, m: nat, tag: nat, none: nat)
    requires view(a).Some? && view(a + 8).Some?
    ensures LastOf(view, a, m + 1, tag, none)
            == LastOf(view, a + 16, m, tag, if view(a).value == tag then view(a + 8).value else none)
  {
    if m > 0 {
      LastOfLater(view, a, m - 1, tag, none);
      assert a + 16 * m == a + 16 + 16 * (m - 1);
    }
  }

  lemma LastOfNone(view: View, a: nat)
    ensures forall tag: nat, none: nat :: LastOf(view, a, 0, tag, none) == none
  {
  }

  lemma ScanStep(view: View, a: nat, n: nat, t: Table)
    requires Scan(view, a, n, t).Some?
    ensures n > 0 && view(a).Some?
    ensures if view(a).value == 0 then Scan(view, a, n, t) == Some(t)
            else view(a + 8).Some?
                 && Scan(view, a, n, t) == Scan(view, a + 16, n - 1, Noted(t, view(a).value, view(a + 8).value))
  {
  }

  lemma EntriesFrom(view: View, a: nat, m: nat)
    requires view(a).Some? && view(a).value != 0
    requires forall k :: 0 <= k < m ==> view(a + 16 + 16 * k).Some? && view(a + 16 + 16 * k).value != 0
    ensures forall k :: 0 <= k < m + 1 ==> view(a + 16 * k).Some? && view(a + 16 * k).value != 0
  {
    forall k | 0 <= k < m + 1 ensures view(a + 16 * k).Some? && view(a + 16 * k).value != 0 {
      if k > 0 {
        var j := k - 1;
        assert a + 16 * k == a + 16 + 16 * j;
      }
    }
  }

  /** A table read up to its end, the first entry with tag 0: tag 7 gives the address of the relocations, 8 their size
      in bytes and 9 the size of one. */
  lemma {:induction false} TableIs(view: View, a: nat, n: nat, t: Table) returns (m: nat)
    requires Scan(view, a, n, t).Some?
    ensures m < n && view(a + 16 * m) == Some(0)
    ensures forall k :: 0 <= k < m ==> view(a + 16 * k).Some? && view(a + 16 * k).value != 0
    ensures Scan(view, a, n, t) == Some(Table(LastOf(view, a, m, 7, t.addr), LastOf(view, a, m, 8, t.size),
                                              LastOf(view, a, m, 9, t.ent)))
    decreases n
  {
    hide Scan, LastOf;
    ScanStep(view, a, n, t);
    LastOfNone(view, a);
    if view(a).value == 0 {
      m := 0;
    } else {
      var u := Noted(t, view(a).value, view(a + 8).value);
      var more := TableIs(view, a + 16, n - 1, u);
      m := more + 1;
      LastOfLater(view, a, more, 7, t.addr);
      LastOfLater(view, a, more, 8, t.size);
      LastOfLater(view, a, more, 9, t.ent);
      assert a + 16 * m == a + 16 + 16 * more;
      EntriesFrom(view, a, more);
    }
  }

  /** Relocation i, of 24 bytes, has its offset, type and addend in three words, and is relative by the low 32 bits
      of its type. */
  lemma RelocationIs(view: View, addr: nat, i: nat, arch: Arch)
    requires RelaAt(view, addr, i).Some?
    ensures var at, e := addr + 24 * i, RelaAt(view, addr, i).value;
            && view(at) == Some(e.offset) && view(at + 8) == Some(e.info) && view(at + 16) == Some(e.addend)
            && (Relative(arch, e) <==>
                e.info % 0x1_0000_0000 == match arch case Arm64 => 0x403 case X64 => 8 case X86 => 8)
  {
  }

  /** The word stored is the base plus the addend, modulo 2^64. */
  lemma TargetIs(base: nat, e: Rela)
    ensures Target(base, e) < 0x1_0000_0000_0000_0000
    ensures exists q: nat :: base + e.addend == Target(base, e) + q * 0x1_0000_0000_0000_0000
  {
    var s := base + e.addend;
    assert s == Target(base, e) + s / WORD64 * WORD64;
  }

  // ---- placement ----

  /** r is the least multiple of 64K that is no less than x. */
  predicate LeastAligned(x: nat, r: nat) {
    r % 0x10000 == 0 && x <= r < x + 0x10000
  }

  /** A program is tried at the least multiple of 64K from the next address plus the random offset on. If it loads,
      the next address is the least multiple of 64K from 64K past its end on; if not, it stays. */
  lemma PlacedAt(arch: Arch, p: Point, c: Creation, q: Point)
    requires Acceptable(arch, p, c) && Created(arch, p, c, q)
    ensures LeastAligned(p.next + c.aslr, BaseOf(p, c))
    ensures if Succeeds(arch, c) then
              LeastAligned(BaseOf(p, c) + SizeUpTo(c.data, HeaderCount(c.data)) + 0x10000, q.next)
            else q.next == p.next
  {
    hide LoadUpTo, SizeUpTo, WellFormed, Good, FirstBad, Align64K, Span, Relocated, Fits;
  }
}
