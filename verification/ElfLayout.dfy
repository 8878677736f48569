/** ELF64 files written field by field, in the order and with the widths in which the headers declare them, and what
    the two loaders read back from them. */
module ElfLayout {
  import opened Bits
  import opened Memory
  import opened Elf
  import opened Elf64Exec
  import KernelLoad

  type u16 = x: int | 0 <= x < 0x1_0000
  type u32 = x: int | 0 <= x < 0x1_0000_0000

  datatype FileHeader = FileHeader(
    ident: seq<byte>, kind: u16, machine: u16, version: u32, entry: u64, phoff: u64, shoff: u64, flags: u32,
    ehsize: u16, phentsize: u16, phnum: u16, shentsize: u16, shnum: u16, shstrndx: u16)

  datatype ProgramHeader = ProgramHeader(
    kind: u32, flags: u32, offset: u64, vaddr: u64, paddr: u64, filesz: u64, memsz: u64, align: u64)

  /** A number in n bytes, the least significant first. */
  function Le(v: nat, n: nat): (bytes: seq<byte>)
    ensures |bytes| == n
  {
    if n == 0 then [] else [v % 0x100] + Le(v / 0x100, n - 1)
  }

  function HeaderFields(h: FileHeader): seq<seq<byte>> {
    [h.ident, Le(h.kind, 2), Le(h.machine, 2), Le(h.version, 4), Le(h.entry, 8), Le(h.phoff, 8), Le(h.shoff, 8),
     Le(h.flags, 4), Le(h.ehsize, 2), Le(h.phentsize, 2), Le(h.phnum, 2), Le(h.shentsize, 2), Le(h.shnum, 2),
     Le(h.shstrndx, 2)]
  }

  function ProgramFields(p: ProgramHeader): seq<seq<byte>> {
    [Le(p.kind, 4), Le(p.flags, 4), Le(p.offset, 8), Le(p.vaddr, 8), Le(p.paddr, 8), Le(p.filesz, 8), Le(p.memsz, 8),
     Le(p.align, 8)]
  }

  function Concat(fields: seq<seq<byte>>): seq<byte> {
    if fields == [] then [] else fields[0] + Concat(fields[1..])
  }

  function HeaderBytes(h: FileHeader): seq<byte> { Concat(HeaderFields(h)) }
  function ProgramBytes(p: ProgramHeader): seq<byte> { Concat(ProgramFields(p)) }

  /** Where field i starts. */
  function Start(fields: seq<seq<byte>>, i: nat): nat
    requires i <= |fields|
  {
    if i == 0 then 0 else Start(fields, i - 1) + |fields[i - 1]|
  }

  lemma {:induction false} StartCons(fields: seq<seq<byte>>, i: nat)
    requires 0 < i <= |fields|
    ensures Start(fields, i) == |fields[0]| + Start(fields[1..], i - 1)
  {
    if i > 1 { StartCons(fields, i - 1); }
  }

  /** Field i is where it starts. */
  lemma {:induction false} FieldAt(fields: seq<seq<byte>>, i: nat)
    requires i < |fields|
    ensures var a := Start(fields, i);
            a + |fields[i]| <= |Concat(fields)| && Concat(fields)[a..a + |fields[i]|] == fields[i]
    ensures Start(fields, |fields|) == |Concat(fields)|
  {
    StartCons(fields, |fields|);
    if i > 0 {
      StartCons(fields, i);
      FieldAt(fields[1..], i - 1);
    } else if |fields| > 1 {
      FieldAt(fields[1..], 0);
    }
  }

  /** A number written is the number read. */
  lemma {:induction false} LeRead(file: seq<byte>, a: nat, v: nat, n: nat)
    requires a + n <= |file| && file[a..a + n] == Le(v, n) && v < Pow2(8 * n)
    ensures LittleEndian(file, a, a + n) == v
    decreases n
  {
    if n > 0 {
      assert file[a] == file[a..a + n][0];
      assert file[a + 1..a + 1 + (n - 1)] == file[a..a + n][1..];
      Pow2Values();
      Pow2Add(3, 5);
      Pow2Add(8, 8 * (n - 1));
      LeRead(file, a + 1, v / 0x100, n - 1);
    }
  }

  lemma Widths()
    ensures Pow2(16) == 0x1_0000 && Pow2(32) == 0x1_0000_0000 && Pow2(64) == TWO64
  {
    Pow2Values();
    Pow2Add(9, 7);
    Pow2Add(30, 2);
  }

  /** Field i of a header inside a file. */
  lemma FieldRead(file: seq<byte>, base: nat, fields: seq<seq<byte>>, i: nat, v: nat, n: nat)
    requires base + |Concat(fields)| <= |file| && file[base..base + |Concat(fields)|] == Concat(fields)
    requires i < |fields| && fields[i] == Le(v, n) && v < Pow2(8 * n)
    ensures var a := base + Start(fields, i);
            a + n <= |file| && LittleEndian(file, a, a + n) == v
  {
    hide Concat, Le, Start, Pow2;
    FieldAt(fields, i);
    var a := Start(fields, i);
    Slice(file, base, Concat(fields), a, n);
    LeRead(file, base + a, v, n);
  }

  lemma Slice(file: seq<byte>, base: nat, part: seq<byte>, a: nat, n: nat)
    requires base + |part| <= |file| && file[base..base + |part|] == part && a + n <= |part|
    ensures file[base + a..base + a + n] == part[a..a + n]
  {
    var whole, cut := file[base..base + |part|], file[base + a..base + a + n];
    forall i | 0 <= i < n ensures cut[i] == part[a..a + n][i] { assert whole[a + i] == file[base + a + i]; }
  }

  lemma HeaderStarts(h: FileHeader)
    requires |h.ident| == 16
    ensures var f := HeaderFields(h);
            && Start(f, 0) == 0 && Start(f, 1) == 16 && Start(f, 2) == 18 && Start(f, 4) == 24 && Start(f, 5) == 32
            && Start(f, 8) == 52 && Start(f, 9) == 54 && Start(f, 10) == 56 && |HeaderBytes(h)| == EHDR_SIZE
  {
    var f := HeaderFields(h);
    hide Concat, Le;
    assert Start(f, 1) == 16;
    assert Start(f, 2) == 18;
    assert Start(f, 3) == 20;
    assert Start(f, 4) == 24;
    assert Start(f, 5) == 32;
    assert Start(f, 6) == 40;
    assert Start(f, 7) == 48;
    assert Start(f, 8) == 52;
    assert Start(f, 9) == 54;
    assert Start(f, 10) == 56;
    assert Start(f, 11) == 58;
    assert Start(f, 12) == 60;
    assert Start(f, 13) == 62;
    assert Start(f, 14) == 64;
    FieldAt(f, 0);
  }

  lemma ProgramStarts(p: ProgramHeader)
    ensures var f := ProgramFields(p);
            && Start(f, 0) == 0 && Start(f, 2) == 8 && Start(f, 3) == 16 && Start(f, 4) == 24 && Start(f, 5) == 32
            && Start(f, 6) == 40 && |ProgramBytes(p)| == PHDR_SIZE
  {
    var f := ProgramFields(p);
    hide Concat, Le;
    assert Start(f, 1) == 4;
    assert Start(f, 2) == 8;
    assert Start(f, 3) == 16;
    assert Start(f, 4) == 24;
    assert Start(f, 5) == 32;
    assert Start(f, 6) == 40;
    assert Start(f, 7) == 48;
    assert Start(f, 8) == 56;
    FieldAt(f, 0);
  }

  /** The bytes of a part are in the file from a on. */
  predicate Holds(file: seq<byte>, a: nat, part: seq<byte>) {
    a + |part| <= |file| && file[a..a + |part|] == part
  }

  /** The loaders read from a written file header the fields that were written. */
  lemma HeaderReadBack(file: seq<byte>, h: FileHeader)
    requires |h.ident| == 16 && Holds(file, 0, HeaderBytes(h))
    ensures |HeaderBytes(h)| == EHDR_SIZE <= |file| && file[..16] == h.ident
    ensures Entry(file) == h.entry && Phoff(file) == h.phoff && Phnum(file) == h.phnum
    ensures U16(file, 16) == h.kind && U16(file, 18) == h.machine
    ensures U16(file, 52) == h.ehsize && U16(file, 54) == h.phentsize
  {
    HeaderStarts(h);
    FieldAt(HeaderFields(h), 0);
    Slice(file, 0, HeaderBytes(h), 0, 16);
    LowNumbers(file, h);
    HighNumbers(file, h);
    hide HeaderBytes, Pow2, LittleEndian;
  }

  lemma LowNumbers(file: seq<byte>, h: FileHeader)
    requires |h.ident| == 16 && Holds(file, 0, HeaderBytes(h)) && |file| >= EHDR_SIZE
    ensures Entry(file) == h.entry && Phoff(file) == h.phoff
    ensures U16(file, 16) == h.kind && U16(file, 18) == h.machine
  {
    hide Concat, Le, Start, Pow2;
    var f := HeaderFields(h);
    HeaderStarts(h);
    Widths();
    FieldRead(file, 0, f, 1, h.kind, 2);
    FieldRead(file, 0, f, 2, h.machine, 2);
    FieldRead(file, 0, f, 4, h.entry, 8);
    FieldRead(file, 0, f, 5, h.phoff, 8);
  }

  lemma HighNumbers(file: seq<byte>, h: FileHeader)
    requires |h.ident| == 16 && Holds(file, 0, HeaderBytes(h)) && |file| >= EHDR_SIZE
    ensures U16(file, 52) == h.ehsize && U16(file, 54) == h.phentsize && Phnum(file) == h.phnum
  {
    hide Concat, Le, Start, Pow2;
    var f := HeaderFields(h);
    HeaderStarts(h);
    Widths();
    FieldRead(file, 0, f, 8, h.ehsize, 2);
    FieldRead(file, 0, f, 9, h.phentsize, 2);
    FieldRead(file, 0, f, 10, h.phnum, 2);
  }

  function SegmentOf(p: ProgramHeader): Segment {
    Segment(p.kind, p.offset, p.vaddr, p.paddr, p.filesz, p.memsz)
  }

  /** ... and from a written program header; it is loadable exactly when its type is 1. */
  lemma ProgramReadBack(file: seq<byte>, a: nat, p: ProgramHeader)
    requires Holds(file, a, ProgramBytes(p))
    ensures |ProgramBytes(p)| == PHDR_SIZE && a + PHDR_SIZE <= |file|
    ensures SegmentAt(file, a) == SegmentOf(p) && (SegmentAt(file, a).Load() <==> p.kind == 1)
  {
    var f := ProgramFields(p);
    ProgramStarts(p);
    Widths();
    hide Concat, Le, Start, Pow2;
    FieldRead(file, a, f, 0, p.kind, 4);
    FieldRead(file, a, f, 2, p.offset, 8);
    FieldRead(file, a, f, 3, p.vaddr, 8);
    FieldRead(file, a, f, 4, p.paddr, 8);
    FieldRead(file, a, f, 5, p.filesz, 8);
    FieldRead(file, a, f, 6, p.memsz, 8);
  }

  /** A file with this header, and these program headers where it says. */
  predicate Written(file: seq<byte>, h: FileHeader, ps: seq<ProgramHeader>) {
    && |h.ident| == 16 && Holds(file, 0, HeaderBytes(h)) && h.phnum == |ps|
    && forall j :: 0 <= j < |ps| ==> Holds(file, h.phoff + 56 * j, ProgramBytes(ps[j]))
  }

  /** The segments of a written file are the program headers, in their order. */
  lemma SegmentsReadBack(file: seq<byte>, h: FileHeader, ps: seq<ProgramHeader>)
    requires Written(file, h, ps) && h.phoff + 56 * |ps| <= |file|
    ensures EHDR_SIZE <= |file| && HasHeaders(file)
    ensures |Segments(file)| == |ps| && forall j :: 0 <= j < |ps| ==> Segments(file)[j] == SegmentOf(ps[j])
  {
    HeaderReadBack(file, h);
    hide HeaderBytes, ProgramBytes;
    forall j | 0 <= j < |ps| ensures Segments(file)[j] == SegmentOf(ps[j]) {
      FirstSegmentsAt(file, Phnum(file), j);
      ProgramReadBack(file, h.phoff + 56 * j, ps[j]);
    }
  }

  /** The magic of `kernel.c`. */
  lemma MagicAccepted(file: seq<byte>, h: FileHeader)
    requires |h.ident| == 16 && Holds(file, 0, HeaderBytes(h))
    ensures |file| >= EHDR_SIZE && (KernelLoad.Magic(file) <==> h.ident[..4] == [0x7f, 0x45, 0x4c, 0x46])
  {
    HeaderReadBack(file, h);
    hide HeaderBytes;
    IdentAt(file, h.ident);
    assert h.ident[..4] == [h.ident[0], h.ident[1], h.ident[2], h.ident[3]];
  }

  lemma IdentAt(file: seq<byte>, ident: seq<byte>)
    requires |ident| == 16 <= |file| && file[..16] == ident
    ensures forall i :: 0 <= i < 16 ==> file[i] == ident[i]
  {
    assert forall i :: 0 <= i < 16 ==> file[i] == file[..16][i];
  }

  /** `bootx64.c` accepts a written header exactly when it is that of an executable for 64-bit little-endian x86-64
      whose table of 56-byte program headers is in the file. */
  lemma HeaderAccepted(file: seq<byte>, h: FileHeader)
    requires |h.ident| == 16 && Holds(file, 0, HeaderBytes(h))
    ensures HeaderOk(file) <==>
              && h.ident[..7] == [0x7f, 0x45, 0x4c, 0x46, 2, 1, 1] && h.kind == 2 && h.machine == 62
              && h.ehsize == 64 && h.phentsize == 56 && h.phnum != 0 && h.phoff + 56 * h.phnum <= |file|
  {
    HeaderReadBack(file, h);
    hide HeaderBytes, LittleEndian;
    IdentAt(file, h.ident);
    var d := h.ident;
    assert d[..7] == [d[0], d[1], d[2], d[3], d[4], d[5], d[6]];
  }

  /** `kernel.c` takes a written file exactly when its loadable segments are in the high half. */
  lemma KernelAccepted(file: seq<byte>, h: FileHeader, ps: seq<ProgramHeader>)
    requires Written(file, h, ps) && h.phoff + 56 * |ps| <= |file|
    ensures EHDR_SIZE <= |file| && HasHeaders(file)
    ensures KernelLoad.HighHalf(file) <==>
              forall j :: 0 <= j < |ps| && ps[j].kind == 1 ==> ps[j].vaddr >= 0xffff_ffff_8000_0000
  {
    SegmentsReadBack(file, h, ps);
    HeaderReadBack(file, h);
    hide HeaderBytes, ProgramBytes, Written;
    var segs := Segments(file);
    assert forall j :: 0 <= j < |ps| ==> (segs[j].Load() <==> ps[j].kind == 1) && segs[j].vaddr == ps[j].vaddr;
  }

  /** The end of a segment as an offset from the high base. */
  function HighEnd(p: ProgramHeader): int { p.vaddr - 0xffff_ffff_8000_0000 + p.memsz }

  /** What `kernel.c` relies on in a written file, and the size it finds for the image. */
  lemma KernelSize(file: seq<byte>, h: FileHeader, ps: seq<ProgramHeader>, size: nat)
    requires Written(file, h, ps) && h.phoff + 56 * |ps| <= |file|
    ensures EHDR_SIZE <= |file| && HasHeaders(file) && |Segments(file)| == |ps|
    ensures KernelLoad.WellFormed(file) <==> forall j :: 0 <= j < |ps| && ps[j].kind == 1 ==>
              && ps[j].offset + ps[j].filesz <= |file| && ps[j].filesz <= ps[j].memsz
              && HighEnd(ps[j]) <= 0xffff_ffff_ffff_f000
    ensures KernelLoad.IsImageSize(Segments(file), |ps|, size) <==>
              && (forall j :: 0 <= j < |ps| && ps[j].kind == 1 ==> HighEnd(ps[j]) <= size)
              && (size == 0 || exists j :: 0 <= j < |ps| && ps[j].kind == 1 && HighEnd(ps[j]) == size)
  {
    SegmentsReadBack(file, h, ps);
    HeaderReadBack(file, h);
    hide HeaderBytes, ProgramBytes, Written, U16, Word, Pow2;
    var segs := Segments(file);
    forall j | 0 <= j < |ps|
      ensures segs[j].Load() <==> ps[j].kind == 1
      ensures KernelLoad.EndOffset(segs[j]) == HighEnd(ps[j])
      ensures InFile(file, segs[j]) <==> ps[j].offset + ps[j].filesz <= |file| && ps[j].filesz <= ps[j].memsz
    {}
  }

  /** What `bootx64.c` accepts of a program header of type 1: its bytes are in the file and fit the memory size, it is
      loaded at its own address, which is not 0, and its pages are below 4 GiB and not none. */
  predicate ProgramOk(p: ProgramHeader, length: nat) {
    && p.offset + p.filesz <= length && p.filesz <= p.memsz
    && p.paddr == p.vaddr && p.paddr != 0 && p.paddr + p.memsz < 0x1_0000_0000_0000_0000
    && p.paddr / 4096 < (p.paddr + p.memsz + 4095) / 4096 <= 0x10_0000
  }

  /** It loads a written file exactly when the header is accepted, every program header of type 1 is, and the entry
      point lies in one of them. */
  lemma FileAccepted(file: seq<byte>, h: FileHeader, ps: seq<ProgramHeader>)
    requires Written(file, h, ps) && HeaderOk(file)
    ensures Loadable(file) <==>
              && (forall j :: 0 <= j < |ps| && ps[j].kind == 1 ==> ProgramOk(ps[j], |file|))
              && (exists j :: 0 <= j < |ps| && ps[j].kind == 1 && ps[j].paddr <= h.entry < ps[j].paddr + ps[j].memsz)
  {
    HeaderAccepted(file, h);
    HeaderReadBack(file, h);
    SegmentsReadBack(file, h, ps);
    hide HeaderBytes, ProgramBytes, Written, HeaderOk, SegmentOk, ProgramOk, U16;
    var segs := Segments(file);
    forall j | 0 <= j < |ps|
      ensures segs[j].Load() <==> ps[j].kind == 1
      ensures SegmentOk(file, segs[j]) <==> ProgramOk(ps[j], |file|)
      ensures Contains(segs[j], h.entry) <==> ps[j].paddr <= h.entry < ps[j].paddr + ps[j].memsz
    {
      ProgramAccepted(file, ps[j]);
    }
  }

  lemma ProgramAccepted(file: seq<byte>, p: ProgramHeader)
    ensures SegmentOk(file, SegmentOf(p)) <==> ProgramOk(p, |file|)
  {
    PagesBound(p.paddr, p.paddr + p.memsz);
  }

  lemma PagesBound(start: nat, end: nat)
    ensures start - start % 4096 < (end + 4095) / 4096 * 4096 <==> start / 4096 < (end + 4095) / 4096
    ensures (end + 4095) / 4096 * 4096 <= 0x1_0000_0000 <==> (end + 4095) / 4096 <= 0x10_0000
  {}
}
