/** The parts of an ELF64 file the two loaders read: System V gABI, chapters 4 and 5. */
module Elf {
  import opened Bits
  import opened Memory

  const EHDR_SIZE: nat := 64
  const PHDR_SIZE: nat := 56
  const PT_LOAD: nat := 1

  function U16(s: seq<byte>, a: nat): nat
    requires a + 2 <= |s|
  {
    LittleEndian(s, a, a + 2)
  }

  function U32(s: seq<byte>, a: nat): nat
    requires a + 4 <= |s|
  {
    LittleEndian(s, a, a + 4)
  }

  /** A program header. */
  datatype Segment = Segment(kind: nat, offset: u64, vaddr: u64, paddr: u64, filesz: u64, memsz: u64) {
    predicate Load() { kind == PT_LOAD }
  }

  // Fields of the file header.
  function Entry(file: seq<byte>): u64 requires |file| >= EHDR_SIZE { Word(file, 24) }
  function Phoff(file: seq<byte>): u64 requires |file| >= EHDR_SIZE { Word(file, 32) }
  function Phnum(file: seq<byte>): nat requires |file| >= EHDR_SIZE { U16(file, 56) }

  /** The program header stored at position a. */
  function SegmentAt(file: seq<byte>, a: nat): Segment
    requires a + PHDR_SIZE <= |file|
  {
    Segment(U32(file, a), Word(file, a + 8), Word(file, a + 16), Word(file, a + 24),
            Word(file, a + 32), Word(file, a + 40))
  }

  predicate HasHeaders(file: seq<byte>) {
    |file| >= EHDR_SIZE && Phoff(file) + PHDR_SIZE * Phnum(file) <= |file|
  }

  /** The j-th program header. */
  function Seg(file: seq<byte>, j: nat): Segment
    requires HasHeaders(file) && j < Phnum(file)
  {
    SegmentAt(file, Phoff(file) + PHDR_SIZE * j)
  }

  /** The first n program headers, and all of them. */
  ghost function FirstSegments(file: seq<byte>, n: nat): (segs: seq<Segment>)
    requires HasHeaders(file) && n <= Phnum(file)
    ensures |segs| == n
  {
    if n == 0 then [] else FirstSegments(file, n - 1) + [Seg(file, n - 1)]
  }

  ghost function Segments(file: seq<byte>): (segs: seq<Segment>)
    requires HasHeaders(file)
    ensures |segs| == Phnum(file)
  {
    FirstSegments(file, Phnum(file))
  }

  lemma {:induction false} FirstSegmentsAt(file: seq<byte>, n: nat, j: nat)
    requires HasHeaders(file) && j < n <= Phnum(file)
    ensures FirstSegments(file, n)[j] == Seg(file, j)
  {
    if j < n - 1 { FirstSegmentsAt(file, n - 1, j); }
  }

  /** `ph = buf + e_phoff + i * e_phentsize` */
  method ReadSegment(file: seq<byte>, i: nat) returns (s: Segment)
    requires HasHeaders(file) && i < Phnum(file)
    ensures s == Segments(file)[i]
  {
    s := Seg(file, i);
    FirstSegmentsAt(file, Phnum(file), i);
  }

  /** The file's bytes lie in the file and fit in the segment. */
  predicate InFile(file: seq<byte>, s: Segment) {
    s.offset + s.filesz <= |file| && s.filesz <= s.memsz
  }

  /** Byte k of a segment's memory image: its file contents, then zeros. */
  function ImageByte(file: seq<byte>, s: Segment, k: nat): byte
    requires InFile(file, s) && k < s.memsz
  {
    if k < s.filesz then file[s.offset + k] else 0
  }

  /** One segment at its destination: its file contents, then zeros. */
  method CopySegment(ram: array<byte>, dest: nat, file: seq<byte>, s: Segment)
    requires InFile(file, s) && dest + s.memsz <= ram.Length
    modifies ram
    ensures SameOutside(old(ram[..]), ram[..], dest, dest + s.memsz)
    ensures forall a :: dest <= a < dest + s.memsz ==> ram[a] == ImageByte(file, s, a - dest)
  {
    MemCpy(ram, dest, file, s.offset, s.filesz);
    ghost var copied := ram[..];
    if s.memsz > s.filesz {
      MemSet(ram, dest + s.filesz, 0, s.memsz - s.filesz);
    }
    assert forall a :: dest <= a < dest + s.filesz ==> ram[..][a] == copied[a];
  }
}
