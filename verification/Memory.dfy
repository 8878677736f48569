/** Physical memory as a flat array of bytes, the little-endian 64-bit words inside it, and the
    firmware service that hands out pages of it. */
module Memory {
  import opened Bits

  const PAGE: nat := 4096

  /** The number stored in the bytes [lo, hi), least significant byte first. */
  function LittleEndian(m: seq<byte>, lo: nat, hi: nat): (w: nat)
    requires lo <= hi <= |m|
    ensures w < Pow2(8 * (hi - lo))
    decreases hi - lo
  {
    if lo == hi then 0
    else
      Pow2Values();
      Pow2Add(3, 5);
      Pow2Add(8, 8 * (hi - lo - 1));
      m[lo] as int + 0x100 * LittleEndian(m, lo + 1, hi)
  }

  /** The 64-bit word stored at address a. */
  function Word(m: seq<byte>, a: nat): u64
    requires a + 8 <= |m|
  {
    Pow2Values();
    LittleEndian(m, a, a + 8)
  }

  lemma WordBytes(m: seq<byte>, a: nat)
    requires a + 8 <= |m|
    ensures Word(m, a) ==
            m[a] as int + 0x100 * (m[a+1] as int) + 0x1_0000 * (m[a+2] as int)
            + 0x100_0000 * (m[a+3] as int) + 0x1_0000_0000 * (m[a+4] as int)
            + 0x100_0000_0000 * (m[a+5] as int) + 0x1_0000_0000_0000 * (m[a+6] as int)
            + 0x100_0000_0000_0000 * (m[a+7] as int)
  {
    assert LittleEndian(m, a + 6, a + 8) == m[a+6] as int + 0x100 * (m[a+7] as int);
    assert LittleEndian(m, a + 4, a + 8) ==
           m[a+4] as int + 0x100 * (m[a+5] as int) + 0x1_0000 * LittleEndian(m, a + 6, a + 8);
    assert LittleEndian(m, a + 2, a + 8) ==
           m[a+2] as int + 0x100 * (m[a+3] as int) + 0x1_0000 * LittleEndian(m, a + 4, a + 8);
    assert LittleEndian(m, a, a + 8) ==
           m[a] as int + 0x100 * (m[a+1] as int) + 0x1_0000 * LittleEndian(m, a + 2, a + 8);
  }

  /** Everything outside [lo, hi) is the same in both memories. */
  ghost predicate SameOutside(m: seq<byte>, n: seq<byte>, lo: nat, hi: nat) {
    |m| == |n| && forall a :: 0 <= a < |m| && !(lo <= a < hi) ==> n[a] == m[a]
  }

  lemma OutsideTrans(l: seq<byte>, m: seq<byte>, n: seq<byte>, lo: nat, hi: nat)
    requires SameOutside(l, m, lo, hi) && SameOutside(m, n, lo, hi)
    ensures SameOutside(l, n, lo, hi)
  {}

  lemma DigitsOf(w: u64)
    ensures w == w % 0x100 + 0x100 * (w / 0x100 % 0x100) + 0x1_0000 * (w / 0x1_0000 % 0x100)
                 + 0x100_0000 * (w / 0x100_0000 % 0x100) + 0x1_0000_0000 * (w / 0x1_0000_0000 % 0x100)
                 + 0x100_0000_0000 * (w / 0x100_0000_0000 % 0x100)
                 + 0x1_0000_0000_0000 * (w / 0x1_0000_0000_0000 % 0x100)
                 + 0x100_0000_0000_0000 * (w / 0x100_0000_0000_0000 % 0x100)
  {
    var w1 := w / 0x100;
    var w2 := w1 / 0x100;
    var w3 := w2 / 0x100;
    var w4 := w3 / 0x100;
    var w5 := w4 / 0x100;
    var w6 := w5 / 0x100;
    var w7 := w6 / 0x100;
    assert w2 == w / 0x1_0000 && w3 == w / 0x100_0000 && w4 == w / 0x1_0000_0000;
    assert w5 == w / 0x100_0000_0000 && w6 == w / 0x1_0000_0000_0000 && w7 == w / 0x100_0000_0000_0000;
    assert w7 < 0x100;
  }

  method Store64(ram: array<byte>, a: nat, w: u64)
    requires a + 8 <= ram.Length
    modifies ram
    ensures Word(ram[..], a) == w
    ensures SameOutside(old(ram[..]), ram[..], a, a + 8)
  {
    DigitsOf(w);
    ram[a], ram[a+1], ram[a+2], ram[a+3] :=
      w % 0x100, w / 0x100 % 0x100, w / 0x1_0000 % 0x100, w / 0x100_0000 % 0x100;
    ram[a+4], ram[a+5] := w / 0x1_0000_0000 % 0x100, w / 0x100_0000_0000 % 0x100;
    ram[a+6], ram[a+7] := w / 0x1_0000_0000_0000 % 0x100, w / 0x100_0000_0000_0000 % 0x100;
    WordBytes(ram[..], a);
  }

  /** A number that a write does not touch keeps its value. */
  lemma {:induction false} LittleEndianFrame(m: seq<byte>, n: seq<byte>, lo: nat, hi: nat, a: nat, b: nat)
    requires SameOutside(m, n, lo, hi) && a <= b <= |m|
    requires b <= lo || hi <= a
    ensures LittleEndian(n, a, b) == LittleEndian(m, a, b)
    decreases b - a
  {
    if a < b { LittleEndianFrame(m, n, lo, hi, a + 1, b); }
  }

  lemma WordFrame(m: seq<byte>, n: seq<byte>, lo: nat, hi: nat, a: nat)
    requires SameOutside(m, n, lo, hi) && a + 8 <= |m|
    requires a + 8 <= lo || hi <= a
    ensures Word(n, a) == Word(m, a)
  {
    LittleEndianFrame(m, n, lo, hi, a, a + 8);
  }

  lemma {:induction false} LittleEndianZero(m: seq<byte>, a: nat, b: nat)
    requires a <= b <= |m| && forall i :: a <= i < b ==> m[i] == 0
    ensures LittleEndian(m, a, b) == 0
    decreases b - a
  {
    if a < b { LittleEndianZero(m, a + 1, b); }
  }

  method MemSet(ram: array<byte>, dest: nat, v: byte, count: nat)
    requires dest + count <= ram.Length
    modifies ram
    ensures SameOutside(old(ram[..]), ram[..], dest, dest + count)
    ensures forall a :: dest <= a < dest + count ==> ram[a] == v
  {
    var i := 0;
    while i < count
      invariant 0 <= i <= count
      invariant SameOutside(old(ram[..]), ram[..], dest, dest + i)
      invariant forall a :: dest <= a < dest + i ==> ram[a] == v
    {
      ram[dest + i] := v;
      i := i + 1;
    }
  }

  method MemCpy(ram: array<byte>, dest: nat, src: seq<byte>, from: nat, count: nat)
    requires dest + count <= ram.Length && from + count <= |src|
    modifies ram
    ensures SameOutside(old(ram[..]), ram[..], dest, dest + count)
    ensures forall a :: dest <= a < dest + count ==> ram[a] == src[from + (a - dest)]
  {
    var i := 0;
    while i < count
      invariant 0 <= i <= count
      invariant SameOutside(old(ram[..]), ram[..], dest, dest + i)
      invariant forall a :: dest <= a < dest + i ==> ram[a] == src[from + (a - dest)]
    {
      ram[dest + i] := src[from + i];
      i := i + 1;
    }
  }

  /** The bytes [lo, hi). */
  datatype Region = Region(lo: nat, hi: nat) {
    predicate Apart(other: Region) { hi <= other.lo || other.hi <= lo }
  }

  /** What a loader asks for: pages that end at or below a limit, or pages at an address. */
  datatype Request = Max(limit: nat, pages: nat) | At(address: nat, pages: nat)
  datatype Call = Call(request: Request, granted: bool)

  /** UEFI's page allocator, as far as the loaders rely on it: a successful call yields whole
      pages of existing memory that no earlier call has handed out. Which pages, and whether the
      call succeeds at all, is the firmware's choice; the log says what was asked and granted. */
  class Firmware {
    const ram: array<byte>
    var taken: set<Region>
    ghost var log: seq<Call>

    constructor (ram: array<byte>)
      ensures this.ram == ram && taken == {} && log == []
    {
      this.ram := ram;
      taken := {};
      log := [];
    }

    /** AllocateMaxAddress: the pages end at or below `max`. */
    method AllocateMax(max: u64, pages: nat) returns (ok: bool, address: nat)
      modifies this
      ensures log == old(log) + [Call(Max(max, pages), ok)]
      ensures !ok ==> taken == old(taken)
      ensures ok ==> address % PAGE == 0 && address + PAGE * pages <= ram.Length
                     && address + PAGE * pages <= max + 1
                     && (forall r :: r in old(taken) ==> r.Apart(Region(address, address + PAGE * pages)))
                     && taken == old(taken) + {Region(address, address + PAGE * pages)}
    {
      ok, address := *, *;
      address := PAGE * (address / PAGE);
      if ok && address + PAGE * pages <= ram.Length && address + PAGE * pages <= max + 1
         && (forall r :: r in taken ==> r.Apart(Region(address, address + PAGE * pages))) {
        taken := taken + {Region(address, address + PAGE * pages)};
      } else {
        ok := false;
      }
      log := log + [Call(Max(max, pages), ok)];
    }

    /** AllocateAddress: the pages start exactly at `address`. */
    method AllocateAt(address: u64, pages: nat) returns (ok: bool)
      modifies this
      ensures log == old(log) + [Call(At(address, pages), ok)]
      ensures !ok ==> taken == old(taken)
      ensures ok ==> address % PAGE == 0 && address + PAGE * pages <= ram.Length
                     && (forall r :: r in old(taken) ==> r.Apart(Region(address, address + PAGE * pages)))
                     && taken == old(taken) + {Region(address, address + PAGE * pages)}
    {
      ok := *;
      if ok && address % PAGE == 0 && address + PAGE * pages <= ram.Length
         && (forall r :: r in taken ==> r.Apart(Region(address, address + PAGE * pages))) {
        taken := taken + {Region(address, address + PAGE * pages)};
      } else {
        ok := false;
      }
      log := log + [Call(At(address, pages), ok)];
    }
  }
}
