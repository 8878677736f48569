/** The address translation of 4-level paging: Intel SDM Vol. 3A, section 4.5. */
module PageWalk {
  import opened Bits
  import opened Memory

  datatype Translation = Fault | Mapped(pa: nat, writable: bool)

  const GIB: nat := 0x4000_0000
  const ENTRIES: nat := 512

  // Bits of a paging-structure entry.
  predicate Present(e: u64) { e % 2 == 1 }
  predicate Writable(e: u64) { e / 2 % 2 == 1 }
  predicate Large(e: u64) { e / 0x80 % 2 == 1 }

  /** Bits 51..12, 51..21 and 51..30 of an entry: the address of a table or of a page. */
  function Frame4K(e: u64): nat { e % 0x10_0000_0000_0000 / 0x1000 * 0x1000 }
  function Frame2M(e: u64): nat { e % 0x10_0000_0000_0000 / 0x20_0000 * 0x20_0000 }
  function Frame1G(e: u64): nat { e % 0x10_0000_0000_0000 / GIB * GIB }

  function Pml4Index(va: u64): nat { va / 0x80_0000_0000 % 512 }
  function PdptIndex(va: u64): nat { va / GIB % 512 }
  function PdIndex(va: u64): nat { va / 0x20_0000 % 512 }
  function PtIndex(va: u64): nat { va / 0x1000 % 512 }

  /** Bits 63..47 are all equal. */
  predicate Canonical(va: u64) { va < 0x8000_0000_0000 || va >= 0xffff_8000_0000_0000 }

  /** An entry of the table at `table`; where there is no memory, nothing is present. */
  function EntryAt(m: seq<byte>, table: nat, index: nat): u64 {
    if table + 8 * index + 8 <= |m| then Word(m, table + 8 * index) else 0
  }

  /** What the processor reads or writes when it accesses virtual address `va`. */
  function Walk(m: seq<byte>, cr3: nat, va: u64): Translation {
    if !Canonical(va) then Fault else
    var e := EntryAt(m, cr3, Pml4Index(va));
    if !Present(e) then Fault else WalkPdpt(m, Frame4K(e), va, Writable(e))
  }

  function WalkPdpt(m: seq<byte>, table: nat, va: u64, writable: bool): Translation {
    var e := EntryAt(m, table, PdptIndex(va));
    if !Present(e) then Fault
    else if Large(e) then Mapped(Frame1G(e) + va % GIB, writable && Writable(e))
    else WalkPd(m, Frame4K(e), va, writable && Writable(e))
  }

  function WalkPd(m: seq<byte>, table: nat, va: u64, writable: bool): Translation {
    var e := EntryAt(m, table, PdIndex(va));
    if !Present(e) then Fault
    else if Large(e) then Mapped(Frame2M(e) + va % 0x20_0000, writable && Writable(e))
    else WalkPt(m, Frame4K(e), va, writable && Writable(e))
  }

  function WalkPt(m: seq<byte>, table: nat, va: u64, writable: bool): Translation {
    var e := EntryAt(m, table, PtIndex(va));
    if !Present(e) then Fault else Mapped(Frame4K(e) + va % 0x1000, writable && Writable(e))
  }
}
