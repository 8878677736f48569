/** The page tables the boot loader builds for the kernel: the low 8 GiB mapped onto themselves
    with 2 MiB pages, and up to 4 MiB of kernel image mapped at the high base with 4 KiB pages. */
module KernelTables {
  import opened Bits
  import opened Memory
  import opened PageWalk

  const PAGE_PRESENT: nat := 0x001
  const PAGE_WRITABLE: nat := 0x002
  const PAGE_SIZE_2M: nat := 0x080
  const KERNEL_HIGH_BASE: u64 := 0xffff_ffff_8000_0000
  const LOW_IDENTITY_PDPT_COUNT: nat := 8
  const TWO_MIB: nat := 0x20_0000

  /** Position of each table in the list of the fourteen tables. */
  const PML4: nat := 0
  const PDPT_LOW: nat := 1
  const PD_LOW: nat := 2
  const PDPT_HIGH: nat := 10
  const PD_HIGH: nat := 11
  const PT_HIGH: nat := 12
  const TABLES: nat := 14

  /** Every base is a page of memory below 4 GiB, and no two are the same page. */
  ghost predicate Placed(bases: seq<nat>, size: nat) {
    && (forall t :: 0 <= t < |bases| ==>
          bases[t] % PAGE == 0 && bases[t] + PAGE <= size && bases[t] + PAGE <= 0x1_0000_0000)
    && (forall t, u :: 0 <= t < u < |bases| ==> bases[t] != bases[u])
  }

  // ---------- entries ----------

  function TableEntry(address: nat): nat { Or(Or(address, PAGE_PRESENT), PAGE_WRITABLE) }

  function LargeEntry(address: nat): nat { Or(Or(Or(address, PAGE_PRESENT), PAGE_WRITABLE), PAGE_SIZE_2M) }

  lemma FlagValues()
    ensures Or(0, 1) == 1 && Or(1, 2) == 3 && Or(3, 0x80) == 0x83
  {
    assert Or(0, 1) == 1;
    assert Or(0, 0x20) == 0x20;
    assert Or(1, 0x40) == 0x41;
  }

  /** For a page's address, or-ing the flags adds them. */
  lemma EntryValues(page: nat)
    ensures TableEntry(page * 0x1000) == page * 0x1000 + 3
    ensures LargeEntry(page * 0x1000) == page * 0x1000 + 0x83
  {
    Pow2Values();
    FlagValues();
    hide Or, Pow2;
    var address := page * 0x1000;
    OrFlags(address, 0, 1, 12);
    OrFlags(address, 1, 2, 12);
    OrFlags(address, 3, 0x80, 12);
  }

  // ---------- the contents of the tables, as they are filled ----------

  /** How many entries of each kind have been written: root entries (PML4[0], PML4[511] and
      PDPT_HIGH[510], in that order), GiB entries, 2 MiB pages, PD_HIGH entries, kernel pages. */
  datatype Progress = Progress(root: nat, gib: nat, low: nat, pd: nat, pages: nat)

  const START := Progress(0, 0, 0, 0, 0)

  function Done(mapped: nat): Progress { Progress(3, 8, 4096, 2, mapped) }

  /** Entry i of table t at that point. */
  function Value(bases: seq<nat>, kernelBase: nat, p: Progress, t: nat, i: nat): nat
    requires |bases| == TABLES && t < TABLES && i < ENTRIES
  {
    if t == PML4 then
      if i == 0 && p.root >= 1 then bases[PDPT_LOW] + 3
      else if i == 511 && p.root >= 2 then bases[PDPT_HIGH] + 3
      else 0
    else if t == PDPT_LOW then
      if i < p.gib && i < 8 then bases[PD_LOW + i] + 3 else 0
    else if t < PDPT_HIGH then
      var n := 512 * (t - PD_LOW) + i;
      if n < p.low then n * TWO_MIB + 0x83 else 0
    else if t == PDPT_HIGH then
      if i == 510 && p.root >= 3 then bases[PD_HIGH] + 3 else 0
    else if t == PD_HIGH then
      if i < p.pd && i < 2 then bases[PT_HIGH + i] + 3 else 0
    else
      var n := 512 * (t - PT_HIGH) + i;
      if n < p.pages then kernelBase + n * 0x1000 + 3 else 0
  }

  /** Memory holds the entries written so far, and zeros in all the other entries. */
  ghost predicate Holds(m: seq<byte>, bases: seq<nat>, kernelBase: nat, p: Progress) {
    && |bases| == TABLES && Placed(bases, |m|)
    && forall t: nat, i: nat {:trigger Value(bases, kernelBase, p, t, i)} :: t < TABLES && i < ENTRIES ==>
         Word(m, bases[t] + 8 * i) == Value(bases, kernelBase, p, t, i)
  }

  ghost predicate Built(m: seq<byte>, bases: seq<nat>, kernelBase: nat, mapped: nat) {
    Holds(m, bases, kernelBase, Done(mapped))
  }

  // ---------- what the processor makes of the finished tables ----------

  lemma EntryLookup(m: seq<byte>, bases: seq<nat>, kernelBase: nat, mapped: nat, t: nat, i: nat)
    requires Built(m, bases, kernelBase, mapped) && t < TABLES && i < ENTRIES
    ensures EntryAt(m, bases[t], i) == Value(bases, kernelBase, Done(mapped), t, i)
  {
    assert bases[t] + PAGE <= |m|;
  }

  /** The entry written for a page or table decodes to its address, present and writable. */
  lemma Decodes(page: nat)
    requires page < 0x100_0000_0000
    ensures Present(page * 0x1000 + 3) && Writable(page * 0x1000 + 3) && !Large(page * 0x1000 + 3)
    ensures Frame4K(page * 0x1000 + 3) == page * 0x1000
  {
    var e := page * 0x1000 + 3;
    assert e == 2 * (0x800 * page + 1) + 1 && e == 0x80 * (32 * page) + 3;
    assert e / 2 == 2 * (0x400 * page) + 1;
    assert e / 0x80 == 2 * (16 * page);
  }

  lemma DecodesLarge(page: nat)
    requires page < 0x8000_0000
    ensures Present(page * TWO_MIB + 0x83) && Writable(page * TWO_MIB + 0x83) && Large(page * TWO_MIB + 0x83)
    ensures Frame2M(page * TWO_MIB + 0x83) == page * TWO_MIB
  {
    LargeFlags(page);
    var e := page * TWO_MIB + 0x83;
    assert e % 0x10_0000_0000_0000 == e;
    assert e / 0x20_0000 == page;
  }

  lemma LargeFlags(page: nat)
    requires page < 0x8000_0000
    ensures Present(page * TWO_MIB + 0x83) && Writable(page * TWO_MIB + 0x83) && Large(page * TWO_MIB + 0x83)
  {
    var e := page * TWO_MIB + 0x83;
    DivModUnique(e, 2, 0x10_0000 * page + 0x41, 1);
    DivModUnique(e / 2, 2, 0x8_0000 * page + 0x20, 1);
    DivModUnique(e, 0x80, 0x4000 * page + 1, 3);
    DivModUnique(e / 0x80, 2, 0x2000 * page, 1);
  }

  /** One level down, through the entry of the next table. */
  lemma Descend(m: seq<byte>, table: nat, va: u64, next: nat)
    requires next % 0x1000 == 0 && next < 0x10_0000_0000_0000
    ensures Canonical(va) && EntryAt(m, table, Pml4Index(va)) == next + 3 ==>
              Walk(m, table, va) == WalkPdpt(m, next, va, true)
    ensures EntryAt(m, table, PdptIndex(va)) == next + 3 ==>
              WalkPdpt(m, table, va, true) == WalkPd(m, next, va, true)
    ensures EntryAt(m, table, PdIndex(va)) == next + 3 ==>
              WalkPd(m, table, va, true) == WalkPt(m, next, va, true)
    ensures EntryAt(m, table, PtIndex(va)) == next + 3 ==>
              WalkPt(m, table, va, true) == Mapped(next + va % 0x1000, true)
  {
    var page := next / 0x1000;
    assert next == page * 0x1000;
    Decodes(page);
  }

  lemma WalkLow(m: seq<byte>, bases: seq<nat>, kernelBase: nat, mapped: nat, va: u64)
    requires Built(m, bases, kernelBase, mapped)
    requires va < 0x80_0000_0000
    ensures Walk(m, bases[PML4], va) == if va < 8 * GIB then Mapped(va, true) else Fault
  {
    var g := PdptIndex(va);
    LowIndices(va);
    EntryLookup(m, bases, kernelBase, mapped, PML4, 0);
    EntryLookup(m, bases, kernelBase, mapped, PDPT_LOW, g);
    Descend(m, bases[PML4], va, bases[PDPT_LOW]);
    if g < 8 {
      Descend(m, bases[PDPT_LOW], va, bases[PD_LOW + g]);
      WalkLowPage(m, bases, kernelBase, mapped, va, g);
    }
  }

  lemma LowIndices(va: u64)
    requires va < 0x80_0000_0000
    ensures Canonical(va) && Pml4Index(va) == 0 && PdptIndex(va) == va / GIB
  {}

  lemma WalkLowPage(m: seq<byte>, bases: seq<nat>, kernelBase: nat, mapped: nat, va: u64, g: nat)
    requires Built(m, bases, kernelBase, mapped)
    requires g == va / GIB < 8
    ensures WalkPd(m, bases[PD_LOW + g], va, true) == Mapped(va, true)
  {
    var page := va / TWO_MIB;
    var d := PdIndex(va);
    assert page == 512 * g + d;
    EntryLookup(m, bases, kernelBase, mapped, PD_LOW + g, d);
    DecodesLarge(page);
  }

  lemma WalkHigh(m: seq<byte>, bases: seq<nat>, kernelBase: nat, mapped: nat, va: u64)
    requires Built(m, bases, kernelBase, mapped)
    requires kernelBase % PAGE == 0 && kernelBase <= 0x4000_0000 && mapped <= 1024
    requires va >= 0xffff_ff80_0000_0000
    ensures Walk(m, bases[PML4], va) ==
            if va >= KERNEL_HIGH_BASE && (va - KERNEL_HIGH_BASE) / PAGE < mapped
            then Mapped(kernelBase + (va - KERNEL_HIGH_BASE), true) else Fault
  {
    HighIndices(va);
    var g := PdptIndex(va);
    EntryLookup(m, bases, kernelBase, mapped, PML4, 511);
    EntryLookup(m, bases, kernelBase, mapped, PDPT_HIGH, g);
    Descend(m, bases[PML4], va, bases[PDPT_HIGH]);
    if g == 510 {
      Descend(m, bases[PDPT_HIGH], va, bases[PD_HIGH]);
      WalkHighPage(m, bases, kernelBase, mapped, va - KERNEL_HIGH_BASE);
    }
  }

  lemma HighIndices(va: u64)
    requires va >= 0xffff_ff80_0000_0000
    ensures Pml4Index(va) == 511 && Canonical(va)
    ensures PdptIndex(va) == 510 <==> KERNEL_HIGH_BASE <= va < KERNEL_HIGH_BASE + GIB
    ensures PdptIndex(va) == 511 <==> KERNEL_HIGH_BASE + GIB <= va
  {
    var off := va - 0xffff_ff80_0000_0000;
    assert va / GIB == 0x3_ffff_fe00 + off / GIB;
    assert va / 0x80_0000_0000 == 0x1ff_ffff;
  }

  lemma HighPageIndices(o: nat)
    requires o < GIB
    ensures PdIndex(KERNEL_HIGH_BASE + o) == o / TWO_MIB
    ensures PtIndex(KERNEL_HIGH_BASE + o) == o / 0x1000 % 512
    ensures (KERNEL_HIGH_BASE + o) % 0x1000 == o % 0x1000
  {
    assert (KERNEL_HIGH_BASE + o) / TWO_MIB == 0x7ff_ffff_fc00 + o / TWO_MIB;
    assert (KERNEL_HIGH_BASE + o) / 0x1000 == 0xf_ffff_fff8_0000 + o / 0x1000;
  }

  lemma WalkHighPage(m: seq<byte>, bases: seq<nat>, kernelBase: nat, mapped: nat, o: nat)
    requires Built(m, bases, kernelBase, mapped)
    requires kernelBase % PAGE == 0 && kernelBase <= 0x4000_0000 && mapped <= 1024
    requires o < GIB
    ensures WalkPd(m, bases[PD_HIGH], KERNEL_HIGH_BASE + o, true) ==
            if o / PAGE < mapped then Mapped(kernelBase + o, true) else Fault
  {
    HighPageIndices(o);
    var va, page := KERNEL_HIGH_BASE + o, o / 0x1000;
    var d := page / 512;
    assert d == o / TWO_MIB;
    EntryLookup(m, bases, kernelBase, mapped, PD_HIGH, d);
    if d < 2 {
      Descend(m, bases[PD_HIGH], va, bases[PT_HIGH + d]);
      WalkHighPt(m, bases, kernelBase, mapped, va, d, page % 512);
    }
  }

  lemma WalkHighPt(m: seq<byte>, bases: seq<nat>, kernelBase: nat, mapped: nat, va: u64, d: nat, p: nat)
    requires Built(m, bases, kernelBase, mapped)
    requires kernelBase % PAGE == 0 && kernelBase <= 0x4000_0000
    requires d < 2 && p < 512 && PtIndex(va) == p
    ensures WalkPt(m, bases[PT_HIGH + d], va, true) ==
            if 512 * d + p < mapped then Mapped(kernelBase + (512 * d + p) * 0x1000 + va % 0x1000, true) else Fault
  {
    EntryLookup(m, bases, kernelBase, mapped, PT_HIGH + d, p);
    var page := kernelBase / 0x1000 + (512 * d + p);
    assert kernelBase + (512 * d + p) * 0x1000 == page * 0x1000;
    Descend(m, bases[PT_HIGH + d], va, page * 0x1000);
  }

  lemma WalkMiddle(m: seq<byte>, bases: seq<nat>, kernelBase: nat, mapped: nat, va: u64)
    requires Built(m, bases, kernelBase, mapped)
    requires 0x80_0000_0000 <= va < 0xffff_ff80_0000_0000
    ensures Walk(m, bases[PML4], va) == Fault
  {
    if Canonical(va) {
      MiddleIndex(va);
      EntryLookup(m, bases, kernelBase, mapped, PML4, Pml4Index(va));
    }
  }

  lemma MiddleIndex(va: u64)
    requires 0x80_0000_0000 <= va < 0xffff_ff80_0000_0000 && Canonical(va)
    ensures Pml4Index(va) != 0 && Pml4Index(va) != 511
  {
    if va >= 0xffff_8000_0000_0000 {
      var off := va - 0xffff_8000_0000_0000;
      assert va / 0x80_0000_0000 == 0x1ff_ff00 + off / 0x80_0000_0000;
    }
  }

  /** The finished tables map exactly [0, 8 GiB) onto itself and the mapped kernel pages at the
      high base, all writable, and nothing else. */
  lemma WalkExact(m: seq<byte>, bases: seq<nat>, kernelBase: nat, mapped: nat, va: u64)
    requires Built(m, bases, kernelBase, mapped)
    requires kernelBase % PAGE == 0 && kernelBase <= 0x4000_0000 && mapped <= 1024
    ensures Walk(m, bases[PML4], va) ==
            if va < 8 * GIB then Mapped(va, true)
            else if va >= KERNEL_HIGH_BASE && (va - KERNEL_HIGH_BASE) / PAGE < mapped
            then Mapped(kernelBase + (va - KERNEL_HIGH_BASE), true)
            else Fault
  {
    if va < 0x80_0000_0000 {
      WalkLow(m, bases, kernelBase, mapped, va);
    } else if va < 0xffff_ff80_0000_0000 {
      WalkMiddle(m, bases, kernelBase, mapped, va);
    } else {
      WalkHigh(m, bases, kernelBase, mapped, va);
    }
  }
}
