/** Building the kernel's page tables in physical memory, step by step. */
module KernelPaging {
  import opened Bits
  import opened Memory
  import opened PageWalk
  import opened KernelTables

  /** No byte of memory handed out earlier has changed. */
  ghost predicate Untouched(m: seq<byte>, n: seq<byte>, taken: set<Region>) {
    |n| == |m| && forall r: Region, a: nat :: r in taken && r.lo <= a < r.hi && a < |m| ==> n[a] == m[a]
  }

  /** The pages at `bases` were granted after `taken`, so they share no byte with it. */
  ghost predicate After(bases: seq<nat>, taken: set<Region>) {
    forall t, r :: 0 <= t < |bases| && r in taken ==> r.Apart(Region(bases[t], bases[t] + PAGE))
  }

  ghost predicate Zeroed(m: seq<byte>, bases: seq<nat>) {
    Placed(bases, |m|) && forall t, a :: 0 <= t < |bases| && bases[t] <= a < bases[t] + PAGE ==> m[a] == 0
  }

  lemma PagesApart(a: nat, b: nat)
    requires a % PAGE == 0 && b % PAGE == 0 && a != b
    ensures a + PAGE <= b || b + PAGE <= a
  {}

  /** A write into one of the pages `bases` leaves older regions alone. */
  lemma WriteUntouched(m: seq<byte>, before: seq<byte>, now: seq<byte>, bases: seq<nat>, taken: set<Region>,
                       t: nat, lo: nat, hi: nat)
    requires Untouched(m, before, taken) && After(bases, taken) && t < |bases|
    requires SameOutside(before, now, lo, hi) && bases[t] <= lo <= hi <= bases[t] + PAGE
    ensures Untouched(m, now, taken)
  {
    forall r: Region, a: nat | r in taken && r.lo <= a < r.hi && a < |m| ensures now[a] == m[a] {
      assert r.Apart(Region(bases[t], bases[t] + PAGE));
    }
  }

  /** A new page, apart from everything granted before, that has been zeroed. */
  lemma OneMore(m: seq<byte>, before: seq<byte>, now: seq<byte>, bases: seq<nat>, table: nat,
                taken: set<Region>, granted: set<Region>)
    requires taken <= granted && Zeroed(before, bases) && After(bases, taken) && Untouched(m, before, taken)
    requires forall t :: 0 <= t < |bases| ==> Region(bases[t], bases[t] + PAGE) in granted
    requires forall r :: r in granted ==> r.Apart(Region(table, table + PAGE))
    requires table % PAGE == 0 && table + PAGE <= |before| && table + PAGE <= 0x1_0000_0000
    requires SameOutside(before, now, table, table + PAGE) && forall a :: table <= a < table + PAGE ==> now[a] == 0
    ensures Zeroed(now, bases + [table]) && After(bases + [table], taken) && Untouched(m, now, taken)
  {
    forall t | 0 <= t < |bases| ensures bases[t] + PAGE <= table || table + PAGE <= bases[t] {
      assert Region(bases[t], bases[t] + PAGE).Apart(Region(table, table + PAGE));
    }
    WriteUntouched(m, before, now, bases + [table], taken, |bases|, table, table + PAGE);
  }

  /** Zeroed pages hold the tables in which no entry has been written. */
  lemma ZeroedHolds(m: seq<byte>, bases: seq<nat>, kernelBase: nat)
    requires Zeroed(m, bases) && |bases| == TABLES
    ensures Holds(m, bases, kernelBase, START)
  {
    forall t: nat, i: nat | t < TABLES && i < ENTRIES
      ensures Word(m, bases[t] + 8 * i) == Value(bases, kernelBase, START, t, i)
    {
      assert Value(bases, kernelBase, START, t, i) == 0;
      LittleEndianZero(m, bases[t] + 8 * i, bases[t] + 8 * i + 8);
    }
  }

  /** Storing one entry turns the tables of progress p into those of progress q, if q is p with
      that entry changed. */
  ghost predicate Advances(bases: seq<nat>, kernelBase: nat, p: Progress, q: Progress, t: nat, i: nat, value: nat)
    requires |bases| == TABLES
  {
    t < TABLES && i < ENTRIES &&
    forall u: nat, j: nat {:trigger Value(bases, kernelBase, q, u, j)} :: u < TABLES && j < ENTRIES ==>
      Value(bases, kernelBase, q, u, j) == if u == t && j == i then value else Value(bases, kernelBase, p, u, j)
  }

  lemma StoreHolds(m: seq<byte>, n: seq<byte>, bases: seq<nat>, kernelBase: nat, p: Progress, q: Progress,
                   t: nat, i: nat, value: nat)
    requires Holds(m, bases, kernelBase, p) && Advances(bases, kernelBase, p, q, t, i, value)
    requires var a := bases[t] + 8 * i;
             SameOutside(m, n, a, a + 8) && Word(n, a) == value
    ensures Holds(n, bases, kernelBase, q)
  {
    var a := bases[t] + 8 * i;
    forall u: nat, j: nat | u < TABLES && j < ENTRIES
      ensures Word(n, bases[u] + 8 * j) == Value(bases, kernelBase, q, u, j)
    {
      if u != t || j != i {
        if u != t {
          assert bases[u] != bases[t];
          PagesApart(bases[u], bases[t]);
        }
        WordFrame(m, n, a, a + 8, bases[u] + 8 * j);
        assert Word(m, bases[u] + 8 * j) == Value(bases, kernelBase, p, u, j);
      }
    }
  }

  /** The three entries of the root and of the high directory, in the order of the code. */
  lemma AdvanceRoot(bases: seq<nat>, kernelBase: nat, p: Progress)
    requires |bases| == TABLES && p.root < 3
    ensures var q := p.(root := p.root + 1);
            && (p.root == 0 ==> Advances(bases, kernelBase, p, q, PML4, 0, bases[PDPT_LOW] + 3))
            && (p.root == 1 ==> Advances(bases, kernelBase, p, q, PML4, 511, bases[PDPT_HIGH] + 3))
            && (p.root == 2 ==> Advances(bases, kernelBase, p, q, PDPT_HIGH, 510, bases[PD_HIGH] + 3))
  {}

  lemma AdvanceGib(bases: seq<nat>, kernelBase: nat, p: Progress)
    requires |bases| == TABLES && p.gib < 8
    ensures Advances(bases, kernelBase, p, p.(gib := p.gib + 1), PDPT_LOW, p.gib, bases[PD_LOW + p.gib] + 3)
  {}

  lemma AdvancePd(bases: seq<nat>, kernelBase: nat, p: Progress)
    requires |bases| == TABLES && p.pd < 2
    ensures Advances(bases, kernelBase, p, p.(pd := p.pd + 1), PD_HIGH, p.pd, bases[PT_HIGH + p.pd] + 3)
  {}

  lemma AdvanceLow(bases: seq<nat>, kernelBase: nat, p: Progress)
    requires |bases| == TABLES && p.low < 4096
    ensures Advances(bases, kernelBase, p, p.(low := p.low + 1), PD_LOW + p.low / 512, p.low % 512,
                     p.low * TWO_MIB + 0x83)
  {}

  lemma AdvancePages(bases: seq<nat>, kernelBase: nat, p: Progress)
    requires |bases| == TABLES && p.pages < 1024
    ensures Advances(bases, kernelBase, p, p.(pages := p.pages + 1), PT_HIGH + p.pages / 512, p.pages % 512,
                     kernelBase + p.pages * 0x1000 + 3)
  {}

  /** The number of 4 KiB pages mapped for an image of `size` bytes: `(size + 0xFFF) >> 12`, at most 1024. */
  function MappedPages(size: u64): nat {
    var pages := Shr(Add64(size, 0xFFF), 12);
    if pages > 1024 then 1024 else pages
  }

  /** The firmware is asked for one page below 4 GiB at a time, n times, and grants them all exactly if `ok`; else
      the first refusal is the last call. */
  ghost predicate Asked(before: seq<Call>, now: seq<Call>, n: nat, ok: bool) {
    if ok then now == before + Tables(n)
    else exists k: nat :: k < n && now == before + Tables(k) + [Call(Max(0xffff_ffff, 1), false)]
  }

  function Tables(n: nat): seq<Call> { seq(n, i => Call(Max(0xffff_ffff, 1), true)) }

  lemma AskedOne(before: seq<Call>, ok: bool)
    ensures Asked(before, before, 0, true)
    ensures Asked(before, before + [Call(Max(0xffff_ffff, 1), ok)], 1, ok)
  {
    assert Tables(1) == [Call(Max(0xffff_ffff, 1), true)];
    assert before + Tables(0) == before;
  }

  lemma AskedThen(before: seq<Call>, mid: seq<Call>, now: seq<Call>, n: nat, k: nat, ok: bool)
    requires Asked(before, mid, n, true) && Asked(mid, now, k, ok)
    ensures Asked(before, now, n + k, ok)
  {
    if ok {
      assert Tables(n) + Tables(k) == Tables(n + k);
    } else {
      var j: nat :| j < k && now == mid + Tables(j) + [Call(Max(0xffff_ffff, 1), false)];
      assert Tables(n) + Tables(j) == Tables(n + j);
      assert now == before + Tables(n + j) + [Call(Max(0xffff_ffff, 1), false)];
    }
  }

  lemma AskedMore(before: seq<Call>, now: seq<Call>, n: nat, k: nat)
    requires Asked(before, now, n, false) && n <= k
    ensures Asked(before, now, k, false)
  {}

  /** The 2 MiB pages of the frame buffer that are stored again: from the one with its first byte up to its end,
      rounded up in a sum that may wrap around, below 8 GiB. */
  ghost predicate FramebufferPages(base: u64, size: u64, stored: set<nat>) {
    if base == 0 || size == 0 then stored == {}
    else
      var end := (base + size + 0x1F_FFFF) % TWO64;
      forall phys :: phys in stored <==>
        phys % TWO_MIB == 0 && base - base % TWO_MIB <= phys < end - end % TWO_MIB && phys < 8 * GIB
  }

  class Paging {
    const firmware: Firmware
    const ram: array<byte>
    var pml4: nat
    var pdptLow: nat
    var pdLow: seq<nat>
    var pdptHigh: nat
    var pdHigh: nat
    var ptHigh: seq<nat>

    ghost function Bases(): seq<nat>
      reads this
    {
      [pml4, pdptLow] + pdLow + [pdptHigh, pdHigh] + ptHigh
    }

    constructor (firmware: Firmware)
      ensures this.firmware == firmware && ram == firmware.ram
    {
      this.firmware, ram := firmware, firmware.ram;
      pml4, pdptLow, pdptHigh, pdHigh := 0, 0, 0, 0;
      pdLow, ptHigh := [], [];
    }

    /** Which base each field holds. */
    lemma Slots()
      requires |pdLow| == 8 && |ptHigh| == 2
      ensures |Bases()| == TABLES
      ensures Bases()[PML4] == pml4 && Bases()[PDPT_LOW] == pdptLow
      ensures forall t :: PD_LOW <= t < PDPT_HIGH ==> Bases()[t] == pdLow[t - PD_LOW]
      ensures Bases()[PDPT_HIGH] == pdptHigh && Bases()[PD_HIGH] == pdHigh
      ensures Bases()[PT_HIGH] == ptHigh[0] && Bases()[PT_HIGH + 1] == ptHigh[1]
    {}

    /** The fourteen tables are in place with the entries of progress p, and no byte handed out
        before them has changed since memory was m. */
    ghost predicate Filling(m: seq<byte>, taken: set<Region>, kernelBase: nat, p: Progress)
      reads this, ram
    {
      |pdLow| == 8 && |ptHigh| == 2 && Holds(ram[..], Bases(), kernelBase, p)
      && After(Bases(), taken) && Untouched(m, ram[..], taken)
    }

    /** Every table is a page below 4 GiB, and the fields say where it is. */
    lemma TableAt(m: seq<byte>, taken: set<Region>, kernelBase: nat, p: Progress)
      requires Filling(m, taken, kernelBase, p)
      ensures |pdLow| == 8 && |ptHigh| == 2 && |Bases()| == TABLES
      ensures forall t :: 0 <= t < TABLES ==> Bases()[t] % PAGE == 0 && Bases()[t] < 0x1_0000_0000
      ensures Bases()[PML4] == pml4 && Bases()[PDPT_LOW] == pdptLow
      ensures forall t :: 0 <= t < 8 ==> Bases()[PD_LOW + t] == pdLow[t]
      ensures Bases()[PDPT_HIGH] == pdptHigh && Bases()[PD_HIGH] == pdHigh
      ensures Bases()[PT_HIGH] == ptHigh[0] && Bases()[PT_HIGH + 1] == ptHigh[1]
    {
      Slots();
    }

    /** One more zeroed page for a table, or the firmware's refusal. */
    method AllocPageTable(ghost m: seq<byte>, ghost bases: seq<nat>, ghost taken: set<Region>)
      returns (ok: bool, table: nat)
      requires ram == firmware.ram && Granted(m, taken, bases)
      modifies firmware, ram
      ensures firmware.log == old(firmware.log) + [Call(Max(0xffff_ffff, 1), ok)]
      ensures Untouched(m, ram[..], taken)
      ensures ok ==> Granted(m, taken, bases + [table])
    {
      hide Untouched, After, Zeroed, SameOutside;
      ghost var before, granted := ram[..], firmware.taken;
      ok, table := firmware.AllocateMax(0xffff_ffff, 1);
      if ok {
        MemSet(ram, table, 0, PAGE);
        OneMore(m, before, ram[..], bases, table, taken, granted);
      }
    }

    /** `table[index] = value`, where `table` is the t-th table. */
    method StoreEntry(table: nat, index: nat, value: u64, ghost m: seq<byte>, ghost taken: set<Region>,
                      ghost kernelBase: nat, ghost p: Progress, ghost q: Progress, ghost t: nat)
      requires Filling(m, taken, kernelBase, p) && Advances(Bases(), kernelBase, p, q, t, index, value)
      requires table == Bases()[t]
      modifies ram
      ensures Filling(m, taken, kernelBase, q)
    {
      ghost var before, bases := ram[..], Bases();
      var a := table + 8 * index;
      assert bases[t] + PAGE <= |before|;
      Store64(ram, a, value);
      StoreHolds(before, ram[..], bases, kernelBase, p, q, t, index, value);
      WriteUntouched(m, before, ram[..], bases, taken, t, a, a + 8);
    }

    /** `table[index] = (uint64_t)next | PAGE_PRESENT | PAGE_WRITABLE`. */
    method StoreTable(table: nat, index: nat, next: nat, ghost m: seq<byte>, ghost taken: set<Region>,
                      ghost kernelBase: nat, ghost p: Progress, ghost q: Progress, ghost t: nat)
      requires Filling(m, taken, kernelBase, p) && Advances(Bases(), kernelBase, p, q, t, index, next + 3)
      requires table == Bases()[t] && next % PAGE == 0 && next < 0x1_0000_0000
      modifies ram
      ensures Filling(m, taken, kernelBase, q)
    {
      EntryValues(next / PAGE);
      StoreEntry(table, index, TableEntry(next), m, taken, kernelBase, p, q, t);
    }

    /** The pages at `bases` have been granted and zeroed, after those of `taken`. */
    ghost predicate Granted(m: seq<byte>, taken: set<Region>, bases: seq<nat>)
      reads firmware, ram
    {
      && taken <= firmware.taken && Zeroed(ram[..], bases) && After(bases, taken) && Untouched(m, ram[..], taken)
      && forall t :: 0 <= t < |bases| ==> Region(bases[t], bases[t] + PAGE) in firmware.taken
    }

    lemma NoneGranted(m: seq<byte>, taken: set<Region>)
      requires m == ram[..] && taken == firmware.taken
      ensures Granted(m, taken, [])
    {}

    lemma GrantedMeans(m: seq<byte>, taken: set<Region>, bases: seq<nat>)
      requires Granted(m, taken, bases)
      ensures Zeroed(ram[..], bases) && After(bases, taken) && Untouched(m, ram[..], taken)
    {}

    /** Two calls in a row. */
    method AllocTwo(ghost m: seq<byte>, ghost bases: seq<nat>, ghost taken: set<Region>)
      returns (ok: bool, first: nat, second: nat)
      requires ram == firmware.ram && Granted(m, taken, bases)
      modifies firmware, ram
      ensures Asked(old(firmware.log), firmware.log, 2, ok)
      ensures Untouched(m, ram[..], taken)
      ensures ok ==> Granted(m, taken, bases + [first, second])
    {
      hide Granted, Untouched;
      second := 0;
      ghost var before := firmware.log;
      ok, first := AllocPageTable(m, bases, taken);
      ghost var mid := firmware.log;
      AskedOne(before, ok);
      if !ok { AskedMore(before, mid, 1, 2); return; }
      ok, second := AllocPageTable(m, bases + [first], taken);
      AskedOne(mid, ok);
      AskedThen(before, mid, firmware.log, 1, 1, ok);
      assert bases + [first, second] == bases + [first] + [second];
    }

    method AllocLow(ghost m: seq<byte>, ghost bases: seq<nat>, ghost taken: set<Region>) returns (ok: bool)
      requires ram == firmware.ram && Granted(m, taken, bases)
      modifies this`pdLow, firmware, ram
      ensures Asked(old(firmware.log), firmware.log, 8, ok)
      ensures Untouched(m, ram[..], taken)
      ensures ok ==> |pdLow| == LOW_IDENTITY_PDPT_COUNT && Granted(m, taken, bases + pdLow)
    {
      GrantedMeans(m, taken, bases);
      hide Granted, Untouched;
      ghost var before := firmware.log;
      AskedOne(before, true);
      pdLow := [];
      assert bases + pdLow == bases;
      var i := 0;
      while i < LOW_IDENTITY_PDPT_COUNT
        invariant 0 <= i <= 8 && |pdLow| == i
        invariant Granted(m, taken, bases + pdLow) && Untouched(m, ram[..], taken)
        invariant Asked(old(firmware.log), firmware.log, i, true)
      {
        var table;
        ghost var mid := firmware.log;
        ok, table := AllocPageTable(m, bases + pdLow, taken);
        AskedOne(mid, ok);
        AskedThen(before, mid, firmware.log, i, 1, ok);
        if !ok { AskedMore(before, firmware.log, i + 1, 8); return; }
        assert bases + pdLow + [table] == bases + (pdLow + [table]);
        pdLow := pdLow + [table];
        i := i + 1;
      }
      ok := true;
    }

    method AllocHigh(ghost m: seq<byte>, ghost bases: seq<nat>, ghost taken: set<Region>) returns (ok: bool)
      requires ram == firmware.ram && Granted(m, taken, bases)
      modifies this`pdptHigh, this`pdHigh, this`ptHigh, firmware, ram
      ensures Asked(old(firmware.log), firmware.log, 4, ok)
      ensures Untouched(m, ram[..], taken)
      ensures ok ==> |ptHigh| == 2 && Granted(m, taken, bases + [pdptHigh, pdHigh] + ptHigh)
    {
      hide Granted, Untouched;
      ghost var before := firmware.log;
      ok, pdptHigh, pdHigh := AllocTwo(m, bases, taken);
      ghost var mid := firmware.log;
      if !ok { AskedMore(before, mid, 2, 4); return; }
      var t0, t1;
      ok, t0, t1 := AllocTwo(m, bases + [pdptHigh, pdHigh], taken);
      AskedThen(before, mid, firmware.log, 2, 2, ok);
      ptHigh := [t0, t1];
    }

    /** The fourteen pages, or the first refusal. */
    method AllocTables(ghost m: seq<byte>, ghost taken: set<Region>) returns (ok: bool)
      requires ram == firmware.ram && m == ram[..] && taken == firmware.taken
      modifies this, firmware, ram
      ensures Asked(old(firmware.log), firmware.log, TABLES, ok)
      ensures Untouched(m, ram[..], taken)
      ensures ok ==> |pdLow| == 8 && |ptHigh| == 2 && Zeroed(ram[..], Bases()) && After(Bases(), taken)
    {
      NoneGranted(m, taken);
      hide Granted, Untouched, Zeroed, After, Asked;
      ghost var before := firmware.log;
      ok, pml4, pdptLow := AllocTwo(m, [], taken);
      ghost var mid := firmware.log;
      if !ok { AskedMore(before, mid, 2, TABLES); return; }
      assert [] + [pml4, pdptLow] == [pml4, pdptLow];
      ok := AllocLow(m, [pml4, pdptLow], taken);
      AskedThen(before, mid, firmware.log, 2, 8, ok);
      mid := firmware.log;
      if !ok { AskedMore(before, mid, 10, TABLES); return; }
      ok := AllocHigh(m, [pml4, pdptLow] + pdLow, taken);
      AskedThen(before, mid, firmware.log, 10, 4, ok);
      if ok {
        assert Bases() == [pml4, pdptLow] + pdLow + [pdptHigh, pdHigh] + ptHigh;
        GrantedMeans(m, taken, Bases());
      }
    }

    /** The GiB entries of the low half. */
    method FillPdptLow(ghost m: seq<byte>, ghost taken: set<Region>, ghost kernelBase: nat)
      requires Filling(m, taken, kernelBase, START.(root := 1))
      modifies ram
      ensures Filling(m, taken, kernelBase, START.(root := 1, gib := 8))
    {
      TableAt(m, taken, kernelBase, START.(root := 1));
      hide Filling, Value, Advances, Bases;
      ghost var p := START.(root := 1);
      var table := 0;
      while table < LOW_IDENTITY_PDPT_COUNT
        invariant 0 <= table <= 8 && p == START.(root := 1, gib := table)
        invariant Filling(m, taken, kernelBase, p)
      {
        AdvanceGib(Bases(), kernelBase, p);
        StoreTable(pdptLow, table, pdLow[table], m, taken, kernelBase, p, p.(gib := table + 1), PDPT_LOW);
        p := p.(gib := table + 1);
        table := table + 1;
      }
    }

    /** The entries of the root and of the tables that point to tables, except PD_HIGH. */
    method FillUpper(ghost m: seq<byte>, ghost taken: set<Region>, ghost kernelBase: nat)
      requires Filling(m, taken, kernelBase, START)
      modifies ram
      ensures Filling(m, taken, kernelBase, START.(root := 3, gib := 8))
    {
      TableAt(m, taken, kernelBase, START);
      hide Filling, Value, Advances, Bases;
      AdvanceRoot(Bases(), kernelBase, START);
      StoreTable(pml4, 0, pdptLow, m, taken, kernelBase, START, START.(root := 1), PML4);
      FillPdptLow(m, taken, kernelBase);
      FillRootHigh(m, taken, kernelBase);
    }

    /** The entries that lead to the high half. */
    method FillRootHigh(ghost m: seq<byte>, ghost taken: set<Region>, ghost kernelBase: nat)
      requires Filling(m, taken, kernelBase, START.(root := 1, gib := 8))
      modifies ram
      ensures Filling(m, taken, kernelBase, START.(root := 3, gib := 8))
    {
      ghost var p := START.(root := 1, gib := 8);
      TableAt(m, taken, kernelBase, p);
      hide Filling, Value, Advances, Bases;
      AdvanceRoot(Bases(), kernelBase, p);
      StoreTable(pml4, 511, pdptHigh, m, taken, kernelBase, p, p.(root := 2), PML4);
      p := p.(root := 2);
      AdvanceRoot(Bases(), kernelBase, p);
      StoreTable(pdptHigh, 510, pdHigh, m, taken, kernelBase, p, p.(root := 3), PDPT_HIGH);
    }

    method StoreLow(i: nat, ghost m: seq<byte>, ghost taken: set<Region>, ghost kernelBase: nat, ghost p: Progress)
      requires Filling(m, taken, kernelBase, p) && i == p.low < 4096
      modifies ram
      ensures Filling(m, taken, kernelBase, p.(low := i + 1))
    {
      TableAt(m, taken, kernelBase, p);
      hide Filling, Value, Advances, Bases;
      var phys := i * TWO_MIB;
      LargeEntryOf(phys, i);
      AdvanceLow(Bases(), kernelBase, p);
      StoreEntry(pdLow[i / 512], i % 512, LargeEntry(phys), m, taken, kernelBase,
                 p, p.(low := i + 1), PD_LOW + i / 512);
    }

    /** 4096 large pages: every 2 MiB below 8 GiB onto itself. */
    method FillLow(ghost m: seq<byte>, ghost taken: set<Region>, ghost kernelBase: nat)
      requires Filling(m, taken, kernelBase, START.(root := 3, gib := 8))
      modifies ram
      ensures Filling(m, taken, kernelBase, START.(root := 3, gib := 8, low := 4096))
    {
      ghost var p := START.(root := 3, gib := 8);
      var i := 0;
      while i < LOW_IDENTITY_PDPT_COUNT * 512
        invariant 0 <= i <= 4096 && p == START.(root := 3, gib := 8, low := i)
        invariant Filling(m, taken, kernelBase, p)
      {
        StoreLow(i, m, taken, kernelBase, p);
        p := p.(low := i + 1);
        i := i + 1;
      }
    }

    /** Writes the entry of a 2 MiB page of the frame buffer, if it lies below 8 GiB. */
    method StoreFramebuffer(phys: u64, ghost m: seq<byte>, ghost taken: set<Region>,
                            ghost kernelBase: nat, ghost p: Progress) returns (ghost stored: set<nat>)
      requires Filling(m, taken, kernelBase, p) && p.low == 4096
      requires phys % TWO_MIB == 0
      modifies ram
      ensures Filling(m, taken, kernelBase, p) && stored == if phys < 8 * GIB then {phys} else {}
    {
      hide Pow2, Word;
      stored := {};
      FramebufferIndices(phys);
      var pdptIndex := Shr(phys, 30);
      var pdIndex := And(Shr(phys, 21), 0x1FF);
      if pdptIndex < LOW_IDENTITY_PDPT_COUNT {
        Slots();
        FramebufferEntry(phys, Bases(), kernelBase, p);
        StoreEntry(pdLow[pdptIndex], pdIndex, LargeEntry(phys), m, taken, kernelBase, p, p, PD_LOW + pdptIndex);
        stored := {phys};
      }
    }

    /** Re-maps the 2 MiB pages from `start` up to `end`, those below 8 GiB; every entry it writes is already
        there. */
    method MapRange(start: u64, end: u64, ghost m: seq<byte>, ghost taken: set<Region>,
                    ghost kernelBase: nat, ghost p: Progress) returns (ghost stored: set<nat>)
      requires start % TWO_MIB == 0 && end % TWO_MIB == 0
      requires Filling(m, taken, kernelBase, p) && p.low == 4096
      modifies ram
      ensures Filling(m, taken, kernelBase, p)
      ensures forall phys :: phys in stored <==> phys % TWO_MIB == 0 && start <= phys < end && phys < 8 * GIB
    {
      var phys := start;
      stored := {};
      while phys < end
        invariant phys % TWO_MIB == 0 && start <= phys && (phys <= end || phys == start)
        invariant Filling(m, taken, kernelBase, p)
        invariant forall a :: a in stored <==> a % TWO_MIB == 0 && start <= a < phys && a < 8 * GIB
        decreases end - phys
      {
        ghost var one := StoreFramebuffer(phys, m, taken, kernelBase, p);
        stored := stored + one;
        NextPage(phys, end);
        phys := phys + TWO_MIB;
      }
    }

    /** The frame buffer's 2 MiB pages, from the one that holds its first byte; the end may wrap around. */
    method MapFramebuffer(base: u64, size: u64, ghost m: seq<byte>, ghost taken: set<Region>,
                          ghost kernelBase: nat, ghost p: Progress) returns (ghost stored: set<nat>)
      requires Filling(m, taken, kernelBase, p) && p.low == 4096
      modifies ram
      ensures Filling(m, taken, kernelBase, p)
      ensures FramebufferPages(base, size, stored)
    {
      stored := {};
      if base != 0 && size != 0 {
        TwoMibMask(base);
        TwoMibMask(Add64(Add64(base, size), 0x1FFFFF));
        WrappedEnd(base, size);
        var start := And(base, Not64(0x1FFFFF));
        var end := And(Add64(Add64(base, size), 0x1FFFFF), Not64(0x1FFFFF));
        stored := MapRange(start, end, m, taken, kernelBase, p);
      }
    }

    method StorePage(i: nat, kernelBase: u64, ghost m: seq<byte>, ghost taken: set<Region>, ghost p: Progress)
      requires Filling(m, taken, kernelBase, p) && i == p.pages < 1024
      requires kernelBase % PAGE == 0 && kernelBase <= 0x4000_0000
      modifies ram
      ensures Filling(m, taken, kernelBase, p.(pages := i + 1))
    {
      TableAt(m, taken, kernelBase, p);
      hide Filling, Value, Advances, Bases;
      var table, index := i / 512, i % 512;
      PageAligned(kernelBase, i);
      AdvancePages(Bases(), kernelBase, p);
      StoreTable(ptHigh[table], index, kernelBase + i * 0x1000, m, taken, kernelBase,
                 p, p.(pages := i + 1), PT_HIGH + table);
    }

    /** The two entries that point to the page tables of the image. */
    method FillPdHigh(ghost m: seq<byte>, ghost taken: set<Region>, ghost kernelBase: nat)
      requires Filling(m, taken, kernelBase, Done(0).(pd := 0))
      modifies ram
      ensures Filling(m, taken, kernelBase, Done(0))
    {
      ghost var p := Done(0).(pd := 0);
      TableAt(m, taken, kernelBase, p);
      hide Filling, Value, Advances, Bases;
      AdvancePd(Bases(), kernelBase, p);
      StoreTable(pdHigh, 0, ptHigh[0], m, taken, kernelBase, p, p.(pd := 1), PD_HIGH);
      AdvancePd(Bases(), kernelBase, p.(pd := 1));
      StoreTable(pdHigh, 1, ptHigh[1], m, taken, kernelBase, p.(pd := 1), Done(0), PD_HIGH);
    }

    /** The image's pages. */
    method MapPages(mappedPages: nat, kernelBase: u64, ghost m: seq<byte>, ghost taken: set<Region>)
      requires Filling(m, taken, kernelBase, Done(0))
      requires kernelBase % PAGE == 0 && kernelBase <= 0x4000_0000 && mappedPages <= 1024
      modifies ram
      ensures Filling(m, taken, kernelBase, Done(mappedPages))
    {
      hide Filling;
      var i := 0;
      while i < mappedPages
        invariant 0 <= i <= mappedPages
        invariant Filling(m, taken, kernelBase, Done(i))
      {
        StorePage(i, kernelBase, m, taken, Done(i));
        i := i + 1;
      }
    }

    /** The high tables: the image's pages, at most 1024 of them. */
    method FillHigh(kernelBase: u64, kernelSize: u64, ghost m: seq<byte>, ghost taken: set<Region>)
      requires Filling(m, taken, kernelBase, Done(0).(pd := 0))
      requires kernelBase % PAGE == 0 && kernelBase <= 0x4000_0000
      modifies ram
      ensures Filling(m, taken, kernelBase, Done(MappedPages(kernelSize)))
    {
      hide Filling;
      var mappedPages := Shr(Add64(kernelSize, 0xFFF), 12);
      if mappedPages > 1024 {
        mappedPages := 1024;
      }
      FillPdHigh(m, taken, kernelBase);
      MapPages(mappedPages, kernelBase, m, taken);
    }

    method SetupKernelPageTables(kernelBase: u64, kernelSize: u64, framebufferBase: u64, framebufferSize: u64)
      returns (ok: bool, ghost framebuffer: set<nat>)
      requires ram == firmware.ram
      requires kernelBase % PAGE == 0 && kernelBase <= 0x4000_0000
      modifies this, firmware, ram
      ensures ok ==> FramebufferPages(framebufferBase, framebufferSize, framebuffer)
      ensures Asked(old(firmware.log), firmware.log, TABLES, ok)
      ensures Untouched(old(ram[..]), ram[..], old(firmware.taken))
      ensures ok ==> |pdLow| == 8 && |ptHigh| == 2 && Bases()[PML4] == pml4
      ensures ok ==> Built(ram[..], Bases(), kernelBase, MappedPages(kernelSize))
    {
      ghost var m, taken := ram[..], firmware.taken;
      framebuffer := {};
      ok := AllocTables(m, taken);
      if !ok { return; }
      Slots();
      ZeroedHolds(ram[..], Bases(), kernelBase);
      FillUpper(m, taken, kernelBase);
      FillLow(m, taken, kernelBase);
      framebuffer := MapFramebuffer(framebufferBase, framebufferSize, m, taken, kernelBase,
                                    START.(root := 3, gib := 8, low := 4096));
      FillHigh(kernelBase, kernelSize, m, taken);
    }
  }

  lemma LargeEntryOf(phys: nat, i: nat)
    requires phys == i * TWO_MIB
    ensures LargeEntry(phys) == i * TWO_MIB + 0x83
  {
    assert phys == (512 * i) * 0x1000;
    EntryValues(512 * i);
  }

  lemma PageAligned(kernelBase: nat, i: nat)
    requires kernelBase % PAGE == 0
    ensures (kernelBase + i * 0x1000) % PAGE == 0
  {
    assert kernelBase + i * 0x1000 == (kernelBase / 0x1000 + i) * 0x1000;
  }

  /** The next multiple of 2 MiB. */
  lemma NextPage(phys: nat, end: nat)
    requires phys % TWO_MIB == 0 && end % TWO_MIB == 0 && phys < end
    ensures (phys + TWO_MIB) % TWO_MIB == 0 && phys + TWO_MIB <= end
    ensures forall a :: a % TWO_MIB == 0 && phys < a ==> a >= phys + TWO_MIB
  {}

  lemma WrappedEnd(base: u64, size: u64)
    ensures Add64(Add64(base, size), 0x1FFFFF) == (base + size + 0x1F_FFFF) % TWO64
  {}

  lemma TwoMibMask(a: u64)
    ensures And(a, Not64(0x1FFFFF)) == a - a % TWO_MIB
    ensures And(a, Not64(0x1FFFFF)) % TWO_MIB == 0 && And(a, Not64(0x1FFFFF)) <= TWO64 - TWO_MIB
  {
    Pow2Values();
    AndHighMask(a, 21);
  }

  lemma FramebufferIndices(phys: u64)
    ensures Shr(phys, 30) == phys / GIB && And(Shr(phys, 21), 0x1FF) == phys / TWO_MIB % 512
  {
    Pow2Values();
    AndLowMask(Shr(phys, 21), 9);
  }

  /** Where the frame buffer's entry goes, the same entry is stored already. */
  lemma FramebufferEntry(phys: u64, bases: seq<nat>, kernelBase: nat, p: Progress)
    requires |bases| == TABLES && p.low == 4096
    requires phys % TWO_MIB == 0 && phys / GIB < 8
    ensures LargeEntry(phys) < TWO64
    ensures Advances(bases, kernelBase, p, p, PD_LOW + phys / GIB, phys / TWO_MIB % 512, LargeEntry(phys))
  {
    LargeEntryOf(phys, phys / TWO_MIB);
    assert 512 * (phys / GIB) + phys / TWO_MIB % 512 == phys / TWO_MIB;
  }
}
