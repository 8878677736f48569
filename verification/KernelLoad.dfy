/** Loading the higher-half kernel and making it visible through the page tables. */
module KernelLoad {
  import opened Bits
  import opened Memory
  import opened Elf
  import opened PageWalk
  import opened KernelTables
  import opened KernelPaging

  datatype Status = Success | LoadError | FirmwareError

  /** What the loader takes for granted about a segment without checking it: its bytes are in the
      file, and its end does not wrap around. */
  ghost predicate SegmentFits(file: seq<byte>, s: Segment) {
    InFile(file, s) && EndOffset(s) <= TWO64 - PAGE
  }

  ghost predicate AllFit(file: seq<byte>, segs: seq<Segment>) {
    forall j :: 0 <= j < |segs| && segs[j].Load() ==> SegmentFits(file, segs[j])
  }

  /** What the loader takes for granted about an ELF file: its headers are in the file, and every
      loadable segment fits. */
  ghost predicate WellFormed(file: seq<byte>) { HasHeaders(file) && AllFit(file, Segments(file)) }

  /** Where a segment starts and ends, as an offset from the high base. */
  function StartOffset(s: Segment): int { s.vaddr - KERNEL_HIGH_BASE }
  function EndOffset(s: Segment): int { s.vaddr - KERNEL_HIGH_BASE + s.memsz }

  predicate Covers(s: Segment, o: nat) { StartOffset(s) <= o < EndOffset(s) }

  predicate Magic(file: seq<byte>)
    requires |file| >= EHDR_SIZE
  {
    file[0] == 0x7F && file[1] == 'E' as int && file[2] == 'L' as int && file[3] == 'F' as int
  }

  /** The loadable ones among the first n segments are in the high half. */
  ghost predicate AllHigh(segs: seq<Segment>, n: nat)
    requires n <= |segs|
  {
    forall j :: 0 <= j < n && segs[j].Load() ==> segs[j].vaddr >= KERNEL_HIGH_BASE
  }

  ghost predicate HighHalf(file: seq<byte>)
    requires HasHeaders(file)
  {
    AllHigh(Segments(file), Phnum(file))
  }

  /** `size` is the end of the highest of the first n segments. */
  ghost predicate IsImageSize(segs: seq<Segment>, n: nat, size: nat)
    requires n <= |segs|
  {
    && (forall j :: 0 <= j < n && segs[j].Load() ==> EndOffset(segs[j]) <= size)
    && (size == 0 || exists j :: 0 <= j < n && segs[j].Load() && size == EndOffset(segs[j]))
  }

  /** The byte that the first n segments leave at offset o: a later segment wins over an earlier. */
  ghost function Loaded(file: seq<byte>, segs: seq<Segment>, n: nat, o: nat): Option<byte>
    requires n <= |segs| && AllFit(file, segs) && AllHigh(segs, n)
  {
    if n == 0 then None
    else if segs[n - 1].Load() && Covers(segs[n - 1], o)
    then Some(ImageByte(file, segs[n - 1], o - StartOffset(segs[n - 1])))
    else Loaded(file, segs, n - 1, o)
  }

  /** Loadable segments occupy disjoint addresses. */
  ghost predicate DisjointSegments(segs: seq<Segment>) {
    forall i, j :: 0 <= i < j < |segs| && segs[i].Load() && segs[j].Load() ==>
      segs[i].vaddr + segs[i].memsz <= segs[j].vaddr || segs[j].vaddr + segs[j].memsz <= segs[i].vaddr
  }

  /** No segment after j, among the first n, covers offset o. */
  ghost predicate LastThere(segs: seq<Segment>, n: nat, j: nat, o: nat)
    requires n <= |segs|
  {
    j < n && segs[j].Load() && Covers(segs[j], o) && forall i :: j < i < n && segs[i].Load() ==> !Covers(segs[i], o)
  }

  /** The last segment that covers an offset decides its byte. */
  lemma {:induction false} LoadedByLast(file: seq<byte>, segs: seq<Segment>, n: nat, j: nat, o: nat)
    requires n <= |segs| && AllFit(file, segs) && AllHigh(segs, n) && LastThere(segs, n, j, o)
    ensures Loaded(file, segs, n, o) == Some(ImageByte(file, segs[j], o - StartOffset(segs[j])))
  {
    if j < n - 1 { LoadedByLast(file, segs, n - 1, j, o); }
  }

  /** With disjoint segments every segment is the last one at its offsets. */
  lemma LoadedInDisjoint(file: seq<byte>, segs: seq<Segment>, n: nat, j: nat, o: nat)
    requires n <= |segs| && AllFit(file, segs) && AllHigh(segs, n) && DisjointSegments(segs)
    requires j < n && segs[j].Load() && Covers(segs[j], o)
    ensures Loaded(file, segs, n, o) == Some(ImageByte(file, segs[j], o - StartOffset(segs[j])))
  {
    LoadedByLast(file, segs, n, j, o);
  }

  lemma {:induction false} LoadedBelowSize(file: seq<byte>, segs: seq<Segment>, n: nat, size: nat, o: nat)
    requires n <= |segs| && AllFit(file, segs) && AllHigh(segs, n)
    requires forall j :: 0 <= j < n && segs[j].Load() ==> EndOffset(segs[j]) <= size
    requires Loaded(file, segs, n, o).Some?
    ensures o < size
  {
    if !(segs[n - 1].Load() && Covers(segs[n - 1], o)) {
      LoadedBelowSize(file, segs, n - 1, size, o);
    }
  }

  /** Memory at `base` holds what the first n segments put there. */
  ghost predicate HoldsImage(m: seq<byte>, base: nat, file: seq<byte>, segs: seq<Segment>, n: nat)
    requires n <= |segs| && AllFit(file, segs) && AllHigh(segs, n)
  {
    forall o: nat {:trigger Loaded(file, segs, n, o)} :: Loaded(file, segs, n, o).Some? ==>
      base + o < |m| && m[base + o] == Loaded(file, segs, n, o).value
  }

  /** Through the page tables at cr3, every loaded byte below 4 MiB is readable at its own
      virtual address. */
  ghost predicate ImageVisible(m: seq<byte>, cr3: nat, file: seq<byte>, segs: seq<Segment>)
    requires AllFit(file, segs) && AllHigh(segs, |segs|)
  {
    forall o: nat {:trigger Loaded(file, segs, |segs|, o)} :: o < 0x40_0000 && Loaded(file, segs, |segs|, o).Some? ==>
      var t := Walk(m, cr3, KERNEL_HIGH_BASE + o);
      t.Mapped? && t.pa < |m| && m[t.pa] == Loaded(file, segs, |segs|, o).value
  }

  /** The address space of a kernel of `size` bytes at physical address `kernelBase`. */
  function AddressSpace(kernelBase: nat, size: nat, va: u64): Translation {
    if va < 8 * GIB then Mapped(va, true)
    else if va >= KERNEL_HIGH_BASE && (va - KERNEL_HIGH_BASE) / PAGE < (size + 0xFFF) / PAGE
            && va - KERNEL_HIGH_BASE < 0x40_0000
    then Mapped(kernelBase + (va - KERNEL_HIGH_BASE), true)
    else Fault
  }

  lemma {:induction false} CoveredLoaded(file: seq<byte>, segs: seq<Segment>, n: nat, j: nat, o: nat)
    requires n <= |segs| && AllFit(file, segs) && AllHigh(segs, n)
    requires j < n && segs[j].Load() && Covers(segs[j], o)
    ensures Loaded(file, segs, n, o).Some?
  {
    if j < n - 1 { CoveredLoaded(file, segs, n - 1, j, o); }
  }

  lemma VisibleBelowLimit(m: seq<byte>, cr3: nat, file: seq<byte>, segs: seq<Segment>, j: nat, k: nat)
    requires AllFit(file, segs) && AllHigh(segs, |segs|) && ImageVisible(m, cr3, file, segs)
    requires j < |segs| && segs[j].Load() && k < segs[j].memsz && StartOffset(segs[j]) + k < 0x40_0000
    ensures var s := segs[j];
            var o := StartOffset(s) + k;
            s.vaddr + k < TWO64 && InFile(file, s) &&
            var t := Walk(m, cr3, s.vaddr + k);
            && t.Mapped? && t.pa < |m|
            && (LastThere(segs, |segs|, j, o) ==> m[t.pa] == if k < s.filesz then file[s.offset + k] else 0)
  {
    var s := segs[j];
    var o := StartOffset(s) + k;
    assert SegmentFits(file, s);
    CoveredLoaded(file, segs, |segs|, j, o);
    if LastThere(segs, |segs|, j, o) { LoadedByLast(file, segs, |segs|, j, o); }
    assert KERNEL_HIGH_BASE + o == s.vaddr + k;
  }

  lemma MappedPagesOf(size: nat)
    requires size <= TWO64 - PAGE
    ensures Shr(Add64(size, 0xFFF), 12) == (size + 0xFFF) / PAGE
    ensures size <= PAGE * ((size + 0xFFF) / PAGE)
    ensures MappedPages(size) == if (size + 0xFFF) / PAGE > 1024 then 1024 else (size + 0xFFF) / PAGE
  {
    Pow2Values();
  }

  /** The sizing pass: refuses a segment below the high base, else finds the image's size. */
  method SizeImage(file: seq<byte>) returns (ok: bool, size: u64)
    requires WellFormed(file)
    ensures ok <==> HighHalf(file)
    ensures ok ==> IsImageSize(Segments(file), Phnum(file), size) && size <= TWO64 - PAGE
  {
    hide Pow2;
    ghost var segs := Segments(file);
    size := 0;
    var j := 0;
    while j < Phnum(file)
      invariant 0 <= j <= |segs| && AllHigh(segs, j)
      invariant IsImageSize(segs, j, size) && size <= TWO64 - PAGE
    {
      var s := ReadSegment(file, j);
      if s.Load() {
        if s.vaddr < KERNEL_HIGH_BASE {
          return false, 0;
        }
        assert SegmentFits(file, segs[j]);
        size := Later(size, s);
      }
      j := j + 1;
    }
    ok := true;
  }

  /** The larger of the size so far and the segment's end, as 64-bit sums. */
  method Later(size: u64, s: Segment) returns (later: u64)
    requires s.vaddr >= KERNEL_HIGH_BASE && EndOffset(s) <= TWO64 - PAGE
    ensures later == if EndOffset(s) > size then EndOffset(s) else size
  {
    var end := Add64(s.vaddr - KERNEL_HIGH_BASE, s.memsz);
    later := if end > size then end else size;
  }

  lemma ImageStep(before: seq<byte>, now: seq<byte>, base: nat, file: seq<byte>, segs: seq<Segment>, j: nat)
    requires j < |segs| && AllFit(file, segs) && AllHigh(segs, j + 1) && segs[j].Load()
    requires HoldsImage(before, base, file, segs, j)
    requires base + EndOffset(segs[j]) <= |before|
    requires var dest := base + StartOffset(segs[j]);
             SameOutside(before, now, dest, dest + segs[j].memsz)
             && forall k :: 0 <= k < segs[j].memsz ==> now[dest + k] == ImageByte(file, segs[j], k)
    ensures HoldsImage(now, base, file, segs, j + 1)
  {
    forall o: nat {:trigger Loaded(file, segs, j + 1, o)} | Loaded(file, segs, j + 1, o).Some?
      ensures base + o < |now| && now[base + o] == Loaded(file, segs, j + 1, o).value
    {
      if Covers(segs[j], o) {
        var k := o - StartOffset(segs[j]);
        assert base + StartOffset(segs[j]) + k == base + o;
      } else {
        assert Loaded(file, segs, j, o) == Loaded(file, segs, j + 1, o);
      }
    }
  }

  lemma ImageSkip(m: seq<byte>, base: nat, file: seq<byte>, segs: seq<Segment>, j: nat)
    requires j < |segs| && AllFit(file, segs) && AllHigh(segs, j) && !segs[j].Load()
    requires HoldsImage(m, base, file, segs, j)
    ensures AllHigh(segs, j + 1) && HoldsImage(m, base, file, segs, j + 1)
  {
    forall o: nat {:trigger Loaded(file, segs, j + 1, o)} | Loaded(file, segs, j + 1, o).Some?
      ensures base + o < |m| && m[base + o] == Loaded(file, segs, j + 1, o).value
    {
      assert Loaded(file, segs, j + 1, o) == Loaded(file, segs, j, o);
    }
  }

  /** One segment of the copy pass: it lies inside the image. */
  method CopyOne(ram: array<byte>, base: nat, file: seq<byte>, ghost segs: seq<Segment>, s: Segment, ghost j: nat,
                 ghost size: nat)
    requires AllFit(file, segs) && AllHigh(segs, |segs|) && IsImageSize(segs, |segs|, size) && base + size <= ram.Length
    requires j < |segs| && s == segs[j] && s.Load() && AllHigh(segs, j) && HoldsImage(ram[..], base, file, segs, j)
    modifies ram
    ensures SameOutside(old(ram[..]), ram[..], base, base + size)
    ensures AllHigh(segs, j + 1) && HoldsImage(ram[..], base, file, segs, j + 1)
  {
    assert SegmentFits(file, s) && EndOffset(s) <= size;
    ghost var before := ram[..];
    CopySegment(ram, base + (s.vaddr - KERNEL_HIGH_BASE), file, s);
    hide Loaded;
    ImageStep(before, ram[..], base, file, segs, j);
  }

  /** The copy pass. */
  method CopyImage(ram: array<byte>, base: nat, file: seq<byte>, size: nat)
    requires WellFormed(file) && HighHalf(file) && IsImageSize(Segments(file), Phnum(file), size)
    requires base + size <= ram.Length
    modifies ram
    ensures HoldsImage(ram[..], base, file, Segments(file), Phnum(file))
    ensures SameOutside(old(ram[..]), ram[..], base, base + size)
  {
    hide Pow2;
    ghost var segs := Segments(file);
    NoImage(ram[..], base, file, segs);
    hide HoldsImage, IsImageSize, AllFit, SameOutside;
    var j := 0;
    while j < Phnum(file)
      invariant 0 <= j <= |segs| && AllHigh(segs, j)
      invariant SameOutside(old(ram[..]), ram[..], base, base + size)
      invariant HoldsImage(ram[..], base, file, segs, j)
    {
      var s := ReadSegment(file, j);
      if s.Load() {
        ghost var before := ram[..];
        CopyOne(ram, base, file, segs, s, j, size);
        OutsideTrans(old(ram[..]), before, ram[..], base, base + size);
      } else {
        ImageSkip(ram[..], base, file, segs, j);
      }
      j := j + 1;
    }
  }

  lemma NoImage(m: seq<byte>, base: nat, file: seq<byte>, segs: seq<Segment>)
    requires AllFit(file, segs)
    ensures HoldsImage(m, base, file, segs, 0)
  {}

  /** The tables realise the address space. */
  lemma AddressSpaceExact(n: seq<byte>, bases: seq<nat>, base: nat, size: nat, va: u64)
    requires size <= TWO64 - PAGE && base % PAGE == 0 && base <= 0x4000_0000
    requires Built(n, bases, base, MappedPages(size))
    ensures Walk(n, bases[PML4], va) == AddressSpace(base, size, va)
  {
    MappedPagesOf(size);
    WalkExact(n, bases, base, MappedPages(size), va);
    assert va >= KERNEL_HIGH_BASE ==> ((va - KERNEL_HIGH_BASE) / PAGE < 1024 <==> va - KERNEL_HIGH_BASE < 0x40_0000);
  }

  /** The image stays where it is while the tables are built, and is visible through them. */
  lemma Visible(m: seq<byte>, n: seq<byte>, bases: seq<nat>, file: seq<byte>, segs: seq<Segment>,
                base: nat, size: nat, taken: set<Region>)
    requires AllFit(file, segs) && AllHigh(segs, |segs|) && IsImageSize(segs, |segs|, size)
    requires size <= TWO64 - PAGE && base % PAGE == 0 && base <= 0x4000_0000
    requires HoldsImage(m, base, file, segs, |segs|)
    requires Untouched(m, n, taken) && Region(base, base + PAGE * ((size + 0xFFF) / PAGE)) in taken
    requires Built(n, bases, base, MappedPages(size))
    ensures ImageVisible(n, bases[PML4], file, segs)
  {
    hide Pow2, Word;
    forall o: nat {:trigger Loaded(file, segs, |segs|, o)} | o < 0x40_0000 && Loaded(file, segs, |segs|, o).Some?
      ensures var t := Walk(n, bases[PML4], KERNEL_HIGH_BASE + o);
              t.Mapped? && t.pa < |n| && n[t.pa] == Loaded(file, segs, |segs|, o).value
    {
      LoadedBelowSize(file, segs, |segs|, size, o);
      AddressSpaceExact(n, bases, base, size, KERNEL_HIGH_BASE + o);
      assert o / PAGE < (size + 0xFFF) / PAGE;
      var r := Region(base, base + PAGE * ((size + 0xFFF) / PAGE));
      assert r in taken && r.lo <= base + o < r.hi;
    }
  }

  /** Writing inside a new region leaves the older ones alone. */
  lemma NewRegion(m: seq<byte>, n: seq<byte>, taken: set<Region>, base: nat, size: nat, length: nat)
    requires SameOutside(m, n, base, base + size) && size <= length
    requires forall r :: r in taken ==> r.Apart(Region(base, base + length))
    ensures Untouched(m, n, taken)
  {
    forall r: Region, a: nat | r in taken && r.lo <= a < r.hi && a < |m| ensures n[a] == m[a] {
      assert r.Apart(Region(base, base + length));
    }
  }

  lemma UntouchedSelf(m: seq<byte>, taken: set<Region>)
    ensures Untouched(m, m, taken)
  {}

  lemma UntouchedTrans(l: seq<byte>, m: seq<byte>, n: seq<byte>, taken: set<Region>, later: set<Region>)
    requires Untouched(l, m, taken) && Untouched(m, n, later) && taken <= later
    ensures Untouched(l, n, taken)
  {}

  /** Memory and address space after a successful load. */
  ghost predicate KernelReady(m: seq<byte>, cr3: nat, file: seq<byte>, segs: seq<Segment>, kernelBase: nat, size: nat) {
    && AllFit(file, segs) && AllHigh(segs, |segs|) && IsImageSize(segs, |segs|, size)
    && ImageVisible(m, cr3, file, segs) && kernelBase % PAGE == 0 && kernelBase <= 0x4000_0000
    && forall va: u64 :: Walk(m, cr3, va) == AddressSpace(kernelBase, size, va)
  }

  /** End to end: byte k of segment j can be read at its virtual address exactly when it lies in the first
      4 MiB of the image; where no later segment covers it, it is byte offset + k of the file, or zero past the
      segment's file contents. */
  lemma SegmentByteVisible(m: seq<byte>, cr3: nat, file: seq<byte>, segs: seq<Segment>, kernelBase: nat, size: nat,
                           j: nat, k: nat)
    requires KernelReady(m, cr3, file, segs, kernelBase, size)
    requires j < |segs| && segs[j].Load() && k < segs[j].memsz
    ensures var s := segs[j];
            && InFile(file, s)
            && (StartOffset(s) + k < 0x40_0000 ==> s.vaddr + k < TWO64)
            && (s.vaddr + k < TWO64 ==>
                  var t := Walk(m, cr3, s.vaddr + k);
                  && (t != Fault <==> StartOffset(s) + k < 0x40_0000)
                  && (t != Fault ==> t.pa < |m|)
                  && (t != Fault && LastThere(segs, |segs|, j, StartOffset(s) + k) ==>
                        m[t.pa] == if k < s.filesz then file[s.offset + k] else 0))
  {
    var s := segs[j];
    assert SegmentFits(file, s);
    if StartOffset(s) + k < 0x40_0000 {
      VisibleBelowLimit(m, cr3, file, segs, j, k);
    } else if s.vaddr + k < TWO64 {
      assert Walk(m, cr3, s.vaddr + k) == AddressSpace(kernelBase, size, s.vaddr + k);
    }
  }

  /** A byte of the frame buffer can be reached at its own address exactly when it lies below 8 GiB. */
  lemma FramebufferReachable(m: seq<byte>, cr3: nat, file: seq<byte>, segs: seq<Segment>, kernelBase: nat, size: nat,
                             a: u64)
    requires KernelReady(m, cr3, file, segs, kernelBase, size)
    ensures Walk(m, cr3, a) == Mapped(a, true) <==> a < 8 * GIB
  {
    assert Walk(m, cr3, a) == AddressSpace(kernelBase, size, a);
  }

  lemma Ready(m: seq<byte>, n: seq<byte>, bases: seq<nat>, file: seq<byte>, segs: seq<Segment>,
              base: nat, size: nat, taken: set<Region>)
    requires AllFit(file, segs) && AllHigh(segs, |segs|) && IsImageSize(segs, |segs|, size)
    requires size <= TWO64 - PAGE && base % PAGE == 0 && base <= 0x4000_0000
    requires HoldsImage(m, base, file, segs, |segs|)
    requires Untouched(m, n, taken) && Region(base, base + PAGE * ((size + 0xFFF) / PAGE)) in taken
    requires Built(n, bases, base, MappedPages(size))
    ensures KernelReady(n, bases[PML4], file, segs, base, size)
  {
    Visible(m, n, bases, file, segs, base, size, taken);
    forall va: u64 ensures Walk(n, bases[PML4], va) == AddressSpace(base, size, va) {
      AddressSpaceExact(n, bases, base, size, va);
    }
  }

  /** What the firmware is asked for: the pages of the image below 1 GiB, and then the fourteen tables; the first
      refusal is the last call. */
  ghost predicate KernelAsked(before: seq<Call>, now: seq<Call>, pages: nat, ok: bool) {
    || (!ok && now == before + [Call(Max(0x3fff_ffff, pages), false)])
    || Asked(before + [Call(Max(0x3fff_ffff, pages), true)], now, TABLES, ok)
  }

  /** Reserve the image's pages and copy it there. */
  method ReserveAndCopy(firmware: Firmware, file: seq<byte>, size: u64) returns (ok: bool, base: nat)
    requires WellFormed(file) && HighHalf(file) && IsImageSize(Segments(file), Phnum(file), size)
    requires size <= TWO64 - PAGE
    modifies firmware, firmware.ram
    ensures firmware.log == old(firmware.log) + [Call(Max(0x3fff_ffff, (size + 0xFFF) / PAGE), ok)]
    ensures Untouched(old(firmware.ram[..]), firmware.ram[..], old(firmware.taken))
    ensures old(firmware.taken) <= firmware.taken
    ensures ok ==> HoldsImage(firmware.ram[..], base, file, Segments(file), Phnum(file))
                   && base % PAGE == 0 && base <= 0x4000_0000
                   && Region(base, base + PAGE * ((size + 0xFFF) / PAGE)) in firmware.taken
  {
    hide Pow2;
    MappedPagesOf(size);
    hide HoldsImage, IsImageSize, Shr, Loaded;
    var pages := Shr(Add64(size, 0xFFF), 12);
    ghost var before, taken := firmware.ram[..], firmware.taken;
    ok, base := firmware.AllocateMax(0x3fff_ffff, pages);
    if ok {
      CopyImage(firmware.ram, base, file, size);
      NewRegion(before, firmware.ram[..], taken, base, size, PAGE * pages);
    }
  }

  /** Allocate, copy, build the tables: everything after the sizing pass. */
  method PlaceKernel(paging: Paging, file: seq<byte>, size: u64, framebufferBase: u64, framebufferSize: u64)
    returns (ok: bool, base: nat)
    requires paging.ram == paging.firmware.ram
    requires WellFormed(file) && HighHalf(file) && IsImageSize(Segments(file), Phnum(file), size)
    requires size <= TWO64 - PAGE
    modifies paging, paging.firmware, paging.ram
    ensures KernelAsked(old(paging.firmware.log), paging.firmware.log, (size + 0xFFF) / PAGE, ok)
    ensures Untouched(old(paging.ram[..]), paging.ram[..], old(paging.firmware.taken))
    ensures ok ==> KernelReady(paging.ram[..], paging.pml4, file, Segments(file), base, size)
  {
    ghost var l, taken := paging.ram[..], paging.firmware.taken;
    ok, base := ReserveAndCopy(paging.firmware, file, size);
    if !ok {
      return;
    }
    ghost var m, later := paging.ram[..], paging.firmware.taken;
    ghost var framebuffer;
    ok, framebuffer := paging.SetupKernelPageTables(base, size, framebufferBase, framebufferSize);
    UntouchedTrans(l, m, paging.ram[..], taken, later);
    if ok {
      Ready(m, paging.ram[..], paging.Bases(), file, Segments(file), base, size, later);
    }
  }

  /** The part of `load_kernel` that follows reading the file. A file shorter than a header is
      reported as a success without an entry point, as the code does. */
  method LoadKernel(paging: Paging, file: seq<byte>, framebufferBase: u64, framebufferSize: u64)
    returns (status: Status, entry: u64, ghost kernelBase: nat, ghost size: nat)
    requires paging.ram == paging.firmware.ram
    requires |file| >= EHDR_SIZE && Magic(file) ==> WellFormed(file)
    modifies paging, paging.firmware, paging.ram
    ensures Untouched(old(paging.ram[..]), paging.ram[..], old(paging.firmware.taken))
    ensures |file| < EHDR_SIZE ==> status == Success
    ensures status == LoadError <==> |file| >= EHDR_SIZE && !(Magic(file) && HighHalf(file))
    ensures status == LoadError || |file| < EHDR_SIZE ==> paging.firmware.log == old(paging.firmware.log)
    ensures status != LoadError && |file| >= EHDR_SIZE ==>
              && IsImageSize(Segments(file), Phnum(file), size)
              && KernelAsked(old(paging.firmware.log), paging.firmware.log, (size + 0xFFF) / PAGE, status == Success)
    ensures status == LoadError || |file| < EHDR_SIZE ==> paging.ram[..] == old(paging.ram[..])
    ensures status != Success || |file| < EHDR_SIZE ==> entry == 0
    ensures status == Success && |file| >= EHDR_SIZE ==>
              entry == Entry(file) && Magic(file)
              && KernelReady(paging.ram[..], paging.pml4, file, Segments(file), kernelBase, size)
  {
    hide KernelAsked, KernelReady, IsImageSize, HighHalf, Untouched, AllFit, Magic;
    UntouchedSelf(paging.ram[..], paging.firmware.taken);
    status, entry, kernelBase, size := Success, 0, 0, 0;
    if |file| < EHDR_SIZE {
      return;
    }
    if !Magic(file) {
      status := LoadError;
      return;
    }
    var high, maxOffset := SizeImage(file);
    if !high {
      status := LoadError;
      return;
    }
    var ok, base := PlaceKernel(paging, file, maxOffset, framebufferBase, framebufferSize);
    size := maxOffset;
    if !ok {
      status := FirmwareError;
      return;
    }
    entry, kernelBase := Entry(file), base;
  }
}
