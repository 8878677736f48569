/** The UEFI loader for a fixed-address ELF64 executable: one pass checks the file, the second
    places it and relies on what the first pass checked. */
module Elf64Exec {
  import opened Bits
  import opened Memory
  import opened Elf

  const MAX64: u64 := 0xffff_ffff_ffff_ffff
  const FOUR_GIB: nat := 0x1_0000_0000

  // ---------- alignment ----------

  function AlignDown(value: u64, align: u64): nat { And(value, Not64(Sub64(align, 1))) }

  function AlignUpChecked(value: u64, align: u64): Option<nat> {
    if align == 0 || And(align, align - 1) != 0 || value > MAX64 - (align - 1) then None
    else Some(And(Sub64(Add64(value, align), 1), Not64(align - 1)))
  }

  predicate IsPowerOfTwo(a: nat) { exists k: nat :: k <= a && a == Pow2(k) }

  lemma {:induction false} ExponentBelow(k: nat)
    ensures k < Pow2(k)
  {
    if k > 0 { ExponentBelow(k - 1); }
  }

  /** A 64-bit power of two has an exponent below 64, and divides 2^64. */
  lemma Exponent64(align: u64) returns (k: nat)
    requires IsPowerOfTwo(align)
    ensures k < 64 && align == Pow2(k)
    ensures TWO64 % align == 0
  {
    k :| k <= align && align == Pow2(k);
    Pow2Values();
    if k >= 64 { Pow2Monotone(64, k); }
    Pow2Add(64 - k, k);
    DivModUnique(TWO64, align, Pow2(64 - k), 0);
  }

  lemma RoundDown(value: nat, d: nat)
    requires d > 0
    ensures value % d <= value && (value - value % d) % d == 0
  {
    var q, r := value / d, value % d;
    assert value == q * d + r;
    MulLe(0, q, d);
    DivModUnique(q * d, d, q, 0);
  }

  /** The largest multiple of `align` that is at most `value`. */
  lemma AlignDownExact(value: u64, align: u64)
    requires IsPowerOfTwo(align)
    ensures AlignDown(value, align) == value - value % align
    ensures AlignDown(value, align) % align == 0 && AlignDown(value, align) <= value < AlignDown(value, align) + align
  {
    var k := Exponent64(align);
    AndHighMask(value, k);
    OneLess(align);
    RoundDown(value, align);
  }

  lemma OneLess(align: u64)
    requires align > 0
    ensures Sub64(align, 1) == align - 1
  {}

  /** No multiple of d lies strictly between two consecutive ones. */
  lemma MultipleGap(a: nat, b: nat, d: nat)
    requires d > 0 && a % d == 0 && b % d == 0 && a < b
    ensures a + d <= b
  {
    var p, q := a / d, b / d;
    assert a == p * d && b == q * d;
    if q <= p { MulLe(q, p, d); } else { MulLe(p + 1, q, d); }
  }

  lemma MulLe(p: nat, q: nat, d: nat)
    requires p <= q
    ensures p * d <= q * d
  {}

  lemma AlignUpFits(value: u64, align: u64)
    requires IsPowerOfTwo(align) && value <= MAX64 - (align - 1)
    ensures var r := And(Sub64(Add64(value, align), 1), Not64(align - 1));
            r < TWO64 && r % align == 0 && value <= r < value + align
  {
    var k := Exponent64(align);
    var top := value + align - 1;
    WrapBack(value, align);
    AndHighMask(top, k);
    RoundDown(top, align);
  }

  /** `value + align - 1`, computed with a sum that may wrap. */
  lemma WrapBack(value: u64, align: u64)
    requires 0 < align && value <= MAX64 - (align - 1)
    ensures Sub64(Add64(value, align), 1) == value + align - 1
  {}

  lemma NothingFits(value: u64, align: u64)
    requires IsPowerOfTwo(align) && value > MAX64 - (align - 1)
    ensures forall r: nat :: r % align == 0 && value <= r ==> r >= TWO64
  {
    var k := Exponent64(align);
    forall r: nat | r % align == 0 && value <= r ensures r >= TWO64 {
      if r < TWO64 { MultipleGap(r, TWO64, align); }
    }
  }

  lemma TestIsPowerOfTwo(align: u64)
    ensures align != 0 && And(align, align - 1) == 0 <==> IsPowerOfTwo(align)
  {
    if IsPowerOfTwo(align) {
      var k: nat :| k <= align && align == Pow2(k);
      PowerOfTwoTest(align);
      assert exists j: nat :: align == Pow2(j);
    } else if align != 0 {
      PowerOfTwoTest(align);
      if And(align, align - 1) == 0 {
        var e: nat :| align == Pow2(e);
        ExponentBelow(e);
        assert false;
      }
    }
  }

  /** Rounding up succeeds exactly when `align` is a power of two and some multiple of it
      at or above `value` fits in 64 bits; its result is the least such multiple. */
  lemma AlignUpExact(value: u64, align: u64)
    ensures AlignUpChecked(value, align).Some? <==>
              IsPowerOfTwo(align) && exists r: nat :: r % align == 0 && value <= r < TWO64
    ensures AlignUpChecked(value, align).Some? ==>
              var r := AlignUpChecked(value, align).value;
              r < TWO64 && r % align == 0 && value <= r < value + align
  {
    TestIsPowerOfTwo(align);
    if IsPowerOfTwo(align) {
      if value > MAX64 - (align - 1) {
        NothingFits(value, align);
      } else {
        AlignUpFits(value, align);
        var r := AlignUpChecked(value, align).value;
        assert r % align == 0 && value <= r < TWO64;
      }
    }
  }

  // ---------- what the first pass accepts ----------

  ghost predicate HeaderOk(buf: seq<byte>) {
    && |buf| >= EHDR_SIZE
    && buf[0] == 0x7f && buf[1] == 'E' as int && buf[2] == 'L' as int && buf[3] == 'F' as int
    && buf[4] == 2 && buf[5] == 1 && buf[6] == 1          // 64-bit, little-endian, current version
    && U16(buf, 16) == 2 && U16(buf, 18) == 62            // executable, x86-64
    && U16(buf, 52) == EHDR_SIZE && U16(buf, 54) == PHDR_SIZE
    && Phnum(buf) != 0 && HasHeaders(buf)
  }

  /** First and last page boundary around a segment. */
  function PageStart(s: Segment): nat { s.paddr - s.paddr % PAGE }
  function PageEnd(s: Segment): nat { (s.paddr + s.memsz + PAGE - 1) / PAGE * PAGE }

  ghost predicate SegmentOk(buf: seq<byte>, s: Segment) {
    && InFile(buf, s)
    && s.paddr == s.vaddr && s.paddr != 0
    && s.paddr + s.memsz <= MAX64
    && PageStart(s) < PageEnd(s) <= FOUR_GIB
  }

  predicate Contains(s: Segment, a: nat) { s.paddr <= a < s.paddr + s.memsz }

  ghost predicate SegmentsOk(buf: seq<byte>, segs: seq<Segment>, n: nat)
    requires n <= |segs|
  {
    forall j :: 0 <= j < n && segs[j].Load() ==> SegmentOk(buf, segs[j])
  }

  ghost predicate EntryIn(entry: nat, segs: seq<Segment>, n: nat)
    requires n <= |segs|
  {
    exists j :: 0 <= j < n && segs[j].Load() && Contains(segs[j], entry)
  }

  /** A loadable executable. */
  ghost predicate Loadable(buf: seq<byte>) {
    HeaderOk(buf) &&
    var segs := Segments(buf);
    SegmentsOk(buf, segs, |segs|) && EntryIn(Entry(buf), segs, |segs|)
  }

  /** [low, high) is the smallest run of pages around the first n segments, if there are any. */
  ghost predicate Span(segs: seq<Segment>, n: nat, low: nat, high: nat)
    requires n <= |segs|
  {
    && (forall j :: 0 <= j < n && segs[j].Load() ==> low <= PageStart(segs[j]) && PageEnd(segs[j]) <= high)
    && (low == MAX64 || exists j :: 0 <= j < n && segs[j].Load() && low == PageStart(segs[j]))
    && (high == 0 || exists j :: 0 <= j < n && segs[j].Load() && high == PageEnd(segs[j]))
    && (low == MAX64 || low % PAGE == 0) && high % PAGE == 0 && high <= FOUR_GIB
  }

  lemma PageSizeIsPowerOfTwo()
    ensures IsPowerOfTwo(4096)
  {
    Pow2Values();
    assert 12 <= 4096 && 4096 == Pow2(12);
  }

  lemma RoundUpUnique(end: nat, r: nat)
    requires r % PAGE == 0 && end <= r < end + PAGE
    ensures r == (end + PAGE - 1) / PAGE * PAGE
  {}

  /** The page boundaries around [start, end), unless they are empty or beyond 4 GiB. */
  method PageBounds(start: u64, end: u64) returns (ok: bool, pageStart: u64, pageEnd: u64)
    requires start <= end
    ensures ok <==> start - start % PAGE < (end + PAGE - 1) / PAGE * PAGE <= FOUR_GIB
    ensures ok ==> pageStart == start - start % PAGE && pageEnd == (end + PAGE - 1) / PAGE * PAGE
  {
    ok, pageStart, pageEnd := false, 0, 0;
    PageSizeIsPowerOfTwo();
    AlignDownExact(start, 4096);
    pageStart := AlignDown(start, 4096);
    var up := AlignUpChecked(end, 4096);
    AlignUpExact(end, 4096);
    if up == None {
      NoRoundUp(end);
      return;
    }
    RoundUpUnique(end, up.value);
    if up.value <= pageStart || up.value > FOUR_GIB {
      return;
    }
    ok, pageEnd := true, up.value;
  }

  /** The first pass over one header; `pageStart`, `pageEnd` bound an accepted segment. */
  method CheckSegment(buf: seq<byte>, s: Segment)
    returns (ok: bool, segmentEnd: u64, pageStart: u64, pageEnd: u64)
    requires |buf| <= MAX64
    ensures ok <==> SegmentOk(buf, s)
    ensures ok ==> segmentEnd == s.paddr + s.memsz && pageStart == PageStart(s) && pageEnd == PageEnd(s)
  {
    ok, segmentEnd, pageStart, pageEnd := false, 0, 0, 0;
    if s.offset > |buf| || s.filesz > |buf| - s.offset || s.filesz > s.memsz || s.paddr != s.vaddr
       || s.paddr == 0 || s.memsz > MAX64 - s.paddr {
      return;
    }
    segmentEnd := Add64(s.paddr, s.memsz);
    ok, pageStart, pageEnd := PageBounds(s.paddr, segmentEnd);
  }

  /** Where rounding up would leave 64 bits, the page end is beyond 4 GiB anyway. */
  lemma NoRoundUp(end: u64)
    requires forall r: nat :: r % 4096 == 0 && end <= r ==> r >= TWO64
    ensures (end + PAGE - 1) / PAGE * PAGE > FOUR_GIB
  {
    var r := (end + PAGE - 1) / PAGE * PAGE;
    assert r % 4096 == 0 && end <= r;
  }

  method CheckHeader(buf: seq<byte>) returns (ok: bool)
    ensures ok <==> HeaderOk(buf)
  {
    if |buf| < EHDR_SIZE
       || buf[0] != 0x7f || buf[1] != 'E' as int || buf[2] != 'L' as int || buf[3] != 'F' as int
       || buf[4] != 2 || buf[5] != 1 || buf[6] != 1
       || U16(buf, 16) != 2 || U16(buf, 18) != 62
       || U16(buf, 52) != EHDR_SIZE || U16(buf, 54) != PHDR_SIZE
       || Phnum(buf) == 0 || Phoff(buf) > |buf|
       || Phnum(buf) > (|buf| - Phoff(buf)) / PHDR_SIZE {
      return false;
    }
    return true;
  }

  /** The first pass. */
  method Validate(buf: seq<byte>) returns (ok: bool, low: u64, high: u64)
    requires |buf| <= MAX64
    ensures ok <==> Loadable(buf)
    ensures ok ==> Span(Segments(buf), Phnum(buf), low, high) && low < high && low % PAGE == 0
  {
    low, high := MAX64, 0;
    ok := CheckHeader(buf);
    if ok {
      ok, low, high := CheckSegments(buf, Phnum(buf), Entry(buf), Segments(buf));
    }
  }

  /** What the first pass knows after n headers. */
  ghost predicate Checked(buf: seq<byte>, entry: nat, segs: seq<Segment>, n: nat, low: nat, high: nat, inSegment: bool)
    requires n <= |segs|
  {
    SegmentsOk(buf, segs, n) && Span(segs, n, low, high) && (inSegment <==> EntryIn(entry, segs, n))
  }

  lemma NothingChecked(buf: seq<byte>, entry: nat, segs: seq<Segment>)
    ensures Checked(buf, entry, segs, 0, MAX64, 0, false)
  {}

  lemma Refused(buf: seq<byte>, segs: seq<Segment>, i: nat)
    requires i < |segs| && segs[i].Load() && !SegmentOk(buf, segs[i])
    ensures !SegmentsOk(buf, segs, |segs|)
  {}

  lemma CheckedSkip(buf: seq<byte>, entry: nat, segs: seq<Segment>, i: nat, low: nat, high: nat, inSegment: bool)
    requires i < |segs| && Checked(buf, entry, segs, i, low, high, inSegment) && !segs[i].Load()
    ensures Checked(buf, entry, segs, i + 1, low, high, inSegment)
  {
    EntryStep(entry, segs, i);
    SpanStep(buf, segs, i, low, high);
  }

  lemma CheckedLoad(buf: seq<byte>, entry: nat, segs: seq<Segment>, i: nat, low: nat, high: nat, inSegment: bool,
                    low': nat, high': nat, inSegment': bool)
    requires i < |segs| && Checked(buf, entry, segs, i, low, high, inSegment)
    requires segs[i].Load() && SegmentOk(buf, segs[i])
    requires low' == if PageStart(segs[i]) < low then PageStart(segs[i]) else low
    requires high' == if PageEnd(segs[i]) > high then PageEnd(segs[i]) else high
    requires inSegment' <==> inSegment || Contains(segs[i], entry)
    ensures Checked(buf, entry, segs, i + 1, low', high', inSegment')
  {
    EntryStep(entry, segs, i);
    SpanStep(buf, segs, i, low, high);
  }

  lemma CheckedDone(buf: seq<byte>, entry: nat, segs: seq<Segment>, low: nat, high: nat, inSegment: bool)
    requires Checked(buf, entry, segs, |segs|, low, high, inSegment)
    ensures SegmentsOk(buf, segs, |segs|) && Span(segs, |segs|, low, high)
    ensures low == MAX64 || high <= low || !inSegment <==> !EntryIn(entry, segs, |segs|)
    ensures low != MAX64 ==> low % PAGE == 0
  {
    EntryWithinSpan(buf, segs, entry, low, high);
  }

  method CheckSegments(buf: seq<byte>, phnum: nat, entry: nat, ghost segs: seq<Segment>)
    returns (ok: bool, low: u64, high: u64)
    requires HasHeaders(buf) && phnum == Phnum(buf) && segs == Segments(buf) && |buf| <= MAX64
    ensures ok <==> SegmentsOk(buf, segs, |segs|) && EntryIn(entry, segs, |segs|)
    ensures ok ==> Span(segs, |segs|, low, high) && low < high && low % PAGE == 0
  {
    hide Pow2;
    low, high := MAX64, 0;
    var entryInSegment := false;
    var i := 0;
    NothingChecked(buf, entry, segs);
    hide Checked, Span, SegmentsOk, EntryIn;
    while i < phnum
      invariant 0 <= i <= |segs| && Checked(buf, entry, segs, i, low, high, entryInSegment)
    {
      ok, low, high, entryInSegment := CheckNext(buf, entry, segs, i, low, high, entryInSegment);
      if !ok { return; }
      i := i + 1;
    }
    CheckedDone(buf, entry, segs, low, high, entryInSegment);
    ok := !(low == MAX64 || high <= low || !entryInSegment);
  }

  /** One header of the first pass. */
  method CheckNext(buf: seq<byte>, entry: nat, ghost segs: seq<Segment>, i: nat, low0: u64, high0: u64, in0: bool)
    returns (ok: bool, low: u64, high: u64, entryInSegment: bool)
    requires HasHeaders(buf) && segs == Segments(buf) && i < |segs| && |buf| <= MAX64
    requires Checked(buf, entry, segs, i, low0, high0, in0)
    ensures ok ==> Checked(buf, entry, segs, i + 1, low, high, entryInSegment)
    ensures !ok ==> !SegmentsOk(buf, segs, |segs|)
  {
    hide Checked, Span, SegmentsOk, SegmentOk, EntryIn, PageStart, PageEnd;
    ok, low, high, entryInSegment := true, low0, high0, in0;
    var s := ReadSegment(buf, i);
    if s.Load() {
      var segmentEnd, pageStart, pageEnd;
      ok, segmentEnd, pageStart, pageEnd := CheckSegment(buf, s);
      if !ok {
        Refused(buf, segs, i);
        return;
      }
      if pageStart < low { low := pageStart; }
      if pageEnd > high { high := pageEnd; }
      if entry >= s.paddr && entry < segmentEnd { entryInSegment := true; }
      CheckedLoad(buf, entry, segs, i, low0, high0, in0, low, high, entryInSegment);
    } else {
      CheckedSkip(buf, entry, segs, i, low, high, entryInSegment);
    }
  }

  lemma SpanStep(buf: seq<byte>, segs: seq<Segment>, i: nat, low: nat, high: nat)
    requires i < |segs| && Span(segs, i, low, high)
    ensures !segs[i].Load() ==> Span(segs, i + 1, low, high)
    ensures segs[i].Load() && SegmentOk(buf, segs[i]) ==>
              var s := segs[i];
              Span(segs, i + 1, if PageStart(s) < low then PageStart(s) else low,
                   if PageEnd(s) > high then PageEnd(s) else high)
  {
    PageMultiples(segs[i]);
  }

  lemma PageMultiples(s: Segment)
    ensures PageStart(s) % PAGE == 0 && PageEnd(s) % PAGE == 0
  {}

  lemma EntryStep(entry: nat, segs: seq<Segment>, i: nat)
    requires i < |segs|
    ensures EntryIn(entry, segs, i + 1) <==> EntryIn(entry, segs, i) || (segs[i].Load() && Contains(segs[i], entry))
  {
    if EntryIn(entry, segs, i + 1) {
      var j :| 0 <= j < i + 1 && segs[j].Load() && Contains(segs[j], entry);
      assert j == i || j < i;
    }
  }

  /** With the entry point in a segment, the span is not empty. */
  lemma EntryWithinSpan(buf: seq<byte>, segs: seq<Segment>, entry: nat, low: nat, high: nat)
    requires SegmentsOk(buf, segs, |segs|) && Span(segs, |segs|, low, high)
    ensures EntryIn(entry, segs, |segs|) ==> low < high && low != MAX64 && entry != 0
  {
    if EntryIn(entry, segs, |segs|) {
      var j :| 0 <= j < |segs| && segs[j].Load() && Contains(segs[j], entry);
      assert SegmentOk(buf, segs[j]) && low <= PageStart(segs[j]);
    }
  }

  // ---------- what the second pass leaves in memory ----------

  /** The byte at physical address a after the first n segments: the last segment that covers it
      decides, and where none does it is zero. */
  ghost function PhysicalByte(buf: seq<byte>, segs: seq<Segment>, n: nat, a: nat): byte
    requires n <= |segs| && SegmentsOk(buf, segs, n)
  {
    if n == 0 then 0
    else if segs[n - 1].Load() && Contains(segs[n - 1], a)
    then ImageByte(buf, segs[n - 1], a - segs[n - 1].paddr)
    else PhysicalByte(buf, segs, n - 1, a)
  }

  /** The last segment that covers an address decides its byte. */
  lemma {:induction false} PhysicalByteByLast(buf: seq<byte>, segs: seq<Segment>, n: nat, j: nat, a: nat)
    requires n <= |segs| && SegmentsOk(buf, segs, n)
    requires j < n && segs[j].Load() && Contains(segs[j], a)
    requires forall i :: j < i < n && segs[i].Load() ==> !Contains(segs[i], a)
    ensures PhysicalByte(buf, segs, n, a) == ImageByte(buf, segs[j], a - segs[j].paddr)
  {
    if j < n - 1 { PhysicalByteByLast(buf, segs, n - 1, j, a); }
  }

  /** Outside every segment there are only zeros. */
  lemma {:induction false} PhysicalByteInGap(buf: seq<byte>, segs: seq<Segment>, n: nat, a: nat)
    requires n <= |segs| && SegmentsOk(buf, segs, n)
    requires forall j :: 0 <= j < n && segs[j].Load() ==> !Contains(segs[j], a)
    ensures PhysicalByte(buf, segs, n, a) == 0
  {
    if n > 0 { PhysicalByteInGap(buf, segs, n - 1, a); }
  }

  /** An accepted segment lies in [low, high), so its second-pass writes do too. */
  lemma SegmentInSpan(buf: seq<byte>, segs: seq<Segment>, j: nat, low: nat, high: nat)
    requires SegmentsOk(buf, segs, |segs|) && Span(segs, |segs|, low, high)
    requires j < |segs| && segs[j].Load()
    ensures low <= segs[j].paddr && segs[j].paddr + segs[j].memsz <= high
  {
    assert low <= PageStart(segs[j]) <= segs[j].paddr;
    assert segs[j].paddr + segs[j].memsz <= PageEnd(segs[j]) <= high;
  }

  /** [low, high) holds what the first n segments put there. */
  ghost predicate PlacedSoFar(buf: seq<byte>, segs: seq<Segment>, n: nat, m: seq<byte>, low: nat, high: nat)
    requires n <= |segs|
  {
    SegmentsOk(buf, segs, n) && high <= |m| && forall a :: low <= a < high ==> m[a] == PhysicalByte(buf, segs, n, a)
  }

  lemma NothingPlaced(buf: seq<byte>, segs: seq<Segment>, m: seq<byte>, low: nat, high: nat)
    requires high <= |m| && forall a :: low <= a < high ==> m[a] == 0
    ensures PlacedSoFar(buf, segs, 0, m, low, high)
  {}

  lemma PlaceStep(buf: seq<byte>, segs: seq<Segment>, i: nat, before: seq<byte>, now: seq<byte>, low: nat, high: nat)
    requires i < |segs| && SegmentsOk(buf, segs, |segs|) && segs[i].Load()
    requires PlacedSoFar(buf, segs, i, before, low, high)
    requires SameOutside(before, now, segs[i].paddr, segs[i].paddr + segs[i].memsz)
    requires forall a :: segs[i].paddr <= a < segs[i].paddr + segs[i].memsz && a < |now| ==>
               now[a] == ImageByte(buf, segs[i], a - segs[i].paddr)
    ensures PlacedSoFar(buf, segs, i + 1, now, low, high)
  {}

  /** One segment of the second pass: all its writes lie in [low, high). */
  method PlaceOne(ram: array<byte>, buf: seq<byte>, ghost segs: seq<Segment>, s: Segment, ghost i: nat,
                  ghost low: nat, ghost high: nat)
    requires SegmentsOk(buf, segs, |segs|) && Span(segs, |segs|, low, high) && high <= ram.Length
    requires i < |segs| && s == segs[i] && s.Load() && PlacedSoFar(buf, segs, i, ram[..], low, high)
    modifies ram
    ensures SameOutside(old(ram[..]), ram[..], low, high)
    ensures PlacedSoFar(buf, segs, i + 1, ram[..], low, high)
  {
    SegmentInSpan(buf, segs, i, low, high);
    ghost var before := ram[..];
    assert SegmentOk(buf, s);
    CopySegment(ram, s.paddr, buf, s);
    PlaceStep(buf, segs, i, before, ram[..], low, high);
  }

  /** The second pass, over zeroed memory. */
  method Place(ram: array<byte>, buf: seq<byte>, ghost segs: seq<Segment>, low: nat, high: nat)
    requires HasHeaders(buf) && segs == Segments(buf)
    requires SegmentsOk(buf, segs, |segs|) && Span(segs, |segs|, low, high)
    requires low < high <= ram.Length
    requires forall a :: low <= a < high ==> ram[a] == 0
    modifies ram
    ensures SameOutside(old(ram[..]), ram[..], low, high)
    ensures PlacedSoFar(buf, segs, |segs|, ram[..], low, high)
  {
    hide Pow2;
    NothingPlaced(buf, segs, ram[..], low, high);
    var i := 0;
    hide PlacedSoFar, SegmentsOk, Span, SameOutside;
    while i < Phnum(buf)
      invariant 0 <= i <= |segs|
      invariant SameOutside(old(ram[..]), ram[..], low, high)
      invariant PlacedSoFar(buf, segs, i, ram[..], low, high)
    {
      var s := ReadSegment(buf, i);
      if s.Load() {
        ghost var before := ram[..];
        PlaceOne(ram, buf, segs, s, i, low, high);
        OutsideTrans(old(ram[..]), before, ram[..], low, high);
      } else {
        PlacedSkip(buf, segs, i, ram[..], low, high);
      }
      i := i + 1;
    }
  }

  lemma PlacedSkip(buf: seq<byte>, segs: seq<Segment>, i: nat, m: seq<byte>, low: nat, high: nat)
    requires i < |segs| && !segs[i].Load() && PlacedSoFar(buf, segs, i, m, low, high)
    ensures PlacedSoFar(buf, segs, i + 1, m, low, high)
  {}

  /** Zero the run of pages, then place the segments. */
  method PlaceAll(ram: array<byte>, buf: seq<byte>, ghost segs: seq<Segment>, low: nat, high: nat)
    requires HasHeaders(buf) && segs == Segments(buf)
    requires SegmentsOk(buf, segs, |segs|) && Span(segs, |segs|, low, high)
    requires low < high <= ram.Length
    modifies ram
    ensures SameOutside(old(ram[..]), ram[..], low, high)
    ensures PlacedSoFar(buf, segs, |segs|, ram[..], low, high)
  {
    MemSet(ram, low, 0, high - low);
    Place(ram, buf, segs, low, high);
  }

  /** What a successful load leaves behind. */
  ghost predicate LoadedAt(buf: seq<byte>, segs: seq<Segment>, m: seq<byte>, n: seq<byte>, low: nat, high: nat) {
    && SegmentsOk(buf, segs, |segs|) && Span(segs, |segs|, low, high) && low < high
    && SameOutside(m, n, low, high) && PlacedSoFar(buf, segs, |segs|, n, low, high)
  }

  /** `load_elf64_exec`: the entry point, or 0 when the file is refused or the firmware does not
      grant the pages. Only for a loadable file is it asked for pages, once, and for exactly those around the
      segments. */
  method LoadElf64Exec(firmware: Firmware, buf: seq<byte>) returns (entry: u64, ghost low: nat, ghost high: nat)
    requires |buf| <= MAX64
    modifies firmware, firmware.ram
    ensures !Loadable(buf) ==> entry == 0 && firmware.log == old(firmware.log)
    ensures Loadable(buf) ==>
              && Span(Segments(buf), Phnum(buf), low, high) && low < high && low % PAGE == 0
              && firmware.log == old(firmware.log) + [Call(At(low, (high - low) / PAGE), entry != 0)]
    ensures entry == 0 ==> firmware.ram[..] == old(firmware.ram[..])
    ensures entry != 0 ==> Loadable(buf) && entry == Entry(buf)
                           && LoadedAt(buf, Segments(buf), old(firmware.ram[..]), firmware.ram[..], low, high)
                           && firmware.taken == old(firmware.taken) + {Region(low, high)}
                           && forall r :: r in old(firmware.taken) ==> r.Apart(Region(low, high))
  {
    hide Pow2, PlacedSoFar, PhysicalByte, EntryIn, SameOutside, SegmentsOk;
    var ok, lo, hi := Validate(buf);
    entry, low, high := 0, lo, hi;
    if !ok { return; }
    var pages := (hi - lo) / 4096;
    if pages == 0 || pages * 4096 != hi - lo {
      WholePages(Segments(buf), lo, hi);
      assert false;
      return;
    }
    ok := firmware.AllocateAt(lo, pages);
    if !ok { return; }
    PlaceAll(firmware.ram, buf, Segments(buf), lo, hi);
    entry := Entry(buf);
    EntryWithinSpan(buf, Segments(buf), entry, lo, hi);
  }

  lemma WholePages(segs: seq<Segment>, low: nat, high: nat)
    requires Span(segs, |segs|, low, high) && low < high && low % PAGE == 0
    ensures (high - low) / 4096 > 0 && (high - low) / 4096 * 4096 == high - low
  {}

  /** What the caller gets: every byte of every segment in place that no later segment covers, ... */
  lemma SegmentLoaded(buf: seq<byte>, segs: seq<Segment>, m: seq<byte>, n: seq<byte>, low: nat, high: nat,
                      j: nat, k: nat)
    requires LoadedAt(buf, segs, m, n, low, high)
    requires j < |segs| && segs[j].Load() && k < segs[j].memsz
    requires forall i :: j < i < |segs| && segs[i].Load() ==> !Contains(segs[i], segs[j].paddr + k)
    ensures var s := segs[j];
            InFile(buf, s) && low <= s.paddr + k < high
            && n[s.paddr + k] == if k < s.filesz then buf[s.offset + k] else 0
  {
    assert SegmentOk(buf, segs[j]);
    SegmentInSpan(buf, segs, j, low, high);
    PhysicalByteByLast(buf, segs, |segs|, j, segs[j].paddr + k);
  }

  /** ... and zeros everywhere else in the run of pages. */
  lemma GapZeroed(buf: seq<byte>, segs: seq<Segment>, m: seq<byte>, n: seq<byte>, low: nat, high: nat, a: nat)
    requires LoadedAt(buf, segs, m, n, low, high) && low <= a < high
    requires forall j :: 0 <= j < |segs| && segs[j].Load() ==> !Contains(segs[j], a)
    ensures n[a] == 0
  {
    PhysicalByteInGap(buf, segs, |segs|, a);
  }
}
