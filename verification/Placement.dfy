/** Where the kernel goes: the address offset of the loader and the level 4 entries it takes. */
module Placement {
  import opened Bytes
  import opened Outcomes
  import opened VirtualSpace
  import opened ElfImage
  import opened Level4Entries
  import opened Arithmetic

  datatype ElfType = Executable | SharedObject | OtherType

  /** The lowest and the highest address of all load segments, and their biggest alignment. */
  datatype Extent = Extent(minAddr: nat, maxAddr: nat, align: nat)

  /** Whether `x` is the extent of the load segments among the headers. */
  ghost predicate IsExtent(headers: seq<Header>, x: Extent) {
    if !AnyLoad(headers) then x == Extent(0, 0, 1)
    else
      && (exists h :: h in headers && h.kind == Load && h.vaddr == x.minAddr)
      && (exists h :: h in headers && h.kind == Load && h.vaddr + h.memSize == x.maxAddr)
      && (exists h :: h in headers && h.kind == Load && h.align == x.align)
      && forall h | h in headers && h.kind == Load ::
           x.minAddr <= h.vaddr && h.vaddr + h.memSize <= x.maxAddr && h.align <= x.align
  }

  /** The extent with one more load segment. */
  function Widen(x: Extent, first: bool, h: Header): Extent {
    if first then Extent(h.vaddr, h.vaddr + h.memSize, h.align)
    else Extent(if h.vaddr < x.minAddr then h.vaddr else x.minAddr,
                if h.vaddr + h.memSize > x.maxAddr then h.vaddr + h.memSize else x.maxAddr,
                if h.align > x.align then h.align else x.align)
  }

  ghost predicate AnyLoad(headers: seq<Header>) {
    exists h :: h in headers && h.kind == Load
  }

  lemma WidenExtent(headers: seq<Header>, x: Extent, h: Header)
    requires IsExtent(headers, x) && h.kind == Load
    ensures IsExtent(headers + [h], Widen(x, !AnyLoad(headers), h))
  {
    var all, y := headers + [h], Widen(x, !AnyLoad(headers), h);
    assert h in all;
    if AnyLoad(headers) {
      var a :| a in headers && a.kind == Load && a.vaddr == x.minAddr;
      var b :| b in headers && b.kind == Load && b.vaddr + b.memSize == x.maxAddr;
      var c :| c in headers && c.kind == Load && c.align == x.align;
      assert a in all && b in all && c in all;
      assert exists g :: g in all && g.kind == Load && g.vaddr == y.minAddr;
      assert exists g :: g in all && g.kind == Load && g.vaddr + g.memSize == y.maxAddr;
      assert exists g :: g in all && g.kind == Load && g.align == y.align;
    }
  }

  lemma SkipExtent(headers: seq<Header>, x: Extent, h: Header)
    requires IsExtent(headers, x) && h.kind != Load
    ensures IsExtent(headers + [h], x) && (AnyLoad(headers + [h]) <==> AnyLoad(headers))
  {
    assert forall g :: g in headers ==> g in headers + [h];
    assert forall g :: g in headers + [h] && g.kind == Load ==> g in headers;
  }

  method FindExtent(headers: seq<Header>) returns (x: Extent)
    ensures IsExtent(headers, x)
  {
    hide IsExtent, AnyLoad;
    x := Extent(0, 0, 1);
    var found := false;
    EmptyExtent();
    for i := 0 to |headers|
      invariant IsExtent(headers[..i], x)
      invariant found <==> AnyLoad(headers[..i])
    {
      assert headers[..i + 1] == headers[..i] + [headers[i]];
      if headers[i].kind == Load {
        WidenExtent(headers[..i], x, headers[i]);
        HasLoad(headers[..i + 1], i);
        x := Widen(x, !found, headers[i]);
        found := true;
      } else {
        SkipExtent(headers[..i], x, headers[i]);
      }
    }
    assert headers[..|headers|] == headers;
  }

  lemma EmptyExtent()
    ensures IsExtent([], Extent(0, 0, 1)) && !AnyLoad([])
  {
  }

  lemma HasLoad(headers: seq<Header>, i: nat)
    requires i < |headers| && headers[i].kind == Load
    ensures AnyLoad(headers)
  {
    assert headers[i] in headers && headers[i].kind == Load;
  }

  /** Whether the pages of a header lie in entries marked as used. */
  ghost predicate PagesMarked(e: Elf, h: Header, s: Entries) {
    0 < h.memSize <= HALF ==>
      && Place(e, h.vaddr).Ok?
      && forall p | SegFirst(e, h) <= p <= SegLast(e, h) :: 0 <= EntryOf(p * 4096) < 512 && s[EntryOf(p * 4096)]
  }

  lemma PagesOfEntries(start: nat, size: nat, p: int)
    requires FirstPage(start) <= p <= LastPage(start, size)
    ensures EntryOf(start) <= EntryOf(p * 4096) <= EntryOf(start + size - 1)
  {
  }

  lemma MarkedPages(e: Elf, h: Header, s: Entries)
    requires 0 < h.memSize <= HALF && Place(e, h.vaddr).Ok? && RangeFits(Base(e, h), h.memSize)
    ensures PagesMarked(e, h, Marked(s, EntryOf(Base(e, h)), LastEntry(Base(e, h), h.memSize)))
  {
    var start := Base(e, h);
    VirtNewShift(AsU64(start), h.memSize);
    hide Place, EntryOf, VirtNew, AsU64;
    EntryBounds(start);
    EntryBounds(start + h.memSize - 1);
    forall p | SegFirst(e, h) <= p <= SegLast(e, h)
      ensures EntryOf(start) <= EntryOf(p * 4096) <= EntryOf(start + h.memSize - 1)
    {
      PagesOfEntries(start, h.memSize, p);
    }
  }

  lemma EntryBounds(addr: int)
    requires 0 <= addr < 2 * HALF
    ensures 0 <= EntryOf(addr) < 512
  {
  }

  /** Whether the addresses of all segments that take memory are acceptable. */
  predicate SegmentsFit(e: Elf) {
    forall h | h in e.headers && h.memSize > 0 :: Place(e, h.vaddr).Ok? && RangeFits(Base(e, h), h.memSize)
  }

  /** Once its entries are marked, no address of a segment leaves the canonical ones. */
  lemma FitsIsShaped(e: Elf, h: Header)
    requires h.fileSize <= h.memSize <= HALF && (e.addressOffset + h.vaddr) % 4096 == h.offset % 4096
    requires h.memSize > 0 ==> Place(e, h.vaddr).Ok? && RangeFits(Base(e, h), h.memSize)
    ensures WellShaped(e, h)
  {
  }

  /** An empty segment is not marked, but may take a page: this one takes the first page of entry 1, which
      can stay free. */
  lemma EmptySegmentNotMarked(mem: Memory, s: Entries)
    ensures var h := Header(Load, 16, LEVEL_4_SIZE + 16, 0, 0, 4096, true, false, []);
            var e := Elf([h], 0, 0);
            && SegmentsFit(e) && WellPlaced(e, h) && Placeable(e, h) && PagesMarked(e, h, s)
            && MapAll(e, mem, 1).Keys == {LEVEL_4_SIZE / 4096} && EntryOf(LEVEL_4_SIZE / 4096 * 4096) == 1
  {
    var h := Header(Load, 16, LEVEL_4_SIZE + 16, 0, 0, 4096, true, false, []);
    var e := Elf([h], 0, 0);
    EmptySegmentPagesIff(e, mem, h);
    assert MapAll(e, mem, 0) + SegSpace(e, mem, h) == SegSpace(e, mem, h);
  }

  /** Whether a segment takes memory in entry `i`. */
  predicate MeetsEntry(e: Elf, h: Header, i: int) {
    && h.memSize > 0 && Place(e, h.vaddr).Ok? && RangeFits(Base(e, h), h.memSize)
    && EntryOf(Base(e, h)) <= i <= LastEntry(Base(e, h), h.memSize)
  }

  /** Whether the entries in `after` are those in `before` and those of the first `n` segments. */
  ghost predicate SegmentsAdded(e: Elf, n: nat, before: Entries, after: Entries)
    requires n <= |e.headers|
  {
    forall i | 0 <= i < 512 :: after[i] <==> before[i] || exists k :: 0 <= k < n && MeetsEntry(e, e.headers[k], i)
  }

  lemma OneSegmentAdded(e: Elf, n: nat, before: Entries, now: Entries, after: Entries)
    requires n < |e.headers| && SegmentsAdded(e, n, before, now)
    requires forall i | 0 <= i < 512 :: after[i] <==> now[i] || MeetsEntry(e, e.headers[n], i)
    ensures SegmentsAdded(e, n + 1, before, after)
  {
    hide MeetsEntry;
    forall i | 0 <= i < 512
      ensures after[i] <==> before[i] || exists k :: 0 <= k < n + 1 && MeetsEntry(e, e.headers[k], i)
    {
      if k :| 0 <= k < n && MeetsEntry(e, e.headers[k], i) {
      }
    }
  }

  /** Marks exactly the entries of all segments that take memory. */
  method MarkSegments(used: UsedLevel4Entries, e: Elf) returns (r: Result<()>)
    requires used.Valid()
    modifies used.entryState
    ensures Extends(old(used.State()), used.State())
    ensures r.Ok? <==> SegmentsFit(e)
    ensures r.Ok? ==> SegmentsAdded(e, |e.headers|, old(used.State()), used.State())
    ensures r.Ok? ==> forall h | h in e.headers :: PagesMarked(e, h, used.State())
  {
    hide SegmentsAdded;
    NothingAdded(e, used.State());
    for i := 0 to |e.headers|
      invariant Extends(old(used.State()), used.State())
      invariant SegmentsAdded(e, i, old(used.State()), used.State())
      invariant forall k | 0 <= k < i :: PagesMarked(e, e.headers[k], used.State())
      invariant forall k | 0 <= k < i && e.headers[k].memSize > 0 ::
                  Place(e, e.headers[k].vaddr).Ok? && RangeFits(Base(e, e.headers[k]), e.headers[k].memSize)
    {
      var h := e.headers[i];
      if h.memSize > 0 {
        var start :- Shift(e, h.vaddr);
        ghost var before := used.State();
        var _ :- used.MarkRangeAsUsed(start, h.memSize);
        if h.memSize <= HALF {
          MarkedPages(e, h, before);
        }
        assert Extends(before, used.State());
        OneSegmentAdded(e, i, old(used.State()), before, used.State());
      } else {
        OneSegmentAdded(e, i, old(used.State()), used.State(), used.State());
      }
    }
    r := Ok(());
  }

  lemma NothingAdded(e: Elf, s: Entries)
    ensures SegmentsAdded(e, 0, s, s)
  {
  }

  predicate InUse(s: Entries, i: int) { 0 <= i < 512 && s[i] }

  /** Whether a segment takes a page although it takes no memory. */
  predicate OnlyPage(e: Elf, h: Header) {
    h.kind == Load && h.memSize == 0 && Place(e, h.vaddr).Ok? && Base(e, h) % 4096 != 0
  }

  /** The marked entries hold all pages the loader maps exactly if the page of every segment that takes no
      memory is in an entry that was in use before or that some segment takes memory in. */
  lemma PagesInUseIff(e: Elf, mem: Memory, before: Entries, after: Entries)
    requires SegmentsAdded(e, |e.headers|, before, after) && forall h | h in e.headers :: PagesMarked(e, h, after)
    requires forall h | h in e.headers && h.kind == Load :: h.memSize <= HALF
    ensures (forall p | p in MapAll(e, mem, |e.headers|) :: InUse(after, EntryOf(p * 4096))) <==>
            (forall h | h in e.headers && OnlyPage(e, h) ::
               var i := EntryOf(Base(e, h));
               InUse(before, i) || exists k :: 0 <= k < |e.headers| && MeetsEntry(e, e.headers[k], i))
  {
    hide MapAll, MeetsEntry, PagesMarked, EntryOf, Place;
    forall h | h in e.headers && OnlyPage(e, h)
      ensures Base(e, h) / 4096 in MapAll(e, mem, |e.headers|)
      ensures EntryOf(Base(e, h) / 4096 * 4096) == EntryOf(Base(e, h)) && 0 <= EntryOf(Base(e, h)) < 512
    {
      OnlyPageMapped(e, mem, h);
    }
    forall p | p in MapAll(e, mem, |e.headers|)
      ensures InUse(after, EntryOf(p * 4096))
              || exists h :: h in e.headers && OnlyPage(e, h) && p == Base(e, h) / 4096
    {
      MapAllKeys(e, mem, |e.headers|, p);
      var i :| 0 <= i < |e.headers| && IsLoad(e, i) && SegFirst(e, e.headers[i]) <= p <= SegLast(e, e.headers[i]);
      assert e.headers[i] in e.headers;
      MarkedOrOnlyPage(e, e.headers[i], after, p);
    }
  }

  lemma OnlyPageMapped(e: Elf, mem: Memory, h: Header)
    requires h in e.headers && OnlyPage(e, h)
    ensures Base(e, h) / 4096 in MapAll(e, mem, |e.headers|)
    ensures EntryOf(Base(e, h) / 4096 * 4096) == EntryOf(Base(e, h)) && 0 <= EntryOf(Base(e, h)) < 512
  {
    hide MapAll;
    var i :| 0 <= i < |e.headers| && e.headers[i] == h;
    assert IsLoad(e, i);
    EmptySegmentPagesIff(e, mem, h);
    MapAllKeys(e, mem, |e.headers|, Base(e, h) / 4096);
  }

  lemma MarkedOrOnlyPage(e: Elf, h: Header, s: Entries, p: int)
    requires PagesMarked(e, h, s) && h.kind == Load && h.memSize <= HALF
    requires Place(e, h.vaddr).Ok? && SegFirst(e, h) <= p <= SegLast(e, h)
    ensures InUse(s, EntryOf(p * 4096)) || (OnlyPage(e, h) && p == Base(e, h) / 4096)
  {
    hide Place;
  }

  /** Whether a position independent kernel with the given extent was placed at `base`: aligned, in
      entries that were free, and within these if its size is not a multiple of 512 GiB; if it does not
      start with an entry, there is room for one more alignment step behind it. */
  ghost predicate PlacedAt(e: Elf, x: Extent, base: int, before: Entries)
    requires x.minAddr <= x.maxAddr
  {
    var size := x.maxAddr - x.minAddr;
    && 0 <= base < 2 * HALF && e.addressOffset == AsU64(base) - x.minAddr
    && x.align > 0 && (x.align <= LEVEL_4_SIZE ==> base % x.align == 0)
    && Free(before, EntryOf(base), EntriesFor(size))
    && (size % LEVEL_4_SIZE != 0 ==> base + size < (EntryOf(base) + EntriesFor(size)) * LEVEL_4_SIZE)
    && (base % LEVEL_4_SIZE == 0 || base % LEVEL_4_SIZE + x.align <= LEVEL_4_SIZE - size % LEVEL_4_SIZE)
  }

  /** The same with the choice it was made by: without randomization, the start of the first free entries. */
  ghost predicate ChosenAt(e: Elf, x: Extent, base: int, before: Entries, aslr: bool)
    requires x.minAddr <= x.maxAddr
  {
    && PlacedAt(e, x, base, before)
    && (!aslr ==>
          base == EntryOf(base) * LEVEL_4_SIZE && FirstFree(before, EntryOf(base), EntriesFor(x.maxAddr - x.minAddr)))
  }

  lemma ExtentIsOrdered(headers: seq<Header>, x: Extent)
    requires IsExtent(headers, x)
    ensures x.minAddr <= x.maxAddr
  {
    if AnyLoad(headers) {
      var h :| h in headers && h.kind == Load && h.vaddr == x.minAddr;
    }
  }

  /** Why placing a position independent kernel may fail: there is nothing to load, the biggest alignment
      is no power of two, there is no place, or at the place it got the address of a segment is not
      acceptable. */
  ghost predicate PieFails(headers: seq<Header>, kernelFrame: int, x: Extent, base: int, s: Entries, aslr: bool) {
    && IsExtent(headers, x) && x.minAddr <= x.maxAddr
    && var size := x.maxAddr - x.minAddr;
       || size == 0 || !IsPowerOfTwo(x.align)
       || NoRoom(s, size, x.align, aslr)
       || (&& 0 <= base < 2 * HALF
           && var e := Elf(headers, kernelFrame, AsU64(base) - x.minAddr);
              ChosenAt(e, x, base, s, aslr) && !SegmentsFit(e))
  }

  /** The entries in use once the kernel is placed: those before, those a position independent kernel was
      given, and those of its segments. */
  ghost predicate KernelAdded(e: Elf, elfType: ElfType, x: Extent, base: int, before: Entries, after: Entries)
    requires x.minAddr <= x.maxAddr
  {
    var given := if elfType == SharedObject
                 then Marked(before, EntryOf(base), EntryOf(base) + EntriesFor(x.maxAddr - x.minAddr) - 1)
                 else before;
    SegmentsAdded(e, |e.headers|, given, after)
  }

  /** `Loader::new`: places the kernel and marks the entries it takes. */
  method PlaceKernel(used: UsedLevel4Entries, headers: seq<Header>, elfType: ElfType, kernelAddr: nat)
    returns (r: Result<Elf>, ghost extent: Extent, ghost base: int)
    requires used.Valid()
    modifies used.entryState
    ensures Extends(old(used.State()), used.State())
    ensures r.Ok? ==> kernelAddr % 4096 == 0 && r.value.headers == headers && r.value.kernelFrame == kernelAddr / 4096
    ensures r.Ok? ==> elfType != OtherType && (elfType == Executable ==> r.value.addressOffset == 0)
    ensures r.Ok? ==> SegmentsFit(r.value) && forall h | h in headers :: PagesMarked(r.value, h, used.State())
    ensures r.Ok? && elfType == SharedObject ==>
              && IsExtent(headers, extent) && extent.minAddr < extent.maxAddr && IsPowerOfTwo(extent.align)
              && ChosenAt(r.value, extent, base, old(used.State()), used.aslr)
    ensures elfType == Executable ==>
              (r.Ok? <==> kernelAddr % 4096 == 0 && SegmentsFit(Elf(headers, kernelAddr / 4096, 0)))
    ensures r.Err? && elfType == SharedObject && kernelAddr % 4096 == 0 ==>
              PieFails(headers, kernelAddr / 4096, extent, base, old(used.State()), used.aslr)
    ensures extent.minAddr <= extent.maxAddr
    ensures r.Ok? ==> KernelAdded(r.value, elfType, extent, base, old(used.State()), used.State())
  {
    hide PagesMarked, SegmentsFit, IsExtent, NoRoom, SegmentsAdded;
    extent, base := Extent(0, 0, 1), 0;
    if kernelAddr % 4096 != 0 {
      return Err(Rejected("Loaded kernel ELF file is not sufficiently aligned")), extent, base;
    }
    if elfType == OtherType {
      return Err(Panic("not implemented")), extent, base;
    }
    var offset := 0;
    if elfType == SharedObject {
      var x := FindExtent(headers);
      ExtentIsOrdered(headers, x);
      extent := x;
      var addr := used.GetFreeAddress(x.maxAddr - x.minAddr, x.align);
      if addr.Err? {
        return Err(addr.error), extent, base;
      }
      base := addr.value;
      offset := AsU64(addr.value) - x.minAddr;
    }
    var e := Elf(headers, kernelAddr / 4096, offset);
    var marked := MarkSegments(used, e);
    if marked.Err? {
      return Err(marked.error), extent, base;
    }
    r := Ok(e);
  }

  /** A position independent kernel starts at a multiple of the alignment of every load segment, and a
      segment stays as far behind a multiple of its alignment as in the file exactly if the lowest address
      in the file is a multiple of it. */
  lemma AlignmentKeptIff(e: Elf, x: Extent, base: int, before: Entries, h: Header)
    requires IsExtent(e.headers, x) && x.minAddr <= x.maxAddr && PlacedAt(e, x, base, before)
    requires IsPowerOfTwo(x.align) && x.align <= LEVEL_4_SIZE
    requires h in e.headers && h.kind == Load && IsPowerOfTwo(h.align)
    ensures base % h.align == 0
    ensures (e.addressOffset + h.vaddr) % h.align == h.vaddr % h.align <==> x.minAddr % h.align == 0
  {
    assert h.align > 0;
    hide EntriesFor, Free, IsPowerOfTwo;
    PowersDivide(h.align, x.align);
    ModTwice(base, x.align, h.align);
    LevelFourIsPower();
    PowersDivide(h.align, LEVEL_4_SIZE);
    AlignedAsU64(base, h.align);
    var d := h.vaddr - x.minAddr;
    SameRemainder(d, AsU64(base), h.align);
    SameRemainder(d, x.minAddr, h.align);
  }

  /** Wherever this file is placed, its segment is no longer half its alignment behind a multiple of it. */
  lemma AlignmentLost(base: int, before: Entries)
    requires var x := Extent(0x1000, 0x2000, 0x2000);
             var h := Header(Load, 0x1000, 0x1000, 0x1000, 0x1000, 0x2000, true, false, []);
             0 <= base < 2 * HALF && PlacedAt(Elf([h], 0, AsU64(base) - 0x1000), x, base, before)
    ensures var h := Header(Load, 0x1000, 0x1000, 0x1000, 0x1000, 0x2000, true, false, []);
            IsExtent([h], Extent(0x1000, 0x2000, 0x2000))
            && (AsU64(base) - 0x1000 + h.vaddr) % h.align == 0 && h.vaddr % h.align == 0x1000
  {
    hide AsU64, EntriesFor, EntryOf, Free;
    var h := Header(Load, 0x1000, 0x1000, 0x1000, 0x1000, 0x2000, true, false, []);
    assert h in [h];
    AlignedAsU64(base, 0x2000);
  }

  lemma AlignedAsU64(base: nat, a: nat)
    requires base < 2 * HALF && a > 0 && base % a == 0 && LEVEL_4_SIZE % a == 0
    ensures AsU64(base) >= 0 && AsU64(base) % a == 0
  {
    if base >= HALF {
      var k: nat := (U64_LIMIT - 2 * HALF) / LEVEL_4_SIZE;
      ModProduct(k, LEVEL_4_SIZE, a);
      ModSum(base, k * LEVEL_4_SIZE, a);
    }
  }

  /** The pages of a position independent kernel lie outside the first entry. */
  lemma PieAboveFirst(e: Elf, x: Extent, base: int, before: Entries, mem: Memory, p: int)
    requires IsExtent(e.headers, x) && x.minAddr < x.maxAddr && PlacedAt(e, x, base, before) && before[0]
    requires p in MapAll(e, mem, |e.headers|)
    ensures p >= 0x800_0000
  {
    hide MapAll, AsU64, VirtNew, SegLast, EntriesFor;
    MapAllKeys(e, mem, |e.headers|, p);
    var i :| 0 <= i < |e.headers| && IsLoad(e, i) && SegFirst(e, e.headers[i]) <= p <= SegLast(e, e.headers[i]);
    var h := e.headers[i];
    assert h in e.headers;
    NotFirstEntry(base, x.maxAddr - x.minAddr, before);
    PlacedAbove(base, h.vaddr - x.minAddr);
  }

  /** They lie in the entries the kernel was given, which were free. */
  lemma PieInFreeEntries(e: Elf, x: Extent, base: int, before: Entries, mem: Memory, p: int)
    requires IsExtent(e.headers, x) && x.minAddr < x.maxAddr && PlacedAt(e, x, base, before)
    requires (x.maxAddr - x.minAddr) % LEVEL_4_SIZE != 0 || base % LEVEL_4_SIZE == 0
    requires p in MapAll(e, mem, |e.headers|)
    ensures 0 <= EntryOf(p * 4096) < 512 && !before[EntryOf(p * 4096)]
  {
    hide MapAll, AsU64, VirtNew, EntriesFor, EntryOf;
    MapAllKeys(e, mem, |e.headers|, p);
    var i :| 0 <= i < |e.headers| && IsLoad(e, i) && SegFirst(e, e.headers[i]) <= p <= SegLast(e, e.headers[i]);
    var h := e.headers[i];
    assert h in e.headers;
    var size := x.maxAddr - x.minAddr;
    RangeBounds(base, size, before);
    MoveFrom(base, h.vaddr - x.minAddr);
    PageOfRange(base, size, h.vaddr - x.minAddr, h.memSize, p);
  }

  lemma PageOfRange(base: nat, size: nat, d: nat, len: nat, p: int)
    requires size > 0 && d + len <= size && FirstPage(base + d) <= p <= LastPage(base + d, len)
    requires size % LEVEL_4_SIZE != 0 ==> base + size < (EntryOf(base) + EntriesFor(size)) * LEVEL_4_SIZE
    requires size % LEVEL_4_SIZE != 0 || base % LEVEL_4_SIZE == 0
    ensures EntryOf(base) <= EntryOf(p * 4096) < EntryOf(base) + EntriesFor(size)
  {
  }

  lemma NotFirstEntry(base: nat, size: nat, before: Entries)
    requires size > 0 && before[0] && Free(before, EntryOf(base), EntriesFor(size))
    ensures base >= LEVEL_4_SIZE
  {
    assert !before[EntryOf(base)];
  }

  lemma PlacedAbove(base: nat, d: nat)
    requires base < 2 * HALF && VirtNew(AsU64(base) + d).Ok?
    ensures base <= VirtNew(AsU64(base) + d).value
  {
  }

  /** What position independent kernels must have for their image to be defined. */
  predicate PieHeader(h: Header) {
    h.kind == Load ==> h.fileSize <= h.memSize && h.vaddr % 4096 == h.offset % 4096
  }

  /** Where a segment can be mapped exactly, once its kernel is at `base`: unless it is bigger than half
      of the address space, it must end neither at the upper half nor at the end of the address space,
      and its zeroed part must not begin in the last page. */
  predicate MappableAt(h: Header, start: int) {
    && h.memSize <= HALF && start + h.memSize != HALF && start + h.memSize < 2 * HALF
    && (h.fileSize < h.memSize ==> start + h.fileSize <= 2 * HALF - 4096)
  }

  /** A position independent kernel, of any size that stays within its entries, whose lowest load
      address is page aligned and whose biggest alignment is a page or more. */
  lemma PieWellPlacedIff(e: Elf, x: Extent, base: int, before: Entries, h: Header)
    requires IsExtent(e.headers, x) && x.minAddr <= x.maxAddr && PlacedAt(e, x, base, before)
    requires before[0] && x.minAddr < x.maxAddr
    requires (x.maxAddr - x.minAddr) % LEVEL_4_SIZE != 0 || base % LEVEL_4_SIZE == 0
    requires x.minAddr % 4096 == 0 && x.align % 4096 == 0 && x.align <= LEVEL_4_SIZE
    requires h in e.headers && h.kind == Load && PieHeader(h)
    ensures WellPlaced(e, h) && Placeable(e, h) <==> MappableAt(h, base + (h.vaddr - x.minAddr))
  {
    hide AsU64, VirtNew, EntryOf, EntriesFor, WellPlaced, Placeable;
    assert x.minAddr <= h.vaddr && h.vaddr + h.memSize <= x.maxAddr;
    RangeBounds(base, x.maxAddr - x.minAddr, before);
    PageMultiple(base, x.align);
    SegmentPlacedIff(e, x.minAddr, base, h);
  }

  /** Less than 512 GiB, it can always be mapped. */
  lemma PieIsWellPlaced(e: Elf, x: Extent, base: int, before: Entries, h: Header)
    requires IsExtent(e.headers, x) && x.minAddr <= x.maxAddr && PlacedAt(e, x, base, before)
    requires before[0] && 0 < x.maxAddr - x.minAddr <= LEVEL_4_SIZE - 4096
    requires x.minAddr % 4096 == 0 && x.align % 4096 == 0 && x.align <= LEVEL_4_SIZE
    requires h in e.headers && h.kind == Load && PieHeader(h) && (h.memSize > 0 || x.minAddr < h.vaddr)
    ensures WellPlaced(e, h) && Placeable(e, h)
  {
    hide AsU64, VirtNew, EntriesFor, WellPlaced, Placeable;
    assert x.minAddr <= h.vaddr && h.vaddr + h.memSize <= x.maxAddr;
    PieWellPlacedIff(e, x, base, before, h);
    EndInEntry(base, x.maxAddr - x.minAddr, x.align);
    assert !before[EntryOf(base)];
    InOneEntry(base, h.vaddr + h.memSize - x.minAddr);
  }

  lemma InOneEntry(base: nat, d: nat)
    requires 0 < EntryOf(base) < 512 && 0 < d && base + d <= (EntryOf(base) + 1) * LEVEL_4_SIZE - 4096
    ensures base + d != HALF && base + d <= 2 * HALF - 4096
  {
  }

  /** A range in free entries does not leave the address space. */
  lemma RangeBounds(base: nat, size: nat, before: Entries)
    requires base < 2 * HALF && size > 0 && Free(before, EntryOf(base), EntriesFor(size))
    requires size % LEVEL_4_SIZE != 0 ==> base + size < (EntryOf(base) + EntriesFor(size)) * LEVEL_4_SIZE
    requires size % LEVEL_4_SIZE != 0 || base % LEVEL_4_SIZE == 0
    ensures base + size <= 2 * HALF && (before[0] ==> base > 0)
  {
    assert EntriesFor(size) > 0;
  }

  lemma EndInEntry(base: nat, size: nat, align: nat)
    requires base < 2 * HALF && 0 < size <= LEVEL_4_SIZE - 4096 && 4096 <= align
    requires base % LEVEL_4_SIZE == 0 || base % LEVEL_4_SIZE + align <= LEVEL_4_SIZE - size % LEVEL_4_SIZE
    ensures EntriesFor(size) == 1 && 0 <= EntryOf(base) < 512
    ensures base + size <= (EntryOf(base) + 1) * LEVEL_4_SIZE - 4096
  {
  }

  lemma SegmentPlacedIff(e: Elf, minAddr: nat, base: nat, h: Header)
    requires base % 4096 == 0 && minAddr % 4096 == 0 && 0 < base < 2 * HALF
    requires e.addressOffset == AsU64(base) - minAddr
    requires minAddr <= h.vaddr && base + (h.vaddr - minAddr) + h.memSize <= 2 * HALF
    requires PieHeader(h) && h.kind == Load
    ensures WellPlaced(e, h) && Placeable(e, h) <==> MappableAt(h, base + (h.vaddr - minAddr))
  {
    var d := h.vaddr - minAddr;
    MoveFrom(base, d);
    MoveFrom(base, d + h.memSize);
    SamePageDistance(base, minAddr, h.vaddr);
    hide AsU64, VirtNew;
  }

  /** 64-bit values move with addresses up to the end of the address space. */
  lemma MoveFrom(base: nat, d: nat)
    requires base < 2 * HALF && base + d <= 2 * HALF
    ensures base + d < 2 * HALF ==> 0 <= AsU64(base) + d < U64_LIMIT && VirtNew(AsU64(base) + d) == Ok(base + d)
    ensures base + d == 2 * HALF ==> VirtNew(AsU64(base) + d).Err?
  {
  }

  lemma SamePageDistance(base: nat, minAddr: nat, vaddr: nat)
    requires base % 4096 == 0 && minAddr % 4096 == 0 && base < 2 * HALF
    ensures (AsU64(base) - minAddr + vaddr) % 4096 == vaddr % 4096
  {
    assert AsU64(base) % 4096 == 0;
  }

  lemma PageMultiple(a: nat, align: nat)
    requires align > 0 && align % 4096 == 0 && a % align == 0
    ensures a % 4096 == 0
  {
    var k := a / align;
    assert a == k * align;
    ModProduct(k, align, 4096);
  }
}
