/** A whole run of the bootloader's last stage: the kernel is placed and loaded, everything else is mapped,
    and the memory that is left is described. */
module Boot {
  import opened Outcomes
  import opened FrameSupply
  import opened VirtualSpace
  import opened ConfigCodec
  import opened Level4Entries
  import opened ElfImage
  import opened Placement
  import opened Paging
  import opened KernelTable
  import BM = BootMappings
  import KernelImage
  import LoadKernel
  import MemoryMap
  import FrameAllocator

  /** Whether nothing is to be placed at a fixed address. */
  predicate AllDynamic(m: Mappings) {
    && m.kernelStack.Dynamic? && m.bootInfo.Dynamic? && m.framebuffer.Dynamic? && m.ramdiskMemory.Dynamic?
    && (m.physicalMemory.Some? ==> m.physicalMemory.value.Dynamic?)
    && (m.pageTableRecursive.Some? ==> m.pageTableRecursive.value.Dynamic?)
  }

  /** Without fixed addresses the sizes do not matter: only bounds that are not canonical are refused, and in
      use are the first entry and those that do not lie between the pages of the bounds. */
  lemma DynamicEntries(c: Config, z: Sizes)
    requires AllDynamic(c.mappings)
    ensures ConfigFits(c, z) <==>
            && (c.mappings.dynamicRangeStart.Some? ==> VirtNew(c.mappings.dynamicRangeStart.value).Ok?)
            && (c.mappings.dynamicRangeEnd.Some? ==> VirtNew(c.mappings.dynamicRangeEnd.value).Ok?)
    ensures forall i | 0 <= i < 512 && ConfigFits(c, z) :: ConfigEntries(c, z)[i] <==>
              || i == 0
              || (c.mappings.dynamicRangeStart.Some? &&
                  i * LEVEL_4_SIZE < VirtNew(c.mappings.dynamicRangeStart.value).value / 4096 * 4096)
              || (c.mappings.dynamicRangeEnd.Some? &&
                  VirtNew(c.mappings.dynamicRangeEnd.value).value / 4096 * 4096 + 4096 < (i + 1) * LEVEL_4_SIZE)
  {
    hide VirtNew;
  }

  /** A kernel file: its program headers, its type, and the address it was loaded to. */
  datatype File = File(headers: seq<Header>, elfType: ElfType, addr: nat)

  /** The ELF rules for a file: a segment stores no more than it takes, and starts at the same place of a
      page in the file and in memory. An empty segment starts with a page. */
  ghost predicate WellFormed(f: File) {
    && (forall h | h in f.headers && h.kind == Load :: SegmentRules(h))
    && (f.elfType == SharedObject ==> forall x | IsExtent(f.headers, x) :: PieExtent(x))
  }

  predicate SegmentRules(h: Header) {
    && h.fileSize <= h.memSize <= HALF && h.vaddr % 4096 == h.offset % 4096
    && (h.memSize == 0 ==> h.vaddr % 4096 == 0)
  }

  /** A position independent kernel starts with a page, and its biggest alignment is a page or more. */
  predicate PieExtent(x: Extent) {
    x.minAddr % 4096 == 0 && x.align % 4096 == 0 && x.align <= LEVEL_4_SIZE
  }

  /** Whether the frames of the file are in memory and not among those the allocator may give. */
  ghost predicate StoredApart(f: File, memory: map<int, PageBytes>, frames: seq<int>) {
    forall h, g | h in f.headers && h.kind == Load && LoadKernel.InFile(f.addr / 4096, h, g) ::
      g in memory && g !in frames
  }

  /** Whether the entries of all pages of a space are in use. */
  ghost predicate PagesUsed(view: Space, s: Entries) {
    forall p | p in view :: 0 <= PageEntry(p) < 512 && s[PageEntry(p)]
  }

  /** Whether the kernel of the file was placed, with the entries in `s` in use before: an executable where
      it is linked to, a position independent one at a possible choice of free entries. */
  ghost predicate PlacedFor(f: File, e: Elf, x: Extent, base: int, s: Entries, aslr: bool) {
    && e.headers == f.headers && e.kernelFrame == f.addr / 4096 && f.addr % 4096 == 0
    && f.elfType != OtherType && SegmentsFit(e)
    && (f.elfType == Executable ==> e.addressOffset == 0)
    && (f.elfType == SharedObject ==>
          IsExtent(f.headers, x) && x.minAddr < x.maxAddr && ChosenAt(e, x, base, s, aslr))
  }

  /** The number of frames that loading a kernel may take: five for each of its pages. */
  function LoadNeed(e: Elf, memory: map<int, PageBytes>): nat { 5 * |MapAll(e, memory, |e.headers|).Keys| }

  /** Why placing the kernel may fail: an address of the configuration or of a segment is not acceptable, or
      there is no place. */
  ghost predicate PlacingFails(config: Config, z: Sizes, f: File, x: Extent, base: int) {
    || !ConfigFits(config, z) || f.addr % 4096 != 0
    || match f.elfType
       case Executable => !SegmentsFit(Elf(f.headers, f.addr / 4096, 0))
       case SharedObject =>
         PieFails(f.headers, f.addr / 4096, x, base, ConfigEntries(config, z), config.mappings.aslr)
       case OtherType => true
  }

  /** Why placing and loading the kernel may fail: it cannot be placed or, at the place it got, segments meet,
      the image is not defined, or there are too few frames. */
  ghost predicate LoadFails(e: Failure, config: Config, z: Sizes, f: File, memory: map<int, PageBytes>,
                            frames: seq<int>, elf: Option<Elf>, x: Extent, base: int)
  {
    if elf.None? then PlacingFails(config, z, f, x, base)
    else
      && ConfigFits(config, z) && PlacedFor(f, elf.value, x, base, ConfigEntries(config, z), config.mappings.aslr)
      && (|| !Mappable(elf.value, |elf.value.headers|) || LoadImage(elf.value, memory).Err?
          || (e == OutOfFrames && |frames| < LoadNeed(elf.value, memory)))
  }

  /** Whether all pages lie inside the range for dynamic addresses. */
  ghost predicate PagesInRange(view: Space, m: Mappings) {
    forall p | p in view :: EntryInside(PageEntry(p), RangeStart(m), RangeEnd(m))
  }

  /** Whether the frames mapped although the allocator has not given them all hold stored bytes of load
      segments. */
  ghost predicate OutsideIsFile(space: PagedMemory, f: File)
    reads space
  {
    forall g | g in space.outside ::
      exists h :: h in f.headers && h.kind == Load && LoadKernel.InFile(f.addr / 4096, h, g)
  }

  /** Places and loads the kernel. */
  method LoadKernelFile(config: Config, z: Sizes, f: File, memory: map<int, PageBytes>, frames: seq<int>)
    returns (r: Result<Elf>, used: UsedLevel4Entries, space: PagedMemory,
             ghost elf: Option<Elf>, ghost x: Extent, ghost base: int)
    requires WellFormed(f) && StoredApart(f, memory, frames)
    requires forall i, j | 0 <= i < j < |frames| :: frames[i] != frames[j]
    requires forall g | g in frames :: g in memory
    ensures fresh(used) && fresh(used.entryState) && fresh(space) && used.Valid() && used.aslr == config.mappings.aslr
    ensures space.Valid() && space.phys0 == memory && space.frames0 == frames && space.pool == (set g | g in frames)
    ensures OutsideIsFile(space, f) && x.minAddr <= x.maxAddr
    ensures r.Ok? ==> ConfigFits(config, z) && elf == Some(r.value)
    ensures r.Ok? ==> PlacedFor(f, r.value, x, base, ConfigEntries(config, z), config.mappings.aslr)
    ensures r.Ok? ==> KernelAdded(r.value, f.elfType, x, base, ConfigEntries(config, z), used.State())
    ensures r.Ok? ==> LoadImage(r.value, memory) == Ok(space.view)
    ensures r.Ok? ==> |frames| <= |space.free| + LoadNeed(r.value, memory)
    ensures r.Ok? ==> used.State()[0] && PagesUsed(space.view, used.State())
    ensures r.Ok? ==> InRange(used.State(), RangeStart(config.mappings), RangeEnd(config.mappings))
    ensures r.Ok? && f.elfType == SharedObject ==>
              && IsExtent(f.headers, x) && AboveFirst(space.view)
              && ((x.maxAddr - x.minAddr) % LEVEL_4_SIZE != 0 ==> PagesInRange(space.view, config.mappings))
    ensures r.Err? ==> LoadFails(r.error, config, z, f, memory, frames, elf, x, base)
  {
    hide LoadImage, MapAll, ConfigFits, FixedAt, SegmentsFit, PlacedAt, IsExtent, PieFails, PagesMarked;
    hide PagedMemory.Valid, WellFormed, InRange, PagesUsed, PagesInRange, AboveFirst, StoredApart, Mappable;
    hide ConfigEntries, Thrift, KernelAdded;
    elf, x, base := None, Extent(0, 0, 1), 0;
    used := new UsedLevel4Entries(config.mappings.aslr);
    space := new PagedMemory(memory, frames);
    var marked := used.MarkConfig(config, z);
    if marked.Err? {
      return Err(marked.error), used, space, elf, x, base;
    }
    ghost var before := used.State();
    var placed;
    placed, x, base := PlaceKernel(used, f.headers, f.elfType, f.addr);
    if placed.Err? {
      return placed, used, space, elf, x, base;
    }
    var e := placed.value;
    elf := Some(e);
    PlacedIsWellFormed(f, e, x, base, before);
    RangeKept(before, used.State(), RangeStart(config.mappings), RangeEnd(config.mappings));
    var loader := new LoadKernel.Loader(e, space);
    FileIsStored(f, loader, frames);
    var loaded := loader.LoadSegments();
    if loaded.Err? {
      return Err(loaded.error), used, space, elf, x, base;
    }
    KernelImage.LoadImageKeys(e, memory);
    PagesAreUsed(f, e, memory, space.view, used.State());
    if f.elfType == SharedObject {
      PiePages(e, x, base, before, memory, space.view, config.mappings);
    }
    r := Ok(e);
  }

  lemma RangeKept(before: Entries, after: Entries, start: int, end: int)
    requires InRange(before, start, end) && Extends(before, after)
    ensures InRange(after, start, end)
  {
    hide EntryInside;
  }

  lemma FileIsStored(f: File, loader: LoadKernel.Loader, frames: seq<int>)
    requires StoredApart(f, loader.space.phys0, frames) && loader.space.pool == (set g | g in frames)
    requires loader.elf.headers == f.headers && loader.elf.kernelFrame == f.addr / 4096
    requires forall h | h in f.headers && h.kind == Load :: WellShaped(loader.elf, h)
    ensures loader.WellFormed()
  {
    hide WellShaped;
  }

  /** Wherever it was placed, the image of the kernel is defined there. */
  lemma PlacedIsWellFormed(f: File, e: Elf, x: Extent, base: int, before: Entries)
    requires WellFormed(f) && f.elfType != OtherType && SegmentsFit(e)
    requires e.headers == f.headers && e.kernelFrame == f.addr / 4096
    requires f.elfType == Executable ==> e.addressOffset == 0
    requires f.elfType == SharedObject ==>
               IsExtent(f.headers, x) && x.minAddr < x.maxAddr && PlacedAt(e, x, base, before)
    ensures forall h | h in e.headers && h.kind == Load :: WellShaped(e, h)
  {
    hide IsExtent, AsU64, Place, RangeFits, Free, EntriesFor;
    forall h | h in e.headers && h.kind == Load
      ensures WellShaped(e, h)
    {
      assert SegmentRules(h);
      if f.elfType == SharedObject {
        assert PieExtent(x);
        PageMultiple(base, x.align);
        SamePageDistance(base, x.minAddr, h.vaddr);
      }
      FitsIsShaped(e, h);
    }
  }

  lemma PagesAreUsed(f: File, e: Elf, memory: map<int, PageBytes>, view: Space, s: Entries)
    requires WellFormed(f) && e.headers == f.headers && LoadImage(e, memory) == Ok(view)
    requires forall h | h in e.headers && h.kind == Load :: WellShaped(e, h)
    requires forall h | h in e.headers :: PagesMarked(e, h, s)
    ensures PagesUsed(view, s)
  {
    hide LoadImage, MapAll, PagesMarked, IsExtent;
    KernelImage.LoadImageKeys(e, memory);
    forall h | h in e.headers && h.kind == Load && Place(e, h.vaddr).Ok?
      ensures h.memSize <= HALF && (h.memSize == 0 ==> Base(e, h) % 4096 == 0)
    {
      assert SegmentRules(h);
    }
    forall p | p in view
      ensures 0 <= PageEntry(p) < 512 && s[PageEntry(p)]
    {
      BM.KernelPagesMarked(e, memory, s, p);
    }
  }

  /** Whether no page lies in the first level 4 entry. */
  ghost predicate AboveFirst(view: Space) {
    forall p | p in view :: p >= 0x800_0000
  }

  /** Where the pages of a position independent kernel lie. */
  lemma PiePages(e: Elf, x: Extent, base: int, before: Entries, memory: map<int, PageBytes>, view: Space, m: Mappings)
    requires IsExtent(e.headers, x) && x.minAddr < x.maxAddr && PlacedAt(e, x, base, before) && before[0]
    requires LoadImage(e, memory) == Ok(view) && InRange(before, RangeStart(m), RangeEnd(m))
    ensures AboveFirst(view)
    ensures (x.maxAddr - x.minAddr) % LEVEL_4_SIZE != 0 ==> PagesInRange(view, m)
  {
    hide LoadImage, MapAll, PlacedAt, IsExtent, EntryInside, RangeStart, RangeEnd;
    KernelImage.LoadImageKeys(e, memory);
    forall p | p in view
      ensures p >= 0x800_0000
      ensures (x.maxAddr - x.minAddr) % LEVEL_4_SIZE != 0 ==> EntryInside(PageEntry(p), RangeStart(m), RangeEnd(m))
    {
      PieAboveFirst(e, x, base, before, memory, p);
      if (x.maxAddr - x.minAddr) % LEVEL_4_SIZE != 0 {
        PieInFreeEntries(e, x, base, before, memory, p);
        assert PageEntry(p) == EntryOf(p * 4096);
      }
    }
  }

  /** The page table of the loaded kernel. */
  function KernelMap(pt: map<int, Entry>): map<int, int> {
    map p | p in pt :: pt[p].frame
  }

  /** What the mappings of a run look like: stack, framebuffer, ramdisk, physical memory, recursive entry
      and boot info each in an area of their own, none of which meets a page of the kernel. */
  ghost predicate AreasApart(areas: seq<BM.Area>, q: BM.Request, placed: BM.Placed, bootInfo: int, size: nat,
                             view: Space) {
    && (forall i, j | 0 <= i < j < |areas| :: BM.Apart(areas[i], areas[j]))
    && (forall i | 0 <= i < |areas| :: !BM.InArea(areas[i], 0) && KernelOutside(view, areas[i]))
    && areas != [] && BM.LaidOut(areas[..|areas| - 1], q, placed) && BM.Within(areas[|areas| - 1], bootInfo, size)
  }

  ghost predicate KernelOutside(view: Space, a: BM.Area) {
    forall p | p in view :: !BM.InArea(a, PageEntry(p))
  }

  lemma AreasAreApart(areas: seq<BM.Area>, kernel: Entries, now: Entries, q: BM.Request, placed: BM.Placed,
                      bootInfo: int, size: nat, view: Space)
    requires BM.AreasOk(areas, kernel, now) && kernel[0] && PagesUsed(view, kernel)
    requires areas != [] && BM.LaidOut(areas[..|areas| - 1], q, placed) && BM.Within(areas[|areas| - 1], bootInfo, size)
    ensures AreasApart(areas, q, placed, bootInfo, size, view)
  {
    hide BM.LaidOut, BM.Within;
    forall i | 0 <= i < |areas|
      ensures !BM.InArea(areas[i], 0) && KernelOutside(view, areas[i])
    {
      assert BM.AreaOk(areas[i], kernel, now);
    }
  }

  lemma KernelMapFacts(space: PagedMemory, s: Entries)
    requires space.Valid() && PagesUsed(space.view, s)
    ensures forall p | p in KernelMap(space.pt) :: 0 <= p < PAGE_COUNT && s[PageEntry(p)]
    ensures forall i, j | 0 <= i < j < |space.free| :: space.free[i] != space.free[j]
  {
  }

  /** Maps everything else: what `set_up_mappings` does after loading the kernel, and boot info. */
  method MapRest(used: UsedLevel4Entries, space: PagedMemory, bootloader: map<int, int>,
                 q: BM.Request, size: nat, alignment: nat)
    returns (r: Result<(BM.Placed, int)>, mapper: BM.Mapper, ghost own: BM.Own)
    requires used.Valid() && space.Valid() && used.State()[0] && PagesUsed(space.view, used.State())
    requires q.Sane() && BM.AreFrames(space.free)
    requires size % LEVEL_4_SIZE != 0 && IsPowerOfTwo(alignment) && 0 < alignment <= LEVEL_4_SIZE
    modifies used.entryState
    ensures fresh(mapper) && fresh(mapper.table) && mapper.used == used && mapper.Valid()
    ensures mapper.kernelEntries == old(used.State())
    ensures IsRest(mapper.table.free, space.free)
    ensures mapper.gdt.Some? ==>
      && Taken(mapper.gdt.value, space.free, mapper.table.free)
      && BM.GdtFrom(mapper.gdt.value, space.free, q.stackSize)
    ensures r.Err? ==> mapper.MapFails(r.error, KernelMap(space.pt), bootloader, space.free, q, size, alignment)
    ensures r.Ok? ==> |space.free| <= |mapper.table.free| + BM.AllNeed(q, size)
    ensures r.Ok? ==> Keeps(own.info, mapper.table.own) && Keeps(bootloader, mapper.table.own)
    ensures r.Ok? ==> own.placed == r.value.0 && own.bootInfo == r.value.1 && own.size == size
    ensures r.Ok? ==> AreasApart(mapper.areas, q, r.value.0, r.value.1, size, space.view)
    ensures r.Ok? ==> Keeps(KernelMap(space.pt), mapper.table.small) && mapper.Reached(q, r.value.0)
    ensures r.Ok? ==> BM.OwnFrames(own, q, mapper.table.small, space.free, mapper.table.free)
    ensures r.Ok? ==> r.value.1 % alignment == 0
    ensures r.Ok? ==> var start := r.value.0.stackStart;
      && mapper.guard == Some(start - 1) && r.value.0.stackTop == (start * 4096 + q.stackSize) / 16 * 16
      && mapper.GuardUnmapped(r.value.0)
    ensures r.Ok? && q.recursive ==>
      r.value.0.recursiveIndex.Some? && mapper.Empty(BM.Area(r.value.0.recursiveIndex.value, 1))
  {
    KernelMapFacts(space, used.State());
    hide IsRest, PagedMemory.Valid, BM.Mapper.Valid, BM.Mapper.Empty, BM.ReachedIn, BM.LaidOut, BM.Within;
    hide PagesUsed, KernelMap;
    hide AreasApart, BM.OwnFrames, Keeps, BM.Mapper.MapFails, BM.Mapper.GuardUnmapped, IsPowerOfTwo, BM.AreasOk;
    hide BM.AreFrames, BM.GdtFrom, Taken;
    var table := new Table(KernelMap(space.pt), bootloader, space.free);
    mapper := new BM.Mapper(used, table);
    r, own := mapper.MapEverything(q, size, alignment);
    if r.Ok? {
      mapper.AreasAreOk();
      AreasAreApart(mapper.areas, mapper.kernelEntries, used.State(), q, own.placed, own.bootInfo, size, space.view);
    }
  }

  /** Whether the GDT lies below 512 GiB. */
  predicate LowGdt(gdt: Option<int>) { gdt.Some? ==> gdt.value < 0x800_0000 }

  /** A position independent kernel is never in the way of the context switch code, nor of the GDT if that
      lies below 512 GiB. */
  lemma PieNotBlocked(space: PagedMemory, contextSwitch: int, mapper: BM.Mapper)
    requires space.Valid() && AboveFirst(space.view) && BM.AreFrames(space.free)
    requires 0 <= contextSwitch && contextSwitch + 1 < 0x800_0000
    requires contextSwitch !in space.free && contextSwitch + 1 !in space.free
    requires mapper.Valid() && LowGdt(mapper.gdt)
    requires mapper.gdt.Some? ==> Taken(mapper.gdt.value, space.free, mapper.table.free)
    ensures !mapper.GdtMet() && !BM.Blocked(KernelMap(space.pt), map[], contextSwitch, mapper.gdt)
  {
    hide BM.Mapper.Valid, BM.Mapper.GdtMet;
    forall p | p in KernelMap(space.pt)
      ensures p >= 0x800_0000
    {
      assert p in space.view;
    }
    if mapper.gdt.Some? {
      mapper.LowGdtNotMet();
    } else {
      mapper.NoGdtNotMet();
    }
  }

  /** What is to be mapped, from the configuration and what the firmware says. */
  datatype Firmware = Firmware(
    maxPhysAddr: nat, framebuffer: Option<BM.PhysRange>, ramdisk: Option<BM.PhysRange>, contextSwitch: int,
    markedInfo: nat, infoSize: nat, infoAlign: nat)

  function RequestOf(config: Config, w: Firmware): BM.Request {
    BM.Request(config.kernelStackSize, w.contextSwitch, w.framebuffer, w.ramdisk,
      if config.mappings.physicalMemory.Some? then Some(w.maxPhysAddr) else None,
      config.mappings.pageTableRecursive.Some?)
  }

  function SizesOf(w: Firmware): Sizes {
    Sizes(w.maxPhysAddr, w.markedInfo, if w.framebuffer.Some? then Some(w.framebuffer.value.len) else None)
  }

  /** Everything the bootloader hands to the kernel. */
  datatype Booted = Booted(
    elf: Elf, space: PagedMemory, mapper: BM.Mapper, placed: BM.Placed, bootInfo: int, regionCount: nat)

  /** Whether the kernel's page table shows the image. */
  ghost predicate ShowsImage(view: Space, phys: map<int, PageBytes>, small: map<int, int>) {
    forall p | p in view :: p in small && small[p] in phys && phys[small[p]] == view[p].bytes
  }

  lemma ImageShown(space: PagedMemory, small: map<int, int>)
    requires space.Valid() && Keeps(KernelMap(space.pt), small)
    ensures ShowsImage(space.view, space.phys, small)
  {
    forall p | p in space.view
      ensures p in small && small[p] in space.phys && space.phys[small[p]] == space.view[p].bytes
    {
      assert p in KernelMap(space.pt);
    }
  }

  /** Whether the areas lie inside the range for dynamic addresses. */
  ghost predicate AreasInRange(areas: seq<BM.Area>, m: Mappings) {
    forall i, e | 0 <= i < |areas| && BM.InArea(areas[i], e) :: EntryInside(e, RangeStart(m), RangeEnd(m))
  }

  lemma AreasAreInRange(areas: seq<BM.Area>, kernel: Entries, now: Entries, m: Mappings)
    requires BM.AreasOk(areas, kernel, now) && InRange(kernel, RangeStart(m), RangeEnd(m))
    ensures AreasInRange(areas, m)
  {
    hide EntryInside, RangeStart, RangeEnd;
    forall i, e | 0 <= i < |areas| && BM.InArea(areas[i], e)
      ensures EntryInside(e, RangeStart(m), RangeEnd(m))
    {
      assert BM.AreaOk(areas[i], kernel, now);
    }
  }

  /** The frames gone from the allocator's supply are the first ones. */
  lemma GoneIsPrefix(all: seq<int>, rest: seq<int>, g: int)
    requires IsRest(rest, all) && Taken(g, all, rest)
    ensures g in all[..|all| - |rest|]
  {
    assert all == all[..|all| - |rest|] + rest;
  }

  /** The frames of the loaded kernel's pages are the file's or gone from the supply. */
  lemma KernelFramesGone(space: PagedMemory, free: seq<int>)
    requires space.Valid() && IsRest(free, space.free) && space.pool == (set g | g in space.frames0)
    ensures forall p | p in space.pt && space.pt[p].frame in space.frames0 ::
        Taken(space.pt[p].frame, space.frames0, free)
  {
    RestMembers(free, space.free);
  }

  /** Whether no byte of a frame that is gone from the supply is in a region reported as usable. */
  ghost predicate GoneAreReserved(frames: seq<int>, free: seq<int>, regions: seq<MemoryMap.Region>) {
    forall k, g | 0 <= k < |regions| && Taken(g, frames, free) :: FrameAllocator.Avoids(regions[k], g)
  }

  /** Writes the memory map, after the allocator has handed out what is gone from its supply. */
  method Describe(alloc: FrameAllocator.LegacyFrameAllocator, frames: seq<int>, free: seq<int>,
                  regions: array<MemoryMap.Region>, sliceStart: nat, sliceLen: nat)
    returns (r: Result<nat>)
    requires alloc.Valid() && MemoryMap.Tidy(alloc.original) && MemoryMap.PageAligned(alloc.original)
    requires FrameAllocator.IsFuture(alloc.original, alloc.nextFrame, frames) && IsRest(free, frames)
    requires regions.Length >= |alloc.original| + 4
    modifies alloc, regions
    ensures alloc.Valid() && alloc.handedOut == old(alloc.handedOut) + frames[..|frames| - |free|]
    ensures r.Err? <==> exists d :: d in alloc.original && MemoryMap.CutsFile(d, alloc.Edge(sliceStart, sliceLen))
    ensures r.Ok? ==> r.value <= regions.Length && GoneAreReserved(frames, free, regions[..r.value])
    ensures r.Ok? ==> MemoryMap.RegionsOfAll(alloc.original, alloc.Edge(sliceStart, sliceLen), |alloc.original|)
                      == Ok(regions[..r.value])
  {
    MemoryMap.TidyIsSeparate(alloc.original);
    hide MemoryMap.Tidy, MemoryMap.PageAligned, MemoryMap.Separate, FrameAllocator.IsFuture, MemoryMap.CutsFile;
    hide FrameAllocator.LegacyFrameAllocator.Valid, MemoryMap.RegionsOfAll, FrameAllocator.Avoids;
    alloc.AllocateFrames(|frames| - |free|, frames);
    r := alloc.ConstructMemoryMap(regions, sliceStart, sliceLen);
    MemoryMap.MapFailsIff(alloc.original, alloc.Edge(sliceStart, sliceLen));
    if r.Ok? {
      forall k, g | 0 <= k < r.value && Taken(g, frames, free)
        ensures FrameAllocator.Avoids(regions[k], g)
      {
        GoneIsPrefix(frames, free, g);
        assert g in alloc.handedOut;
      }
    }
  }

  predicate OnFrame(g: int, b: int) { g * 4096 <= b < g * 4096 + 4096 }

  /** Whether no byte of a frame behind a page of the kernel is reported as usable, but for those of the
      file's last frame that are behind its end. */
  ghost predicate KernelReserved(pt: map<int, Entry>, regions: seq<MemoryMap.Region>, f: MemoryMap.Frontier) {
    forall p, k, b | p in pt && 0 <= k < |regions| && OnFrame(pt[p].frame, b) && MemoryMap.InRegion(regions[k], b)
                     && regions[k].kind == MemoryMap.Usable ::
      f.SliceEnd() <= b < MemoryMap.FileFramesEnd(f)
  }

  /** Whether the slice holds the stored bytes of all segments. */
  predicate FileInSlice(f: File, slice: MemoryMap.Frontier) {
    && f.addr == slice.sliceStart && f.addr % 4096 == 0
    && forall h | h in f.headers && h.kind == Load :: h.offset + h.fileSize <= slice.sliceLen
  }

  lemma KernelIsReserved(space: PagedMemory, f: File, free: seq<int>, ds: seq<MemoryMap.Descriptor>,
                         edge: MemoryMap.Frontier, regions: seq<MemoryMap.Region>)
    requires space.Valid() && OutsideIsFile(space, f) && FileInSlice(f, edge)
    requires IsRest(free, space.free) && space.pool == (set g | g in space.frames0)
    requires MemoryMap.RegionsOfAll(ds, edge, |ds|) == Ok(regions) && GoneAreReserved(space.frames0, free, regions)
    ensures KernelReserved(space.pt, regions, edge)
  {
    KernelFramesGone(space, free);
    FramesBehindPages(space);
    hide PagedMemory.Valid, IsRest, MemoryMap.RegionsOfAll, Taken, MemoryMap.FileFramesEnd, FileInSlice;
    hide LoadKernel.InFile, OnFrame, MemoryMap.InRegion, GoneAreReserved;
    forall p, k, b | p in space.pt && 0 <= k < |regions| && OnFrame(space.pt[p].frame, b)
        && MemoryMap.InRegion(regions[k], b)
                     && regions[k].kind == MemoryMap.Usable
      ensures edge.SliceEnd() <= b < MemoryMap.FileFramesEnd(edge)
    {
      var g := space.pt[p].frame;
      if g in space.frames0 {
        NotGone(space.frames0, free, regions, k, g, b);
      }
      var h :| h in f.headers && h.kind == Load && LoadKernel.InFile(f.addr / 4096, h, g);
      MemoryMap.UsableBytes(ds, edge, regions[k], b);
      FileFrameBytes(f, h, edge, g, b);
    }
  }

  lemma NotGone(frames: seq<int>, free: seq<int>, regions: seq<MemoryMap.Region>, k: nat, g: int, b: int)
    requires GoneAreReserved(frames, free, regions) && k < |regions| && OnFrame(g, b)
    requires MemoryMap.InRegion(regions[k], b) && regions[k].kind == MemoryMap.Usable
    ensures !Taken(g, frames, free)
  {
    assert !FrameAllocator.Avoids(regions[k], g);
  }

  /** Where the bytes of a frame with stored bytes lie. */
  lemma FileFrameBytes(f: File, h: Header, slice: MemoryMap.Frontier, g: int, b: int)
    requires FileInSlice(f, slice) && h in f.headers && h.kind == Load && LoadKernel.InFile(f.addr / 4096, h, g)
        && OnFrame(g, b)
    ensures slice.sliceStart <= b < MemoryMap.FileFramesEnd(slice)
  {
    assert h.offset + h.fileSize <= slice.sliceLen;
  }

  lemma FramesBehindPages(space: PagedMemory)
    requires space.Valid() && space.pool == (set g | g in space.frames0)
    ensures forall p | p in space.pt :: space.pt[p].frame in space.frames0 || space.pt[p].frame in space.outside
  {
  }

  /** Where a run stops: with the place of the kernel, if it got one, and where everything else went. */
  datatype Stop =
    | Nowhere
    | AtLoad(elf: Option<Elf>, x: Extent, base: int)
    | AtMap(loaded: Elf, x: Extent, base: int, space: PagedMemory, mapper: BM.Mapper)
    | AtMemoryMap(loaded: Elf, x: Extent, base: int, taken: nat)

  /** Whether the size of the load segments is no multiple of 512 GiB. */
  ghost predicate SizeFitsEntries(f: File) {
    forall x | IsExtent(f.headers, x) :: (x.maxAddr - x.minAddr) % LEVEL_4_SIZE != 0
  }

  /** What is known of a loaded kernel: its place, its image, the entries in use and the frames left. */
  ghost predicate IsLoaded(config: Config, z: Sizes, f: File, memory: map<int, PageBytes>, frames: seq<int>,
                           e: Elf, x: Extent, base: int, view: Space, entries: Entries, free: seq<int>)
  {
    && ConfigFits(config, z) && PlacedFor(f, e, x, base, ConfigEntries(config, z), config.mappings.aslr)
    && x.minAddr <= x.maxAddr && KernelAdded(e, f.elfType, x, base, ConfigEntries(config, z), entries)
    && LoadImage(e, memory) == Ok(view)
    && IsRest(free, frames) && |frames| <= |free| + LoadNeed(e, memory)
  }

  /** Whether a kernel, at the place it got, leaves no reason to fail: it has an image, all its pages outside
      the first entry, there are frames for it and for the rest, and a free entry for each area. */
  ghost predicate Suits(config: Config, w: Firmware, f: File, memory: map<int, PageBytes>, frames: seq<int>,
                        e: Elf, x: Extent, base: int)
    requires w.infoAlign > 0
  {
    var q, z := RequestOf(config, w), SizesOf(w);
    && Mappable(e, |e.headers|) && LoadImage(e, memory).Ok? && AboveFirst(MapAll(e, memory, |e.headers|))
    && LoadNeed(e, memory) + BM.AllNeed(q, w.infoSize) <= |frames|
    && forall s | x.minAddr <= x.maxAddr && KernelAdded(e, f.elfType, x, base, ConfigEntries(config, z), s) ::
         |BM.AllWants(q, w.infoSize, w.infoAlign, config.mappings.aslr)| <= |BM.FreeEntries(s)|
  }

  /** Whether nothing can go wrong: the kernel suits wherever it is placed, every area takes a single entry,
      the allocator has frames below 512 GiB only, none of the context switch code, the bootloader has
      mapped nothing else, and wherever the allocator stops, no descriptor cuts the kernel file. */
  ghost predicate Ample(config: Config, w: Firmware, f: File, memory: map<int, PageBytes>, frames: seq<int>,
                        bootloader: map<int, int>, ds: seq<MemoryMap.Descriptor>, sliceStart: nat, sliceLen: nat)
    requires w.infoAlign > 0
  {
    var z := SizesOf(w);
    && (forall x, base :: !PlacingFails(config, z, f, x, base))
    && (forall e, x, base | PlacedFor(f, e, x, base, ConfigEntries(config, z), config.mappings.aslr) ::
          Suits(config, w, f, memory, frames, e, x, base))
    && BM.AllSingle(BM.AllWants(RequestOf(config, w), w.infoSize, w.infoAlign, config.mappings.aslr))
    && w.contextSwitch !in frames && w.contextSwitch + 1 !in frames && (forall g | g in frames :: 0 <= g < 0x800_0000)
    && (forall p | p in bootloader :: 0 <= p < 0x800_0000)
    && forall n: nat, d | d in ds :: !MemoryMap.CutsFile(d, MemoryMap.Frontier(n, sliceStart, sliceLen))
  }

  lemma AmpleLoads(config: Config, w: Firmware, f: File, memory: map<int, PageBytes>, frames: seq<int>,
                   bootloader: map<int, int>, ds: seq<MemoryMap.Descriptor>, sliceStart: nat, sliceLen: nat,
                   r: Failure, elf: Option<Elf>, x: Extent, base: int)
    requires w.infoAlign > 0 && Ample(config, w, f, memory, frames, bootloader, ds, sliceStart, sliceLen)
    ensures !LoadFails(r, config, SizesOf(w), f, memory, frames, elf, x, base)
  {
    hide PlacingFails, PlacedFor, Mappable, LoadImage, LoadNeed, BM.AllSingle, MemoryMap.CutsFile, ConfigEntries;
    hide BM.AllNeed, AboveFirst;
    if elf.Some? && PlacedFor(f, elf.value, x, base, ConfigEntries(config, SizesOf(w)), config.mappings.aslr) {
      assert Suits(config, w, f, memory, frames, elf.value, x, base);
    }
  }

  lemma AmpleMaps(config: Config, w: Firmware, f: File, memory: map<int, PageBytes>, frames: seq<int>,
                  bootloader: map<int, int>, ds: seq<MemoryMap.Descriptor>, sliceStart: nat, sliceLen: nat,
                  r: Failure, e: Elf, x: Extent, base: int, space: PagedMemory, mapper: BM.Mapper)
    requires w.infoAlign > 0 && Ample(config, w, f, memory, frames, bootloader, ds, sliceStart, sliceLen)
    requires space.Valid() && mapper.Valid() && mapper.used.aslr == config.mappings.aslr
    requires 0 <= w.contextSwitch && w.contextSwitch + 1 < 0x800_0000
    requires IsLoaded(config, SizesOf(w), f, memory, frames, e, x, base, space.view, mapper.kernelEntries, space.free)
    requires mapper.gdt.Some? ==> Taken(mapper.gdt.value, space.free, mapper.table.free)
    ensures !mapper.MapFails(r, KernelMap(space.pt), bootloader, space.free, RequestOf(config, w),
                             w.infoSize, w.infoAlign)
  {
    hide PlacingFails, PlacedFor, Mappable, LoadImage, LoadNeed, BM.AllSingle, MemoryMap.CutsFile, ConfigEntries;
    hide BM.AllNeed, PagedMemory.Valid, BM.Mapper.Valid, KernelAdded, BM.Blocked, BM.Mapper.GdtMet, KernelMap, MapAll;
    hide BM.Mapper.MapFails, BM.AllWants, ConfigFits, BM.FreeEntries;
    assert Suits(config, w, f, memory, frames, e, x, base);
    KernelImage.LoadImageKeys(e, memory);
    RestMembers(space.free, frames);
    forall i | 0 <= i < |space.free|
      ensures 0 <= space.free[i]
    {
      assert space.free[i] in space.free;
    }
    hide Ample, Suits, IsRest;
    PieNotBlocked(space, w.contextSwitch, mapper);
    mapper.MapsIfEnough(r, KernelMap(space.pt), bootloader, space.free, RequestOf(config, w), w.infoSize, w.infoAlign);
  }

  lemma AmpleDescribes(config: Config, w: Firmware, f: File, memory: map<int, PageBytes>, frames: seq<int>,
                       bootloader: map<int, int>, alloc: FrameAllocator.LegacyFrameAllocator,
                       sliceStart: nat, sliceLen: nat)
    requires w.infoAlign > 0
    requires Ample(config, w, f, memory, frames, bootloader, alloc.original, sliceStart, sliceLen)
    ensures forall d | d in alloc.original :: !MemoryMap.CutsFile(d, alloc.Edge(sliceStart, sliceLen))
  {
    hide PlacingFails, PlacedFor, Suits, BM.AllSingle, MemoryMap.CutsFile, ConfigEntries;
  }

  /** A kernel of one page, linked to the third entry. */
  function OnePageKernel(addr: nat): File {
    File([Header(Load, 0, 2 * LEVEL_4_SIZE, 4096, 4096, 4096, false, true, [])], Executable, addr)
  }

  function OnePageElf(addr: nat): Elf { Elf(OnePageKernel(addr).headers, addr / 4096, 0) }

  lemma OnePageKernelFits(addr: nat)
    ensures var e := OnePageElf(addr);
            && SegmentsFit(e) && WellPlaced(e, e.headers[0]) && Mappable(e, 1)
            && SegFirst(e, e.headers[0]) == SegLast(e, e.headers[0]) == 2 * LEVEL_4_SIZE / 4096
  {
    assert FindTls(OnePageElf(addr), 0) == Ok(None);
  }

  lemma OnePageKernelMeets(addr: nat, i: int)
    ensures MeetsEntry(OnePageElf(addr), OnePageElf(addr).headers[0], i) <==> i == 2
  {
  }

  lemma OnePageKernelLeaves(addr: nat, before: Entries, s: Entries)
    requires SegmentsAdded(OnePageElf(addr), 1, before, s) && forall i | 0 <= i < 512 :: before[i] <==> i == 0
    ensures 6 <= |BM.FreeEntries(s)|
  {
    hide MeetsEntry;
    forall i | 3 <= i <= 8
      ensures !s[i]
    {
      OnePageKernelMeets(addr, i);
    }
    CountAtMost({3, 4, 5, 6, 7, 8}, BM.FreeEntries(s));
  }

  lemma OnePageKernelLoads(addr: nat, memory: map<int, PageBytes>)
    ensures LoadImage(OnePageElf(addr), memory).Ok?
    ensures MapAll(OnePageElf(addr), memory, 1).Keys == {2 * LEVEL_4_SIZE / 4096}
  {
    OnePageKernelFits(addr);
    var e := OnePageElf(addr);
    var h := e.headers[0];
    assert IsLoad(e, 0);
    hide Mappable, WellPlaced, SegmentsFit, LoadImage, SegPage, SegFirst, SegLast, Place;
    assert MapAll(e, memory, 0) + SegSpace(e, memory, h) == SegSpace(e, memory, h);
    SegSpacePage(e, memory, h, 2 * LEVEL_4_SIZE / 4096);
    KernelImage.LoadImageSucceeds(e, memory, []);
  }

  /** Whether sizes are below 512 GiB, nothing is bound to a range and nothing is randomized. */
  predicate Plain(config: Config, w: Firmware) {
    var m := config.mappings;
    && AllDynamic(m) && m.dynamicRangeStart.None? && m.dynamicRangeEnd.None? && !m.aslr
    && 4096 + config.kernelStackSize < LEVEL_4_SIZE && 0 < w.maxPhysAddr < LEVEL_4_SIZE && 0 < w.infoSize < LEVEL_4_SIZE
    && (w.framebuffer.Some? ==> 0 < w.framebuffer.value.len < LEVEL_4_SIZE)
    && (w.ramdisk.Some? ==> 0 < w.ramdisk.value.len < LEVEL_4_SIZE)
  }

  lemma PlainEntries(config: Config, w: Firmware)
    requires Plain(config, w)
    ensures ConfigFits(config, SizesOf(w))
    ensures forall i | 0 <= i < 512 :: ConfigEntries(config, SizesOf(w))[i] <==> i == 0
  {
  }

  lemma PlainWants(config: Config, w: Firmware)
    requires Plain(config, w) && w.infoAlign > 0
    ensures var wants := BM.AllWants(RequestOf(config, w), w.infoSize, w.infoAlign, false);
            BM.AllSingle(wants) && |wants| <= 6
  {
    assert forall n: nat | 0 < n < LEVEL_4_SIZE :: EntriesFor(n) == 1;
  }

  lemma OnePageKernelSuits(config: Config, w: Firmware, memory: map<int, PageBytes>, frames: seq<int>, addr: nat,
                           x: Extent, base: int)
    requires Plain(config, w) && w.infoAlign > 0 && 5 + BM.AllNeed(RequestOf(config, w), w.infoSize) <= |frames|
    ensures Suits(config, w, OnePageKernel(addr), memory, frames, OnePageElf(addr), x, base)
  {
    PlainEntries(config, w);
    PlainWants(config, w);
    OnePageKernelFits(addr);
    OnePageKernelLoads(addr, memory);
    var f, e := OnePageKernel(addr), OnePageElf(addr);
    assert |{2 * LEVEL_4_SIZE / 4096}| == 1;
    hide SegmentsAdded, ConfigEntries, ConfigFits, SegmentsFit, Mappable, LoadImage, MapAll, MeetsEntry, BM.AllNeed;
    hide BM.AllWants;
    hide WellPlaced, BM.AllSingle, RequestOf, SizesOf;
    forall s: Entries | x.minAddr <= x.maxAddr
        && KernelAdded(e, f.elfType, x, base, ConfigEntries(config, SizesOf(w)), s)
      ensures 6 <= |BM.FreeEntries(s)|
    {
      OnePageKernelLeaves(addr, ConfigEntries(config, SizesOf(w)), s);
    }
    hide KernelAdded, BM.FreeEntries;
  }

  /** That is possible: with enough frames, a kernel of one page suits every plain configuration. */
  lemma OnePageKernelIsAmple(config: Config, w: Firmware, memory: map<int, PageBytes>, frames: seq<int>,
                             bootloader: map<int, int>, ds: seq<MemoryMap.Descriptor>, sliceStart: nat, sliceLen: nat,
                             addr: nat)
    requires Plain(config, w) && w.infoAlign > 0 && addr % 4096 == 0
    requires 5 + BM.AllNeed(RequestOf(config, w), w.infoSize) <= |frames|
    requires w.contextSwitch !in frames && w.contextSwitch + 1 !in frames
    requires forall g | g in frames :: 0 <= g < 0x800_0000
    requires forall p | p in bootloader :: 0 <= p < 0x800_0000
    requires forall n: nat, d | d in ds :: !MemoryMap.CutsFile(d, MemoryMap.Frontier(n, sliceStart, sliceLen))
    ensures Ample(config, w, OnePageKernel(addr), memory, frames, bootloader, ds, sliceStart, sliceLen)
  {
    PlainEntries(config, w);
    PlainWants(config, w);
    OnePageKernelFits(addr);
    hide ConfigEntries, ConfigFits, SegmentsFit, Mappable, WellPlaced, BM.AllNeed, BM.AllWants, BM.AllSingle;
    hide MemoryMap.CutsFile, RequestOf, SizesOf, IsExtent, ChosenAt, Suits;
    var f, s := OnePageKernel(addr), ConfigEntries(config, SizesOf(w));
    forall e, x, base | PlacedFor(f, e, x, base, s, config.mappings.aslr)
      ensures Suits(config, w, f, memory, frames, e, x, base)
    {
      assert e == OnePageElf(addr);
      OnePageKernelSuits(config, w, memory, frames, addr, x, base);
    }
  }

  /** Whether neither the kernel nor an area is in the way of an identity mapping, if the kernel is position
      independent, the GDT lies below 512 GiB and the context switch code is not the allocator's. */
  ghost predicate PieIsFree(elfType: ElfType, contextSwitch: int, frames: seq<int>, kernel: map<int, int>,
                            mapper: BM.Mapper)
    reads mapper
  {
    elfType == SharedObject && contextSwitch !in frames && contextSwitch + 1 !in frames && LowGdt(mapper.gdt) ==>
      !mapper.GdtMet() && !BM.Blocked(kernel, map[], contextSwitch, mapper.gdt)
  }

  lemma PieStops(elfType: ElfType, contextSwitch: int, frames: seq<int>, space: PagedMemory, mapper: BM.Mapper)
    requires space.Valid() && (elfType == SharedObject ==> AboveFirst(space.view)) && BM.AreFrames(space.free)
    requires 0 <= contextSwitch && contextSwitch + 1 < 0x800_0000 && forall g | g !in frames :: g !in space.free
    requires mapper.Valid() && (mapper.gdt.Some? ==> Taken(mapper.gdt.value, space.free, mapper.table.free))
    ensures PieIsFree(elfType, contextSwitch, frames, KernelMap(space.pt), mapper)
  {
    hide BM.Mapper.Valid, BM.Mapper.GdtMet, PagedMemory.Valid, KernelMap, BM.Blocked, LowGdt, Taken, AboveFirst;
    if elfType == SharedObject && contextSwitch !in frames && contextSwitch + 1 !in frames && LowGdt(mapper.gdt) {
      PieNotBlocked(space, contextSwitch, mapper);
    }
  }

  /** Whether a run stops after loading the kernel, as `space` shows it, for a reason of the mappings, in the
      state of `mapper`. */
  ghost predicate StopsAtMap(r: Failure, config: Config, w: Firmware, f: File, memory: map<int, PageBytes>,
                             frames: seq<int>, bootloader: map<int, int>, e: Elf, x: Extent, base: int,
                             space: PagedMemory, mapper: BM.Mapper)
    requires w.infoAlign > 0
    reads space, mapper, mapper.used.entryState, mapper.table
  {
    var kernel, q := KernelMap(space.pt), RequestOf(config, w);
    && space.Valid() && mapper.Valid() && mapper.used.aslr == config.mappings.aslr
    && IsLoaded(config, SizesOf(w), f, memory, frames, e, x, base, space.view, mapper.kernelEntries, space.free)
    && (mapper.gdt.Some? ==> BM.GdtFrom(mapper.gdt.value, space.free, q.stackSize))
    && mapper.MapFails(r, kernel, bootloader, space.free, q, w.infoSize, w.infoAlign)
    && PieIsFree(f.elfType, w.contextSwitch, frames, kernel, mapper)
  }

  /** Whether the page table shows the image of the file, a position independent kernel and the areas are
      inside the configured range, these are apart and lead where they shall, and guard page and recursive
      entry are unmapped. */
  ghost predicate WellMapped(b: Booted, config: Config, w: Firmware, f: File, memory: map<int, PageBytes>)
    reads b.space, b.mapper, b.mapper.used.entryState, b.mapper.table
  {
    var q := RequestOf(config, w);
    && b.space.Valid() && b.mapper.Valid() && LoadImage(b.elf, memory) == Ok(b.space.view)
    && ShowsImage(b.space.view, b.space.phys, b.mapper.table.small)
    && (f.elfType == SharedObject && SizeFitsEntries(f) ==> PagesInRange(b.space.view, config.mappings))
    && AreasApart(b.mapper.areas, q, b.placed, b.bootInfo, w.infoSize, b.space.view)
    && AreasInRange(b.mapper.areas, config.mappings) && b.mapper.Reached(q, b.placed)
    && b.mapper.guard == Some(b.placed.stackStart - 1) && b.mapper.GuardUnmapped(b.placed)
    && (q.recursive ==>
          b.placed.recursiveIndex.Some? && b.mapper.Empty(BM.Area(b.placed.recursiveIndex.value, 1)))
  }

  /** Whether stack, GDT and boot info are on frames of their own, boot info is mapped to these for the
      bootloader, too, and all frames behind pages came from the file or left the supply. */
  ghost predicate WellSupplied(b: Booted, own: BM.Own, q: BM.Request, infoSize: nat, frames: seq<int>,
                               bootloader: map<int, int>)
    reads b.space, b.mapper.table
  {
    && own.placed == b.placed && own.bootInfo == b.bootInfo && own.size == infoSize
    && BM.OwnFrames(own, q, b.mapper.table.small, b.space.free, b.mapper.table.free)
    && Keeps(own.info, b.mapper.table.own) && Keeps(bootloader, b.mapper.table.own)
    && IsRest(b.mapper.table.free, b.space.free) && IsRest(b.space.free, frames)
    && forall p | p in b.space.pt && b.space.pt[p].frame in frames ::
         Taken(b.space.pt[p].frame, frames, b.mapper.table.free)
  }

  lemma MapperInRange(mapper: BM.Mapper, m: Mappings)
    requires mapper.Valid() && InRange(mapper.kernelEntries, RangeStart(m), RangeEnd(m))
    ensures AreasInRange(mapper.areas, m)
  {
    hide BM.Mapper.Valid, InRange, AreasInRange, RangeStart, RangeEnd;
    mapper.AreasAreOk();
    AreasAreInRange(mapper.areas, mapper.kernelEntries, mapper.used.State(), m);
  }

  lemma IsWellMapped(b: Booted, config: Config, w: Firmware, f: File, memory: map<int, PageBytes>, x: Extent)
    requires b.space.Valid() && b.mapper.Valid() && LoadImage(b.elf, memory) == Ok(b.space.view)
    requires Keeps(KernelMap(b.space.pt), b.mapper.table.small)
    requires f.elfType == SharedObject ==>
      && IsExtent(f.headers, x)
      && ((x.maxAddr - x.minAddr) % LEVEL_4_SIZE != 0 ==> PagesInRange(b.space.view, config.mappings))
    requires var q := RequestOf(config, w);
      && AreasApart(b.mapper.areas, q, b.placed, b.bootInfo, w.infoSize, b.space.view)
      && AreasInRange(b.mapper.areas, config.mappings) && b.mapper.Reached(q, b.placed)
      && b.mapper.guard == Some(b.placed.stackStart - 1) && b.mapper.GuardUnmapped(b.placed)
      && (q.recursive ==>
            b.placed.recursiveIndex.Some? && b.mapper.Empty(BM.Area(b.placed.recursiveIndex.value, 1)))
    ensures WellMapped(b, config, w, f, memory)
  {
    hide PagedMemory.Valid, BM.Mapper.Valid, LoadImage, Keeps, KernelMap, IsExtent, PagesInRange, AreasApart;
    hide ShowsImage, AreasInRange, BM.Mapper.Reached, BM.Mapper.GuardUnmapped, BM.Mapper.Empty, RequestOf;
    ImageShown(b.space, b.mapper.table.small);
  }

  lemma IsWellSupplied(b: Booted, own: BM.Own, q: BM.Request, infoSize: nat, frames: seq<int>,
                       bootloader: map<int, int>)
    requires b.space.Valid() && b.space.frames0 == frames && b.space.pool == (set g | g in frames)
    requires own.placed == b.placed && own.bootInfo == b.bootInfo && own.size == infoSize
    requires BM.OwnFrames(own, q, b.mapper.table.small, b.space.free, b.mapper.table.free)
    requires Keeps(own.info, b.mapper.table.own) && Keeps(bootloader, b.mapper.table.own)
    requires IsRest(b.mapper.table.free, b.space.free) && IsRest(b.space.free, frames)
    ensures WellSupplied(b, own, q, infoSize, frames, bootloader)
  {
    hide PagedMemory.Valid, BM.OwnFrames, Keeps, IsRest, Taken;
    KernelFramesGone(b.space, b.mapper.table.free);
  }

  /** Whether everything that configuration and firmware ask for is there, and leads where it shall. */
  ghost predicate AsAsked(b: Booted, own: BM.Own, config: Config, w: Firmware)
    reads b.space, b.mapper.table
  {
    var p, small, huge := b.placed, b.mapper.table.small, b.mapper.table.huge;
    && (p.physicalMemory.Some? <==> config.mappings.physicalMemory.Some?)
    && (p.physicalMemory.Some? ==> BM.Leads(small, huge, p.physicalMemory.value, 0, w.maxPhysAddr))
    && (p.recursiveIndex.Some? <==> config.mappings.pageTableRecursive.Some?)
    && (p.framebuffer.Some? <==> w.framebuffer.Some?)
    && (p.framebuffer.Some? ==>
          BM.Leads(small, huge, p.framebuffer.value, w.framebuffer.value.addr, w.framebuffer.value.len))
    && (p.ramdisk.Some? <==> w.ramdisk.Some?)
    && (p.ramdisk.Some? ==>
          BM.Leads(small, huge, p.ramdisk.value, w.ramdisk.value.addr / 4096 * 4096, w.ramdisk.value.len))
    && p.stackTop == (p.stackStart * 4096 + config.kernelStackSize) / 16 * 16 && Keeps(own.stack, small)
    && FreshFrames(p.stackStart, (p.stackStart * 4096 + config.kernelStackSize - 1) / 4096, own.stack,
                   b.space.free, b.mapper.table.free)
    && (forall g | g in {w.contextSwitch, w.contextSwitch + 1, p.gdtFrame} :: g in small && small[g] == g)
  }

  lemma IsAsAsked(b: Booted, own: BM.Own, config: Config, w: Firmware, f: File, memory: map<int, PageBytes>,
                  frames: seq<int>, bootloader: map<int, int>)
    requires WellMapped(b, config, w, f, memory)
    requires WellSupplied(b, own, RequestOf(config, w), w.infoSize, frames, bootloader)
    requires b.placed.stackTop == (b.placed.stackStart * 4096 + config.kernelStackSize) / 16 * 16
    ensures AsAsked(b, own, config, w)
  {
    hide PagedMemory.Valid, BM.Mapper.Valid, LoadImage, PagesInRange, ShowsImage, AreasInRange, BM.Mapper.Empty;
    hide FreshFrames, BM.Leads, BM.Within, Keeps, IsRest, Taken;
  }

  /** A whole run, for a configuration without fixed addresses. If it comes to its end, the kernel's page
      table shows the image of the file, a position independent kernel and all other mappings are inside
      the configured range, the latter in areas of their own, boot info is at the same place for the
      bootloader, and no frame taken on the way, be it for the kernel, page tables, stack, GDT or boot info, is
      reported as usable, nor is the file. Otherwise it stops at a step that fails for one of its reasons, in
      the state that possible choices in the steps before lead to. */
  method Run(config: Config, w: Firmware, f: File, memory: map<int, PageBytes>, frames: seq<int>,
             bootloader: map<int, int>, alloc: FrameAllocator.LegacyFrameAllocator,
             regions: array<MemoryMap.Region>, sliceStart: nat, sliceLen: nat)
    returns (r: Result<Booted>, ghost own: BM.Own, ghost stop: Stop)
    requires AllDynamic(config.mappings) && RequestOf(config, w).Sane()
    requires w.infoSize % LEVEL_4_SIZE != 0 && IsPowerOfTwo(w.infoAlign) && 0 < w.infoAlign <= LEVEL_4_SIZE
    requires WellFormed(f) && StoredApart(f, memory, frames)
    requires forall g | g in frames :: g in memory
    requires alloc.Valid() && MemoryMap.Tidy(alloc.original) && MemoryMap.PageAligned(alloc.original)
    requires FrameAllocator.IsFuture(alloc.original, alloc.nextFrame, frames)
    requires regions.Length >= |alloc.original| + 4
    modifies alloc, regions
    ensures r.Ok? <==> stop.Nowhere?
    ensures Ample(config, w, f, memory, frames, bootloader, alloc.original, sliceStart, sliceLen) ==> r.Ok?
    ensures stop.AtLoad? ==>
      LoadFails(r.error, config, SizesOf(w), f, memory, frames, stop.elf, stop.x, stop.base)
    ensures stop.AtMap? ==>
      StopsAtMap(r.error, config, w, f, memory, frames, bootloader, stop.loaded, stop.x, stop.base,
                 stop.space, stop.mapper)
    ensures stop.AtMemoryMap? ==>
      && PlacedFor(f, stop.loaded, stop.x, stop.base, ConfigEntries(config, SizesOf(w)), config.mappings.aslr)
      && LoadImage(stop.loaded, memory).Ok?
      && stop.taken <= |frames| && alloc.Valid() && alloc.handedOut == old(alloc.handedOut) + frames[..stop.taken]
      && stop.taken <= LoadNeed(stop.loaded, memory) + BM.AllNeed(RequestOf(config, w), w.infoSize)
      && exists d :: d in alloc.original && MemoryMap.CutsFile(d, alloc.Edge(sliceStart, sliceLen))
    ensures r.Ok? ==> AsAsked(r.value, own, config, w)
    ensures r.Ok? ==> WellMapped(r.value, config, w, f, memory)
    ensures r.Ok? ==> WellSupplied(r.value, own, RequestOf(config, w), w.infoSize, frames, bootloader)
    ensures r.Ok? ==>
      var b, edge := r.value, alloc.Edge(sliceStart, sliceLen);
      && b.regionCount <= regions.Length && GoneAreReserved(frames, b.mapper.table.free, regions[..b.regionCount])
      && MemoryMap.RegionsOfAll(alloc.original, edge, |alloc.original|) == Ok(regions[..b.regionCount])
      && (FileInSlice(f, edge) ==> KernelReserved(b.space.pt, regions[..b.regionCount], edge))
  {
    hide PagedMemory.Valid, BM.Mapper.Valid, BM.Mapper.Empty, BM.ReachedIn, AreasApart, BM.OwnFrames, PagesUsed;
    hide InRange;
    hide LoadImage, IsRest, GoneAreReserved, ShowsImage, AreasInRange, WellFormed, StoredApart, IsPowerOfTwo, Keeps;
    hide FrameAllocator.LegacyFrameAllocator.Valid, FrameAllocator.IsFuture, MemoryMap.Tidy, MemoryMap.PageAligned;
    hide LoadFails, BM.Mapper.MapFails, MemoryMap.CutsFile, BM.Blocked, MemoryMap.RegionsOfAll, KernelReserved;
    hide OutsideIsFile, PagesInRange, BM.Mapper.GuardUnmapped, AboveFirst, IsExtent, KernelMap, Taken, BM.AreFrames;
    hide PlacedFor, KernelAdded, ConfigEntries, ConfigFits, LoadNeed, BM.AllNeed, BM.GdtFrom, BM.Mapper.GdtMet;
    hide LowGdt, Ample, PieIsFree, WellMapped, WellSupplied, AsAsked;
    own, stop := BM.Own(map[], map[], BM.Placed(0, 0, 0, None, None, None, None), 0, 0), Nowhere;
    FutureIsDistinct(alloc.original, alloc.nextFrame, frames);
    var loaded, used, space;
    ghost var elf, x, base;
    loaded, used, space, elf, x, base := LoadKernelFile(config, SizesOf(w), f, memory, frames);
    if loaded.Err? {
      if Ample(config, w, f, memory, frames, bootloader, alloc.original, sliceStart, sliceLen) {
        AmpleLoads(config, w, f, memory, frames, bootloader, alloc.original, sliceStart, sliceLen,
                   loaded.error, elf, x, base);
      }
      return Err(loaded.error), own, AtLoad(elf, x, base);
    }
    SupplyFacts(space, frames);
    var mapped, mapper;
    mapped, mapper, own := MapRest(used, space, bootloader, RequestOf(config, w), w.infoSize, w.infoAlign);
    if mapped.Err? {
      PieStops(f.elfType, w.contextSwitch, frames, space, mapper);
      if Ample(config, w, f, memory, frames, bootloader, alloc.original, sliceStart, sliceLen) {
        AmpleMaps(config, w, f, memory, frames, bootloader, alloc.original, sliceStart, sliceLen,
                  mapped.error, loaded.value, x, base, space, mapper);
      }
      return Err(mapped.error), own, AtMap(loaded.value, x, base, space, mapper);
    }
    MapperInRange(mapper, config.mappings);
    RestTwice(mapper.table.free, space.free, frames);
    RestCount(mapper.table.free, frames);
    var described := Describe(alloc, frames, mapper.table.free, regions, sliceStart, sliceLen);
    if described.Err? {
      if Ample(config, w, f, memory, frames, bootloader, alloc.original, sliceStart, sliceLen) {
        AmpleDescribes(config, w, f, memory, frames, bootloader, alloc, sliceStart, sliceLen);
      }
      return Err(described.error), own, AtMemoryMap(loaded.value, x, base, |frames| - |mapper.table.free|);
    }
    ghost var edge := alloc.Edge(sliceStart, sliceLen);
    if FileInSlice(f, edge) {
      KernelIsReserved(space, f, mapper.table.free, alloc.original, edge, regions[..described.value]);
    }
    var b := Booted(loaded.value, space, mapper, mapped.value.0, mapped.value.1, described.value);
    IsWellMapped(b, config, w, f, memory, x);
    IsWellSupplied(b, own, RequestOf(config, w), w.infoSize, frames, bootloader);
    IsAsAsked(b, own, config, w, f, memory, frames, bootloader);
    r := Ok(b);
  }

  lemma RestCount(rest: seq<int>, all: seq<int>)
    requires IsRest(rest, all)
    ensures |rest| <= |all|
  {
  }

  lemma FutureIsDistinct(ds: seq<MemoryMap.Descriptor>, from: nat, frames: seq<int>)
    requires FrameAllocator.IsFuture(ds, from, frames)
    ensures BM.AreFrames(frames) && forall i, j | 0 <= i < j < |frames| :: frames[i] != frames[j]
  {
    forall i | 0 <= i < |frames|
      ensures 0 <= frames[i]
    {
      assert frames[i] in frames;
    }
  }

  lemma SupplyFacts(space: PagedMemory, frames: seq<int>)
    requires space.Valid() && space.frames0 == frames && BM.AreFrames(frames)
    ensures IsRest(space.free, frames) && BM.AreFrames(space.free)
    ensures forall g | g !in frames :: g !in space.free
  {
    RestMembers(space.free, frames);
    BM.RestAreFrames(space.free, frames);
  }
}
