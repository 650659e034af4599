/** The mappings the bootloader adds after loading the kernel: stack, context switch code, framebuffer,
    ramdisk, physical memory, recursive page table and boot info. */
module BootMappings {
  import opened Outcomes
  import opened VirtualSpace
  import opened Level4Entries
  import opened KernelTable
  import opened FrameSupply
  import opened Placement
  import ElfImage

  /** A number of consecutive level 4 entries. */
  datatype Area = Area(first: int, count: nat)

  predicate InArea(a: Area, e: int) { a.first <= e < a.first + a.count }

  predicate Apart(a: Area, b: Area) { a.first + a.count <= b.first || b.first + b.count <= a.first }

  /** Whether the bytes from `addr` to below `addr + size` lie in the entries of `a`. */
  predicate Within(a: Area, addr: int, size: int) {
    a.first * LEVEL_4_SIZE <= addr && addr + size <= (a.first + a.count) * LEVEL_4_SIZE
  }

  /** Pages within an area have its entries; the area ends with a page. */
  lemma PagesWithin(a: Area, addr: int, size: int, p: int)
    requires Within(a, addr, size) && addr / 4096 <= p <= (addr + size - 1) / 4096
    ensures InArea(a, PageEntry(p))
  {
  }

  lemma HugeWithin(a: Area, addr: int, size: int, q: int)
    requires Within(a, addr, size) && addr / 0x20_0000 <= q <= (addr + size - 1) / 0x20_0000
    ensures InArea(a, HugeEntry(q))
  {
  }

  lemma EntryOfHalf(p: int)
    ensures HugeEntry(p / 512) == PageEntry(p)
  {
  }

  /** A range of physical memory. */
  datatype PhysRange = PhysRange(addr: nat, len: nat)

  /** What to map, and how much of it. */
  datatype Request = Request(
    stackSize: nat, contextSwitch: int, framebuffer: Option<PhysRange>, ramdisk: Option<PhysRange>,
    physicalMemory: Option<nat>, recursive: bool)
  {
    /** Sizes are no multiples of 512 GiB, so not zero either, and the framebuffer starts with a page. */
    predicate Sane() {
      && stackSize > 0 && (4096 + stackSize) % LEVEL_4_SIZE != 0
      && 0 <= contextSwitch && contextSwitch + 1 < 0x800_0000
      && (framebuffer.Some? ==> framebuffer.value.len % LEVEL_4_SIZE != 0 && framebuffer.value.addr % 4096 == 0)
      && (ramdisk.Some? ==> ramdisk.value.len % LEVEL_4_SIZE != 0)
      && (physicalMemory.Some? ==> physicalMemory.value % LEVEL_4_SIZE != 0)
    }
  }

  /** What framebuffer, ramdisk, physical memory and recursive page table want, and how many frames they
      may take. */
  function RangeWant(range: Option<PhysRange>, aslr: bool): seq<Want> {
    if range.Some? then [WantFor(range.value.len, 4096, aslr)] else []
  }

  function MemoryWant(maxPhys: Option<nat>, aslr: bool): seq<Want> {
    if maxPhys.Some? then [WantFor(maxPhys.value, 0x20_0000, aslr)] else []
  }

  function EntryWant(recursive: bool): seq<Want> { if recursive then [Want(1, true)] else [] }

  function OptionalWants(q: Request, aslr: bool): seq<Want> {
    RangeWant(q.framebuffer, aslr) + RangeWant(q.ramdisk, aslr)
    + MemoryWant(q.physicalMemory, aslr) + EntryWant(q.recursive)
  }

  /** They are wanted in order. */
  lemma WantedInOrder(before: seq<Want>, q: Request, aslr: bool)
    ensures var framebuffer := before + RangeWant(q.framebuffer, aslr);
            var ramdisk := framebuffer + RangeWant(q.ramdisk, aslr);
            var physical := ramdisk + MemoryWant(q.physicalMemory, aslr);
            var all := before + OptionalWants(q, aslr);
            framebuffer <= all && ramdisk <= all && physical <= all && physical + EntryWant(q.recursive) == all
  {
    hide RangeWant, MemoryWant, EntryWant;
  }

  function RangeNeed(range: Option<PhysRange>): nat { if range.Some? then 3 * PagesFor(range.value.len) else 0 }

  function MemoryNeed(maxPhys: Option<nat>): nat { if maxPhys.Some? then 3 * HugePagesFor(maxPhys.value) else 0 }

  function OptionalNeed(q: Request): nat {
    RangeNeed(q.framebuffer) + RangeNeed(q.ramdisk) + MemoryNeed(q.physicalMemory)
  }

  /** The same for everything, in order: the stack with its guard page first, boot info last. */
  function AllWants(q: Request, size: nat, alignment: nat, aslr: bool): seq<Want>
    requires alignment > 0
  {
    [WantFor(4096 + q.stackSize, 4096, aslr)] + OptionalWants(q, aslr) + [WantFor(size, alignment, aslr)]
  }

  function AllNeed(q: Request, size: nat): nat {
    4 * PagesFor(q.stackSize) + 10 + OptionalNeed(q) + 7 * (PagesFor(size) + 1)
  }

  /** Where everything was mapped. */
  datatype Placed = Placed(
    stackStart: int, stackTop: int, gdtFrame: int, framebuffer: Option<int>, ramdisk: Option<int>,
    physicalMemory: Option<int>, recursiveIndex: Option<nat>)

  function One(present: bool): nat { if present then 1 else 0 }

  /** Whether stack with guard page, framebuffer, ramdisk, physical memory and recursive page table each
      have an area of their own. */
  ghost predicate LaidOut(areas: seq<Area>, q: Request, p: Placed) {
    var ramdisk := 1 + One(q.framebuffer.Some?);
    var physical := ramdisk + One(q.ramdisk.Some?);
    var recursive := physical + One(q.physicalMemory.Some?);
    && |areas| == recursive + One(q.recursive)
    && p.framebuffer.Some? == q.framebuffer.Some? && p.ramdisk.Some? == q.ramdisk.Some?
    && p.physicalMemory.Some? == q.physicalMemory.Some? && p.recursiveIndex.Some? == q.recursive
    && Within(areas[0], (p.stackStart - 1) * 4096, 4096 + q.stackSize)
    && (q.framebuffer.Some? ==> Within(areas[1], p.framebuffer.value, q.framebuffer.value.len))
    && (q.ramdisk.Some? ==> Within(areas[ramdisk], p.ramdisk.value, q.ramdisk.value.len))
    && (q.physicalMemory.Some? ==> Within(areas[physical], p.physicalMemory.value, q.physicalMemory.value))
    && (q.recursive ==> areas[recursive] == Area(p.recursiveIndex.value, 1))
  }

  /** Whether an area lies in entries that are in use now and were not before. */
  ghost predicate AreaOk(a: Area, before: Entries, now: Entries) {
    && a.count > 0 && 0 <= a.first && a.first + a.count <= 512
    && forall e | 0 <= e < 512 && InArea(a, e) :: now[e] && !before[e]
  }

  /** The reserved areas share no entry with each other or with what was in use before. */
  ghost predicate AreasOk(areas: seq<Area>, before: Entries, now: Entries) {
    && (forall i, j | 0 <= i < j < |areas| :: Apart(areas[i], areas[j]))
    && (forall i | 0 <= i < |areas| :: AreaOk(areas[i], before, now))
  }

  lemma AddArea(areas: seq<Area>, kernel: Entries, before: Entries, a: Area)
    requires AreasOk(areas, kernel, before) && Extends(kernel, before)
    requires a.count > 0 && Free(before, a.first, a.count)
    ensures AreasOk(areas + [a], kernel, Marked(before, a.first, a.first + a.count - 1))
  {
    var now := Marked(before, a.first, a.first + a.count - 1);
    forall i | 0 <= i < |areas|
      ensures Apart(areas[i], a) && AreaOk(areas[i], kernel, now)
    {
      var b := areas[i];
      assert AreaOk(b, kernel, before);
      var e := if a.first > b.first then a.first else b.first;
      assert !(0 <= e < 512 && InArea(b, e) && InArea(a, e));
    }
    assert AreaOk(a, kernel, now);
  }

  /** What an area is asked for: its entries, and whether there is an offset to start at. */
  datatype Want = Want(entries: nat, offsets: bool)

  function WantFor(size: nat, alignment: nat, aslr: bool): Want
    requires alignment > 0
  {
    Want(EntriesFor(size), !aslr || Slots(size, alignment) > 0)
  }

  /** The entries in use once the areas are taken, too. */
  function After(s: Entries, areas: seq<Area>): Entries {
    if areas == [] then s
    else
      var a := areas[|areas| - 1];
      Marked(After(s, areas[..|areas| - 1]), a.first, a.first + a.count - 1)
  }

  /** Whether an area is a possible choice: free entries, the first such ones without randomization. */
  ghost predicate IsChoice(s: Entries, a: Area, w: Want, aslr: bool) {
    && a.count == w.entries > 0 && w.offsets
    && Free(s, a.first, a.count) && (!aslr ==> FirstFree(s, a.first, a.count))
  }

  /** Whether the areas are possible choices for what was wanted, one after the other. */
  ghost predicate Chosen(s: Entries, areas: seq<Area>, wants: seq<Want>, aslr: bool) {
    && |areas| <= |wants|
    && forall i | 0 <= i < |areas| :: IsChoice(After(s, areas[..i]), areas[i], wants[i], aslr)
  }

  /** Whether there is no choice. */
  ghost predicate NoChoice(s: Entries, w: Want) {
    !w.offsets || forall k :: !Free(s, k, w.entries)
  }

  lemma ChosenNext(s: Entries, areas: seq<Area>, wants: seq<Want>, aslr: bool, a: Area, w: Want)
    requires Chosen(s, areas, wants, aslr) && |areas| == |wants| && IsChoice(After(s, areas), a, w, aslr)
    ensures Chosen(s, areas + [a], wants + [w], aslr)
    ensures After(s, areas + [a]) == Marked(After(s, areas), a.first, a.first + a.count - 1)
  {
    hide IsChoice, Marked;
    var all := areas + [a];
    assert all[..|areas|] == areas;
    forall i | 0 <= i < |all|
      ensures IsChoice(After(s, all[..i]), all[i], (wants + [w])[i], aslr)
    {
      if i < |areas| {
        assert all[..i] == areas[..i];
      }
    }
  }

  lemma ChosenMore(s: Entries, areas: seq<Area>, wants: seq<Want>, aslr: bool, w: Want)
    requires Chosen(s, areas, wants, aslr)
    ensures Chosen(s, areas, wants + [w], aslr)
  {
    hide IsChoice;
  }

  ghost function FreeEntries(s: Entries): set<int> {
    set i | 0 <= i < 512 && !s[i]
  }

  lemma FreeIsEntry(s: Entries, i: int)
    requires i in FreeEntries(s)
    ensures Free(s, i, 1)
  {
  }

  /** Taking one entry leaves at most one less. */
  lemma OneEntryLess(s: Entries, first: int)
    ensures |FreeEntries(Marked(s, first, first))| + 1 >= |FreeEntries(s)|
  {
    var rest := FreeEntries(Marked(s, first, first));
    assert FreeEntries(s) <= rest + {first};
    assert (rest + {first}) * FreeEntries(s) == FreeEntries(s);
    assert |rest + {first}| == |(rest + {first}) - FreeEntries(s)| + |(rest + {first}) * FreeEntries(s)|;
  }

  /** Whether all areas wanted have a single entry each. */
  predicate AllSingle(wants: seq<Want>) {
    forall i | 0 <= i < |wants| :: wants[i] == Want(1, true)
  }

  lemma WantsSingle(wants: seq<Want>, all: seq<Want>)
    requires wants <= all && AllSingle(all)
    ensures AllSingle(wants)
  {
    forall i | 0 <= i < |wants|
      ensures wants[i] == Want(1, true)
    {
      assert wants[i] == all[i];
    }
  }

  lemma {:induction false} EntriesLeft(s: Entries, areas: seq<Area>, wants: seq<Want>, aslr: bool)
    requires Chosen(s, areas, wants, aslr) && AllSingle(wants)
    ensures |FreeEntries(After(s, areas))| + |areas| >= |FreeEntries(s)|
  {
    if areas != [] {
      var n := |areas| - 1;
      assert forall i | 0 <= i < n :: areas[..n][..i] == areas[..i];
      EntriesLeft(s, areas[..n], wants, aslr);
      assert IsChoice(After(s, areas[..n]), areas[n], wants[n], aslr);
      OneEntryLess(After(s, areas[..n]), areas[n].first);
    }
  }

  /** With as many free entries as there are areas, there is a choice for each, whatever the others were. */
  lemma AlwaysAChoice(s: Entries, areas: seq<Area>, wants: seq<Want>, aslr: bool)
    requires Chosen(s, areas, wants, aslr) && AllSingle(wants) && |areas| < |wants| <= |FreeEntries(s)|
    ensures !NoChoice(After(s, areas), wants[|areas|])
  {
    EntriesLeft(s, areas, wants, aslr);
    var left := FreeEntries(After(s, areas));
    assert left != {};
    var i :| i in left;
    FreeIsEntry(After(s, areas), i);
  }

  /** The number of pages that `len` bytes take, from the start of one on. */
  function PagesFor(len: nat): nat { (len + 4095) / 4096 }

  function HugePagesFor(len: nat): nat { (len + 0x1F_FFFF) / 0x20_0000 }

  /** Whether the byte at distance `i` from `virt` leads to the one at this distance from `phys`. */
  ghost predicate LeadsAt(small: map<int, int>, huge: map<int, int>, virt: int, phys: int, i: int) {
    Translate(small, huge, virt + i) == Some(phys + i)
  }

  /** Whether the `len` bytes from `virt` on lead to those from `phys` on. */
  ghost predicate Leads(small: map<int, int>, huge: map<int, int>, virt: int, phys: int, len: nat) {
    forall i | 0 <= i < len :: LeadsAt(small, huge, virt, phys, i)
  }

  lemma RunLeads(small: map<int, int>, huge: map<int, int>, first: int, last: int, frame: int, len: nat)
    requires len <= (last - first + 1) * 4096 && Keeps(Run(first, last, frame), small)
    ensures Leads(small, huge, first * 4096, frame * 4096, len)
  {
    forall i | 0 <= i < len
      ensures LeadsAt(small, huge, first * 4096, frame * 4096, i)
    {
      var p := (first * 4096 + i) / 4096;
      assert p == first + i / 4096 && (first * 4096 + i) % 4096 == i % 4096;
      assert p in Run(first, last, frame) && Run(first, last, frame)[p] == RunFrame(first, frame, p);
    }
  }

  lemma HugeRunLeads(small: map<int, int>, huge: map<int, int>, first: int, last: int, len: nat)
    requires len <= (last - first + 1) * 0x20_0000 && Keeps(Run(first, last, 0), huge)
    requires forall p | p in small :: p / 512 !in huge
    ensures Leads(small, huge, first * 0x20_0000, 0, len)
  {
    forall i | 0 <= i < len
      ensures LeadsAt(small, huge, first * 0x20_0000, 0, i)
    {
      var addr := first * 0x20_0000 + i;
      var q := addr / 0x20_0000;
      assert q == first + i / 0x20_0000 && addr % 0x20_0000 == i % 0x20_0000;
      assert q in Run(first, last, 0) && Run(first, last, 0)[q] == RunFrame(first, 0, q);
      assert addr / 4096 / 512 == q;
    }
  }

  /** Leading somewhere is kept by more mappings. */
  lemma LeadsKept(s: map<int, int>, h: map<int, int>, s': map<int, int>, h': map<int, int>, virt: int, phys: int,
                  len: nat)
    requires Keeps(s, s') && Keeps(h, h') && Leads(s, h, virt, phys, len)
    requires forall p | p in s' :: p / 512 !in h'
    ensures Leads(s', h', virt, phys, len)
  {
    forall i | 0 <= i < len
      ensures LeadsAt(s', h', virt, phys, i)
    {
      assert LeadsAt(s, h, virt, phys, i);
      TranslateKept(s, h, s', h', virt + i);
    }
  }

  /** Whether the two frames of the context switch code and the frame of the GDT are mapped to themselves. */
  ghost predicate IdentityMapped(small: map<int, int>, contextSwitch: int, gdt: int) {
    forall f | f in {contextSwitch, contextSwitch + 1, gdt} :: f in small && small[f] == f
  }

  /** Whether nothing is mapped there, and the frames are different. */
  ghost predicate IdentityVacant(small: map<int, int>, huge: map<int, int>, contextSwitch: int, gdt: int) {
    && gdt != contextSwitch && gdt != contextSwitch + 1
    && Vacant(small, huge, contextSwitch) && Vacant(small, huge, contextSwitch + 1) && Vacant(small, huge, gdt)
  }

  /** Whether the identity mappings are impossible: a page of the context switch code is taken, or that of
      the frame the GDT was given, if it got that far; or that frame has no page with its number. */
  ghost predicate Blocked(small: map<int, int>, huge: map<int, int>, contextSwitch: int, gdt: Option<int>) {
    || !Vacant(small, huge, contextSwitch) || !Vacant(small, huge, contextSwitch + 1)
    || (gdt.Some? && (gdt.value >= PAGE_COUNT || !IdentityVacant(small, huge, contextSwitch, gdt.value)))
  }

  /** Mappings in an area block nothing outside of it. */
  lemma BlockedEarlier(small: map<int, int>, small': map<int, int>, huge: map<int, int>, a: Area, contextSwitch: int,
                       gdt: Option<int>)
    requires Blocked(small', huge, contextSwitch, gdt) && (gdt.Some? ==> !InArea(a, PageEntry(gdt.value)))
    requires 0 <= contextSwitch && contextSwitch + 1 < 0x800_0000 && !InArea(a, 0)
    requires forall p | p in small' :: p in small || InArea(a, PageEntry(p))
    ensures Blocked(small, huge, contextSwitch, gdt)
  {
    assert PageEntry(contextSwitch) == PageEntry(contextSwitch + 1) == 0;
  }

  /** Whether the frame is among those the supply gives after `lo` to `hi` others. */
  ghost predicate TakenAt(g: int, free: seq<int>, lo: nat, hi: nat) {
    exists i :: lo <= i <= hi && i < |free| && free[i] == g
  }

  /** Whether the GDT may have been given the frame: those of the stack, page tables among them, and page
      tables for the context switch code come before. */
  ghost predicate GdtFrom(g: int, free: seq<int>, stackSize: nat) {
    TakenAt(g, free, PagesFor(stackSize), 4 * PagesFor(stackSize) + 6)
  }

  lemma NextOfRest(g: int, rest: seq<int>, all: seq<int>, hi: nat)
    requires IsRest(rest, all) && rest != [] && rest[0] == g && |all| <= |rest| + hi
    ensures TakenAt(g, all, 0, hi)
  {
    assert all[|all| - |rest|] == g;
  }

  lemma TakenAtEarlier(g: int, rest: seq<int>, all: seq<int>, stackSize: nat)
    requires IsRest(rest, all) && TakenAt(g, rest, 0, 6)
    requires |rest| + PagesFor(stackSize) <= |all| <= |rest| + 4 * PagesFor(stackSize)
    ensures GdtFrom(g, all, stackSize)
  {
    hide PagesFor;
    var i :| 0 <= i <= 6 && i < |rest| && rest[i] == g;
    assert all[|all| - |rest| + i] == g;
  }

  lemma IdentityKept(small: map<int, int>, small': map<int, int>, contextSwitch: int, gdt: int)
    requires Keeps(small, small') && IdentityMapped(small, contextSwitch, gdt)
    ensures IdentityMapped(small', contextSwitch, gdt)
  {
  }

  lemma NoRoomNoChoice(s: Entries, size: nat, alignment: nat, aslr: bool)
    requires alignment > 0 && NoRoom(s, size, alignment, aslr)
    ensures NoChoice(s, WantFor(size, alignment, aslr))
  {
  }

  lemma PagesFromStart(start: int, size: nat)
    requires size > 0
    ensures start <= LastPage(start * 4096, size) && Count(start, LastPage(start * 4096, size)) == PagesFor(size)
  {
  }

  /** A range takes at most one page more than its size asks for. */
  lemma PagesOfSize(addr: nat, size: nat)
    requires size > 0
    ensures addr / 4096 <= (addr + size - 1) / 4096
        && Count(addr / 4096, (addr + size - 1) / 4096) <= PagesFor(size) + 1
  {
  }

  /** A GDT at 512 GiB or above can meet what was placed before: without randomization, and with nothing but
      the first entry in use, the stack gets the next one. If it has a single page, the GDT cannot be mapped
      to that page, and can be mapped to the guard page below. */
  lemma GdtMeetsStack(contextSwitch: nat, frame: int)
    requires contextSwitch + 1 < 0x800_0000
    ensures var s, stack := Marked(seq(512, i => false), 0, 0), Area(1, 1);
            IsChoice(s, stack, WantFor(0x2000, 4096, false), false) && Within(stack, LEVEL_4_SIZE, 0x2000)
    ensures var guard := LEVEL_4_SIZE / 4096;
            var small := map[guard + 1 := frame];
            && Blocked(small, map[], contextSwitch, Some(guard + 1))
            && !Blocked(map[], map[], contextSwitch, Some(guard + 1))
            && !Blocked(small, map[], contextSwitch, Some(guard))
  {
    var s := Marked(seq(512, i => false), 0, 0);
    assert Free(s, 1, 1) && s[0];
  }

  /** Frame numbers are not negative. */
  predicate AreFrames(free: seq<int>) {
    forall i | 0 <= i < |free| :: 0 <= free[i]
  }

  lemma RestAreFrames(a: seq<int>, b: seq<int>)
    requires IsRest(a, b) && AreFrames(b)
    ensures AreFrames(a)
  {
  }

  /** Where framebuffer, ramdisk and physical memory can be found in a table. */
  ghost predicate ReachedIn(small: map<int, int>, huge: map<int, int>, q: Request, p: Placed) {
    && (q.framebuffer.Some? && p.framebuffer.Some? ==>
          Leads(small, huge, p.framebuffer.value, q.framebuffer.value.addr, q.framebuffer.value.len))
    && (q.ramdisk.Some? && p.ramdisk.Some? ==>
          Leads(small, huge, p.ramdisk.value, q.ramdisk.value.addr / 4096 * 4096, q.ramdisk.value.len))
    && (q.physicalMemory.Some? && p.physicalMemory.Some? ==>
          Leads(small, huge, p.physicalMemory.value, 0, q.physicalMemory.value))
  }

  function RangeLen(range: Option<PhysRange>): nat { if range.Some? then range.value.len else 0 }

  /** Where framebuffer and ramdisk can be found. */
  ghost predicate RangesReached(small: map<int, int>, huge: map<int, int>, q: Request, at: (Option<int>, Option<int>)) {
    && (q.framebuffer.Some? && at.0.Some? ==>
          Leads(small, huge, at.0.value, q.framebuffer.value.addr, q.framebuffer.value.len))
    && (q.ramdisk.Some? && at.1.Some? ==>
          Leads(small, huge, at.1.value, q.ramdisk.value.addr / 4096 * 4096, q.ramdisk.value.len))
  }

  /** Adding physical memory keeps that. */
  lemma RangesKept(s: map<int, int>, h: map<int, int>, s': map<int, int>, h': map<int, int>, q: Request, p: Placed)
    requires Keeps(s, s') && Keeps(h, h') && RangesReached(s, h, q, (p.framebuffer, p.ramdisk))
    requires forall p | p in s' :: p / 512 !in h'
    requires q.physicalMemory.Some? && p.physicalMemory.Some? ==>
               Leads(s', h', p.physicalMemory.value, 0, q.physicalMemory.value)
    ensures ReachedIn(s', h', q, p)
  {
    hide Leads, Keeps;
    if q.framebuffer.Some? && p.framebuffer.Some? {
      LeadsKept(s, h, s', h', p.framebuffer.value, q.framebuffer.value.addr, q.framebuffer.value.len);
    }
    if q.ramdisk.Some? && p.ramdisk.Some? {
      LeadsKept(s, h, s', h', p.ramdisk.value, q.ramdisk.value.addr / 4096 * 4096, q.ramdisk.value.len);
    }
  }

  lemma ReachedKept(s: map<int, int>, h: map<int, int>, s': map<int, int>, h': map<int, int>, q: Request, p: Placed)
    requires Keeps(s, s') && Keeps(h, h') && ReachedIn(s, h, q, p)
    requires forall p | p in s' :: p / 512 !in h'
    ensures ReachedIn(s', h', q, p)
  {
    hide Leads, Keeps;
    if q.framebuffer.Some? && p.framebuffer.Some? {
      LeadsKept(s, h, s', h', p.framebuffer.value, q.framebuffer.value.addr, q.framebuffer.value.len);
    }
    if q.ramdisk.Some? && p.ramdisk.Some? {
      LeadsKept(s, h, s', h', p.ramdisk.value, q.ramdisk.value.addr / 4096 * 4096, q.ramdisk.value.len);
    }
    if q.physicalMemory.Some? && p.physicalMemory.Some? {
      LeadsKept(s, h, s', h', p.physicalMemory.value, 0, q.physicalMemory.value);
    }
  }

  lemma KeepsTwice(a: map<int, int>, b: map<int, int>, c: map<int, int>)
    requires Keeps(a, b) && Keeps(b, c)
    ensures Keeps(a, c)
  {
  }

  lemma FreshLater(first: int, last: int, frames: map<int, int>, before: seq<int>, now: seq<int>, after: seq<int>)
    requires FreshFrames(first, last, frames, before, now) && IsRest(after, now)
    ensures FreshFrames(first, last, frames, before, after)
  {
    TakenLater(before, now, after);
  }

  lemma FreshEarlier(first: int, last: int, frames: map<int, int>, earlier: seq<int>, before: seq<int>, now: seq<int>)
    requires FreshFrames(first, last, frames, before, now) && IsRest(before, earlier)
    ensures FreshFrames(first, last, frames, earlier, now)
  {
    TakenEarlier(earlier, before, now);
  }

  lemma RecursiveHasArea(areas: seq<Area>, q: Request, p: Placed)
    requires LaidOut(areas, q, p) && q.recursive
    ensures p.recursiveIndex.Some? && Area(p.recursiveIndex.value, 1) in areas
  {
  }

  lemma KeepsThree(small: map<int, int>, a: int, gdt: int)
    requires a !in small && a + 1 !in small && gdt !in small && gdt != a && gdt != a + 1
    ensures Keeps(small, small[a := a][a + 1 := a + 1][gdt := gdt])
    ensures IdentityMapped(small[a := a][a + 1 := a + 1][gdt := gdt], a, gdt)
  {
  }

  /** Whether an area was added for something that may be missing, and holds it. */
  ghost predicate AddedIf(before: seq<Area>, after: seq<Area>, present: bool, addr: Option<int>, len: nat) {
    && addr.Some? == present && |after| == |before| + One(present) && before <= after
    && (present ==> Within(after[|before|], addr.value, len))
  }

  /** The same for an entry. */
  ghost predicate EntryAddedIf(before: seq<Area>, after: seq<Area>, present: bool, index: Option<nat>) {
    && index.Some? == present && |after| == |before| + One(present) && before <= after
    && (present ==> after[|before|] == Area(index.value, 1))
  }

  lemma LayOut(a1: seq<Area>, a2: seq<Area>, a3: seq<Area>, a4: seq<Area>, a5: seq<Area>, q: Request, p: Placed)
    requires |a1| == 1 && Within(a1[0], (p.stackStart - 1) * 4096, 4096 + q.stackSize)
    requires AddedIf(a1, a2, q.framebuffer.Some?, p.framebuffer, RangeLen(q.framebuffer))
    requires AddedIf(a2, a3, q.ramdisk.Some?, p.ramdisk, RangeLen(q.ramdisk))
    requires AddedIf(a3, a4, q.physicalMemory.Some?, p.physicalMemory,
                     if q.physicalMemory.Some? then q.physicalMemory.value else 0)
    requires EntryAddedIf(a4, a5, q.recursive, p.recursiveIndex)
    ensures LaidOut(a5, q, p)
  {
    hide Within;
    assert a5[0] == a1[0];
    if q.framebuffer.Some? {
      assert a5[1] == a2[1];
    }
    if q.ramdisk.Some? {
      assert a5[|a2|] == a3[|a2|];
    }
    if q.physicalMemory.Some? {
      assert a5[|a3|] == a4[|a3|];
    }
  }

  /** The frames of stack, GDT and boot info, and the values to find them by. */
  datatype Own = Own(stack: map<int, int>, info: map<int, int>, placed: Placed, bootInfo: int, size: nat)

  /** Whether stack and boot info have frames of their own, GDT and context switch code are mapped to
      themselves, and all frames were taken from the allocator. */
  ghost predicate OwnFrames(o: Own, q: Request, small: map<int, int>, before: seq<int>, after: seq<int>) {
    var start := o.placed.stackStart;
    && Keeps(o.stack, small) && FreshFrames(start, LastPage(start * 4096, q.stackSize), o.stack, before, after)
    && Keeps(o.info, small) && FreshFrames(FirstPage(o.bootInfo), LastPage(o.bootInfo, o.size), o.info, before, after)
    && Taken(o.placed.gdtFrame, before, after) && IdentityMapped(small, q.contextSwitch, o.placed.gdtFrame)
  }

  lemma OwnFramesKept(o: Own, q: Request, small1: map<int, int>, small: map<int, int>, free0: seq<int>,
                      free1: seq<int>, free: seq<int>)
    requires IsRest(free1, free0) && IsRest(free, free1) && Keeps(small1, small)
    requires Keeps(o.stack, small1)
    requires FreshFrames(o.placed.stackStart, LastPage(o.placed.stackStart * 4096, q.stackSize), o.stack, free0, free1)
    requires Taken(o.placed.gdtFrame, free0, free1) && IdentityMapped(small1, q.contextSwitch, o.placed.gdtFrame)
    requires Keeps(o.info, small)
    requires FreshFrames(FirstPage(o.bootInfo), LastPage(o.bootInfo, o.size), o.info, free1, free)
    ensures OwnFrames(o, q, small, free0, free)
  {
    KeepsTwice(o.stack, small1, small);
    FreshLater(o.placed.stackStart, LastPage(o.placed.stackStart * 4096, q.stackSize), o.stack, free0, free1, free);
    FreshEarlier(FirstPage(o.bootInfo), LastPage(o.bootInfo, o.size), o.info, free0, free1, free);
    TakenLater(free0, free1, free);
    hide FreshFrames, IsRest, Taken;
  }

  class Mapper {
    const used: UsedLevel4Entries
    const table: Table
    /** The entries in use once the kernel is loaded: the first one and those of the kernel. */
    ghost const kernelEntries: Entries
    /** What has been reserved since, and what was asked for. */
    ghost var areas: seq<Area>
    ghost var wants: seq<Want>
    /** The page that shall stay unmapped below the stack. */
    ghost var guard: Option<int>
    /** The page of the GDT, which may be anywhere if its frame lies at 512 GiB or above. */
    ghost var gdt: Option<int>

    /** Whatever is mapped lies in entries marked as used, but for the GDT. */
    ghost predicate MappedIsMarked()
      requires used.Valid()
      reads this, used.entryState, table
    {
      && (forall p | p in table.small :: 0 <= PageEntry(p) < 512 && (used.State()[PageEntry(p)] || gdt == Some(p)))
      && (forall q | q in table.huge :: 0 <= HugeEntry(q) < 512 && used.State()[HugeEntry(q)])
    }

    ghost predicate GuardOk()
      requires used.Valid()
      reads this, used.entryState, table
    {
      guard.Some? ==>
        && 0 <= PageEntry(guard.value) < 512 && used.State()[PageEntry(guard.value)]
        && !kernelEntries[PageEntry(guard.value)]
        && (Vacant(table.small, table.huge, guard.value) || gdt == guard)
    }

    /** The areas are what was chosen for the requests so far, and nothing else has been marked, unless
        the last request failed. */
    ghost predicate ChoicesOk()
      requires used.Valid()
      reads this, used.entryState
    {
      && Chosen(kernelEntries, areas, wants, used.aslr)
      && (InStep() ==> used.State() == After(kernelEntries, areas))
    }

    /** Whether all requests so far were met. */
    ghost predicate InStep()
      reads this
    {
      |areas| == |wants|
    }

    ghost predicate Valid()
      reads this, used.entryState, table
    {
      && used.Valid() && table.Valid()
      && kernelEntries[0] && Extends(kernelEntries, used.State())
      && MappedIsMarked() && AreasOk(areas, kernelEntries, used.State()) && GuardOk() && ChoicesOk()
    }

    constructor (used: UsedLevel4Entries, table: Table)
      requires used.Valid() && table.Valid() && used.State()[0]
      requires forall p | p in table.small :: used.State()[PageEntry(p)]
      requires table.huge == map[]
      ensures Valid() && this.used == used && this.table == table
      ensures kernelEntries == used.State() && areas == [] && wants == [] && guard == None && gdt == None
    {
      this.used, this.table := used, table;
      kernelEntries, areas, wants, guard, gdt := used.State(), [], [], None, None;
    }

    /** Whether nothing but perhaps the GDT is mapped in the entries of `a`, nor the guard page there. */
    ghost predicate Untouched(a: Area)
      reads this, table
    {
      && (forall p | p in table.small && InArea(a, PageEntry(p)) :: gdt == Some(p))
      && (forall q | q in table.huge :: !InArea(a, HugeEntry(q)))
      && (guard.Some? ==> !InArea(a, PageEntry(guard.value)))
    }

    /** Whether nothing at all is mapped there. */
    ghost predicate Empty(a: Area)
      reads table
    {
      && (forall p | p in table.small :: !InArea(a, PageEntry(p)))
      && (forall q | q in table.huge :: !InArea(a, HugeEntry(q)))
    }

    /** Whether the page of the GDT lies in an area, which takes a frame at 512 GiB or above. */
    ghost predicate GdtMet()
      reads this
    {
      gdt.Some? && exists a :: a in areas && InArea(a, PageEntry(gdt.value))
    }

    /** Whether there was no choice for the last request, with the entries in use by then. */
    ghost predicate Stuck()
      reads this
    {
      |wants| == |areas| + 1 && NoChoice(After(kernelEntries, areas), wants[|areas|])
    }

    /** Finds a place for `size` bytes. */
    method Reserve(size: nat, alignment: nat) returns (r: Result<int>, ghost a: Area)
      requires Valid() && InStep()
      requires size % LEVEL_4_SIZE != 0 && IsPowerOfTwo(alignment) && 0 < alignment <= LEVEL_4_SIZE
      modifies this`areas, this`wants, used.entryState
      ensures Valid() && wants == old(wants) + [WantFor(size, alignment, used.aslr)]
      ensures r.Ok? ==> areas == old(areas) + [a] && Untouched(a) && Within(a, r.value, size)
      ensures r.Ok? ==> r.value % alignment == 0
      ensures r.Err? ==> areas == old(areas) && Stuck()
    {
      hide Slots, FirstFree, IsPowerOfTwo, Chosen, After, NoRoom;
      ghost var before := used.State();
      ghost var w := WantFor(size, alignment, used.aslr);
      a := Area(0, 0);
      r := used.GetFreeAddress(size, alignment);
      if r.Ok? {
        a := Area(EntryOf(r.value), EntriesFor(size));
        AddArea(areas, kernelEntries, before, a);
        ChosenNext(kernelEntries, areas, wants, used.aslr, a, w);
        assert forall e | 0 <= e < 512 && InArea(a, e) :: !before[e];
        areas := areas + [a];
      } else {
        ChosenMore(kernelEntries, areas, wants, used.aslr, w);
        NoRoomNoChoice(before, size, alignment, used.aslr);
      }
      wants := wants + [w];
    }

    /** Maps pages of an area, nothing of which is mapped yet, to consecutive frames. */
    method MapRunIn(first: int, last: int, frame: int, ghost a: Area) returns (r: Result<()>)
      requires Valid() && a in areas && Untouched(a)
      requires forall p | first <= p <= last :: InArea(a, PageEntry(p))
      requires 0 <= first && last < PAGE_COUNT
      modifies table
      ensures Valid() && IsRest(table.free, old(table.free)) && table.own == old(table.own)
      ensures r.Err? ==> table.Lacks(r.error, old(table.free), 3 * Count(first, last)) || GdtMet()
      ensures r.Ok? ==> |old(table.free)| <= |table.free| + 3 * Count(first, last)
      ensures r.Ok? ==> Keeps(old(table.small), table.small) && Keeps(Run(first, last, frame), table.small)
      ensures table.huge == old(table.huge)
    {
      hide Chosen;
      VacantIn(first, last, a);
      ghost var i :| 0 <= i < |areas| && areas[i] == a;
      assert AreaOk(areas[i], kernelEntries, used.State());
      r := table.MapRange(first, last, frame);
    }

    /** The same to frames of the allocator. */
    method MapFreshIn(first: int, last: int, ghost a: Area) returns (r: Result<()>, ghost frames: map<int, int>)
      requires Valid() && a in areas && Untouched(a)
      requires forall p | first <= p <= last :: InArea(a, PageEntry(p))
      requires 0 <= first <= last < PAGE_COUNT
      modifies table
      ensures Valid() && IsRest(table.free, old(table.free)) && table.own == old(table.own)
      ensures r.Err? ==> table.Lacks(r.error, old(table.free), 4 * Count(first, last)) || GdtMet()
      ensures r.Ok? ==> Keeps(old(table.small), table.small) && Keeps(frames, table.small)
      ensures r.Ok? ==> FreshFrames(first, last, frames, old(table.free), table.free)
      ensures r.Ok? ==>
        |table.free| + Count(first, last) <= |old(table.free)| <= |table.free| + 4 * Count(first, last)
      ensures table.huge == old(table.huge)
      ensures forall p | p in table.small :: p in old(table.small) || first <= p <= last
    {
      hide Chosen;
      VacantIn(first, last, a);
      ghost var i :| 0 <= i < |areas| && areas[i] == a;
      assert AreaOk(areas[i], kernelEntries, used.State());
      r, frames := table.MapFresh(first, last);
    }

    /** The same for the bootloader, too. */
    method MapSharedIn(first: int, last: int, ghost a: Area) returns (r: Result<()>, ghost frames: map<int, int>)
      requires Valid() && a in areas && Untouched(a)
      requires forall p | first <= p <= last :: InArea(a, PageEntry(p))
      requires 0 <= first <= last < PAGE_COUNT
      modifies table
      ensures Valid() && IsRest(table.free, old(table.free))
      ensures r.Err? ==> || table.Lacks(r.error, old(table.free), 7 * Count(first, last)) || GdtMet()
                         || exists p :: first <= p <= last && p in old(table.own)
      ensures r.Ok? ==> Keeps(old(table.small), table.small) && Keeps(frames, table.small)
      ensures r.Ok? ==> Keeps(old(table.own), table.own) && Keeps(frames, table.own)
      ensures r.Ok? ==> FreshFrames(first, last, frames, old(table.free), table.free)
      ensures r.Ok? ==> |old(table.free)| <= |table.free| + 7 * Count(first, last)
      ensures table.huge == old(table.huge)
      ensures forall p | p in table.small :: p in old(table.small) || first <= p <= last
    {
      hide Chosen;
      VacantIn(first, last, a);
      ghost var i :| 0 <= i < |areas| && areas[i] == a;
      assert AreaOk(areas[i], kernelEntries, used.State());
      r, frames := table.MapShared(first, last);
    }

    /** The same for pages of 2 MiB. */
    method MapHugeIn(first: int, last: int, frame: int, ghost a: Area) returns (r: Result<()>)
      requires Valid() && a in areas && Untouched(a)
      requires forall q | first <= q <= last :: InArea(a, HugeEntry(q))
      requires 0 <= first && last < HUGE_COUNT
      modifies table
      ensures Valid() && IsRest(table.free, old(table.free)) && table.own == old(table.own)
      ensures r.Err? ==> table.Lacks(r.error, old(table.free), 3 * Count(first, last)) || GdtMet()
      ensures r.Ok? ==> |old(table.free)| <= |table.free| + 3 * Count(first, last)
      ensures r.Ok? ==> Keeps(old(table.huge), table.huge) && Keeps(Run(first, last, frame), table.huge)
      ensures table.small == old(table.small)
    {
      hide Chosen;
      HugeVacantIn(first, last, a);
      ghost var i :| 0 <= i < |areas| && areas[i] == a;
      assert AreaOk(areas[i], kernelEntries, used.State());
      if guard.Some? {
        EntryOfHalf(guard.value);
      }
      r := table.MapHugeRange(first, last, frame);
    }

    lemma VacantIn(first: int, last: int, a: Area)
      requires Valid() && a in areas && Untouched(a)
      requires forall p | first <= p <= last :: InArea(a, PageEntry(p))
      ensures AllVacant(table.small, table.huge, first, last) || GdtMet()
    {
      hide Chosen;
      forall p | first <= p <= last
        ensures Vacant(table.small, table.huge, p) || GdtMet()
      {
        EntryOfHalf(p);
      }
    }

    /** The pages of a new area are vacant exactly if that of the GDT is not among them. */
    lemma VacantIff(first: int, last: int, a: Area)
      requires Valid() && a in areas && Untouched(a) && (gdt.Some? ==> gdt.value in table.small)
      requires forall p | first <= p <= last :: InArea(a, PageEntry(p))
      ensures AllVacant(table.small, table.huge, first, last) <==> gdt.None? || !(first <= gdt.value <= last)
    {
      hide Chosen;
      forall p | first <= p <= last
        ensures Vacant(table.small, table.huge, p) <==> gdt != Some(p)
      {
        EntryOfHalf(p);
      }
    }

    lemma HugeVacantIn(first: int, last: int, a: Area)
      requires Valid() && a in areas && Untouched(a)
      requires forall q | first <= q <= last :: InArea(a, HugeEntry(q))
      ensures AllHugeVacant(table.small, table.huge, first, last) || GdtMet()
    {
      hide Chosen;
      forall q | first <= q <= last
        ensures HugeVacant(table.small, table.huge, q) || GdtMet()
      {
        forall p | p in table.small && p / 512 == q
          ensures GdtMet()
        {
          EntryOfHalf(p);
          assert InArea(a, PageEntry(p));
        }
      }
    }

    /** Maps the stack, above a guard page that stays unmapped; returns its first page and its end. */
    method MapStack(stackSize: nat) returns (r: Result<(int, int)>, ghost frames: map<int, int>)
      requires Valid() && InStep() && guard.None? && gdt.None? && stackSize > 0
          && (4096 + stackSize) % LEVEL_4_SIZE != 0
      modifies this`areas, this`wants, this`guard, used.entryState, table
      ensures Valid() && IsRest(table.free, old(table.free)) && table.own == old(table.own)
      ensures wants == old(wants) + [WantFor(4096 + stackSize, 4096, used.aslr)]
      ensures r.Err? ==> table.Lacks(r.error, old(table.free), 4 * PagesFor(stackSize)) || Stuck()
      ensures r.Ok? ==>
        |table.free| + PagesFor(stackSize) <= |old(table.free)| <= |table.free| + 4 * PagesFor(stackSize)
      ensures r.Ok? ==> Keeps(old(table.small), table.small) && Keeps(old(table.huge), table.huge)
      ensures r.Ok? ==> var (start, end) := r.value;
        && guard == Some(start - 1) && end == start * 4096 + stackSize && Keeps(frames, table.small)
        && FreshFrames(start, LastPage(start * 4096, stackSize), frames, old(table.free), table.free)
        && Added(old(areas), (start - 1) * 4096, 4096 + stackSize)
      ensures table.huge == old(table.huge)
      ensures r.Ok? ==> forall p | p in table.small ::
        p in old(table.small) || InArea(areas[|old(areas)|], PageEntry(p))
    {
      hide Mapper.Valid, IsPowerOfTwo, IsRest, FreshFrames, Within, Keeps, Stuck, WantFor, PagesFor;
      frames := map[];
      RestAll(table.free);
      PageIsPower();
      KeepsItself(table.huge);
      ghost var a;
      var addr;
      addr, a := Reserve(4096 + stackSize, 4096);
      if addr.Err? {
        return Err(addr.error), frames;
      }
      var guardPage := addr.value / 4096;
      var start := guardPage + 1;
      var end := start * 4096 + stackSize;
      PagesFromStart(start, stackSize);
      AreaPages(addr.value, 4096 + stackSize, a);
      VacantIn(guardPage, guardPage, a);
      var mapped;
      mapped, frames := MapFreshIn(start, (end - 1) / 4096, a);
      if mapped.Err? {
        return Err(mapped.error), frames;
      }
      KeepUnmapped(guardPage, a);
      r := Ok((start, end));
    }

    /** Sets the page that shall stay unmapped. */
    ghost method KeepUnmapped(page: int, a: Area)
      requires Valid() && a in areas && InArea(a, PageEntry(page)) && Vacant(table.small, table.huge, page)
      modifies this`guard
      ensures Valid() && guard == Some(page)
    {
      hide Chosen;
      ghost var i :| 0 <= i < |areas| && areas[i] == a;
      assert AreaOk(areas[i], kernelEntries, used.State());
      guard := Some(page);
    }

    /** The pages of a reserved range have entries of its area and are no more than there are. */
    lemma AreaPages(addr: int, size: nat, a: Area)
      requires Valid() && a in areas && Within(a, addr, size) && size > 0
      ensures 0 <= FirstPage(addr) && LastPage(addr, size) < PAGE_COUNT
      ensures forall p | FirstPage(addr) <= p <= LastPage(addr, size) :: InArea(a, PageEntry(p))
      ensures a.count > 0 && forall e | InArea(a, e) :: 0 <= e < 512 && used.State()[e] && !kernelEntries[e]
    {
      hide Chosen;
      var i :| 0 <= i < |areas| && areas[i] == a;
      assert AreaOk(areas[i], kernelEntries, used.State());
      forall p | FirstPage(addr) <= p <= LastPage(addr, size)
        ensures InArea(a, PageEntry(p))
      {
        PagesWithin(a, addr, size, p);
      }
    }

    /** Maps the frames from the one holding `phys` on, as many as `len` bytes take, at a new place. */
    method MapBytes(phys: nat, len: nat) returns (r: Result<int>)
      requires Valid() && InStep() && len % LEVEL_4_SIZE != 0
      modifies this`areas, this`wants, used.entryState, table
      ensures Valid() && IsRest(table.free, old(table.free)) && table.own == old(table.own)
      ensures wants == old(wants) + [WantFor(len, 4096, used.aslr)]
      ensures r.Err? ==> table.Lacks(r.error, old(table.free), 3 * PagesFor(len)) || Stuck() || GdtMet()
      ensures r.Ok? ==> |old(table.free)| <= |table.free| + 3 * PagesFor(len)
      ensures r.Ok? ==> Keeps(old(table.small), table.small) && Keeps(old(table.huge), table.huge)
      ensures r.Ok? ==> Leads(table.small, table.huge, r.value, phys / 4096 * 4096, len)
      ensures r.Ok? ==> Added(old(areas), r.value, len)
    {
      hide Mapper.Valid, Run, Leads, InArea, Within, PageEntry, IsPowerOfTwo, NoChoice, Keeps;
      PageIsPower();
      KeepsItself(table.huge);
      RestAll(table.free);
      ghost var a;
      r, a := Reserve(len, 4096);
      if r.Err? {
        return;
      }
      AreaPages(r.value, len, a);
      var startPage, startFrame := r.value / 4096, phys / 4096;
      var endFrame := startFrame + (len - 1) / 4096;
      var mapped := MapRunIn(startPage, startPage + (endFrame - startFrame), startFrame, a);
      if mapped.Err? {
        return Err(mapped.error);
      }
      RunLeads(table.small, table.huge, startPage, startPage + (endFrame - startFrame), startFrame, len);
    }

    /** Whether one area was added, and it holds the given range. */
    ghost predicate Added(before: seq<Area>, addr: int, len: nat)
      reads this
    {
      |areas| == |before| + 1 && before <= areas && Within(areas[|before|], addr, len)
    }

    /** Maps all physical memory below `maxPhys` with 2 MiB pages. */
    method MapPhysicalMemory(maxPhys: nat) returns (r: Result<int>)
      requires Valid() && InStep() && maxPhys % LEVEL_4_SIZE != 0
      modifies this`areas, this`wants, used.entryState, table
      ensures Valid() && IsRest(table.free, old(table.free)) && table.own == old(table.own)
      ensures wants == old(wants) + [WantFor(maxPhys, 0x20_0000, used.aslr)]
      ensures r.Err? ==> table.Lacks(r.error, old(table.free), 3 * HugePagesFor(maxPhys)) || Stuck() || GdtMet()
      ensures r.Ok? ==> |old(table.free)| <= |table.free| + 3 * HugePagesFor(maxPhys)
      ensures r.Ok? ==> Keeps(old(table.small), table.small) && Keeps(old(table.huge), table.huge)
      ensures r.Ok? ==> Leads(table.small, table.huge, r.value, 0, maxPhys)
      ensures r.Ok? ==> Added(old(areas), r.value, maxPhys)
    {
      hide Mapper.Valid, Run, Leads, InArea, Within, HugeEntry, PageEntry, IsPowerOfTwo, NoChoice, Keeps;
      HugePageIsPower();
      KeepsItself(table.small);
      RestAll(table.free);
      ghost var a;
      r, a := Reserve(maxPhys, 0x20_0000);
      if r.Err? {
        return;
      }
      AreaHugePages(r.value, maxPhys, a);
      var startPage, lastFrame := r.value / 0x20_0000, (maxPhys - 1) / 0x20_0000;
      var mapped := MapHugeIn(startPage, startPage + lastFrame, 0, a);
      if mapped.Err? {
        return Err(mapped.error);
      }
      ApartPages();
      HugeRunLeads(table.small, table.huge, startPage, startPage + lastFrame, maxPhys);
    }

    /** A GDT below 512 GiB meets no area. */
    lemma LowGdtNotMet()
      requires Valid() && gdt.Some? && 0 <= gdt.value < 0x800_0000
      ensures !GdtMet()
    {
      hide Chosen;
      forall a | a in areas
        ensures !InArea(a, PageEntry(gdt.value))
      {
        var i :| 0 <= i < |areas| && areas[i] == a;
        FirstEntryFree(i);
      }
    }

    lemma NoGdtNotMet()
      requires gdt.None?
      ensures !GdtMet()
    {
    }

    lemma GuardIsUnmapped()
      requires Valid() && guard.Some?
      ensures Vacant(table.small, table.huge, guard.value) || (gdt == guard && guard.value >= 0x800_0000)
    {
    }

    lemma AreasAreOk()
      requires Valid()
      ensures AreasOk(areas, kernelEntries, used.State()) && kernelEntries[0]
      ensures Chosen(kernelEntries, areas, wants, used.aslr)
    {
    }

    /** No area has the first entry. */
    lemma FirstEntryFree(i: nat)
      requires Valid() && i < |areas|
      ensures !InArea(areas[i], 0)
    {
      assert AreaOk(areas[i], kernelEntries, used.State());
    }

    lemma ApartPages()
      requires Valid()
      ensures forall p | p in table.small :: p / 512 !in table.huge
    {
    }

    lemma AreaHugePages(addr: int, size: nat, a: Area)
      requires Valid() && a in areas && Within(a, addr, size) && size > 0
      ensures 0 <= addr / 0x20_0000 && (addr + size - 1) / 0x20_0000 < HUGE_COUNT
      ensures forall q | addr / 0x20_0000 <= q <= (addr + size - 1) / 0x20_0000 :: InArea(a, HugeEntry(q))
    {
      hide Chosen;
      AreaPages(addr, size, a);
      forall q | addr / 0x20_0000 <= q <= (addr + size - 1) / 0x20_0000
        ensures InArea(a, HugeEntry(q))
      {
        HugeWithin(a, addr, size, q);
      }
    }

    /** Takes an entry for the recursive page table; it is unused but for a GDT at 512 GiB or above. */
    method MapRecursive() returns (r: Result<nat>)
      requires Valid() && InStep()
      modifies this`areas, this`wants, used.entryState
      ensures Valid() && wants == old(wants) + [Want(1, true)]
      ensures r.Err? ==> Stuck() || GdtMet()
      ensures r.Ok? ==> areas == old(areas) + [Area(r.value, 1)] && Empty(Area(r.value, 1))
    {
      hide Chosen, After, FirstFree;
      ghost var before := used.State();
      r := used.GetFreeEntries(1);
      if r.Err? {
        ChosenMore(kernelEntries, areas, wants, used.aslr, Want(1, true));
        wants := wants + [Want(1, true)];
        return;
      }
      ghost var a := Area(r.value, 1);
      AddArea(areas, kernelEntries, before, a);
      ChosenNext(kernelEntries, areas, wants, used.aslr, a, Want(1, true));
      areas, wants := areas + [a], wants + [Want(1, true)];
      assert a in areas;
      if (exists p | p in table.small :: PageEntry(p) == r.value)
          || (exists q | q in table.huge :: HugeEntry(q) == r.value) {
        return Err(Rejected("index already in use"));
      }
    }

    /** Maps boot info and memory map to frames of the allocator, for the kernel and for the bootloader at
        the same address. */
    method MapBootInfo(size: nat, alignment: nat) returns (r: Result<int>, ghost frames: map<int, int>)
      requires Valid() && InStep()
      requires size % LEVEL_4_SIZE != 0 && IsPowerOfTwo(alignment) && 0 < alignment <= LEVEL_4_SIZE
      modifies this`areas, this`wants, used.entryState, table
      ensures Valid() && IsRest(table.free, old(table.free))
      ensures wants == old(wants) + [WantFor(size, alignment, used.aslr)]
      ensures r.Err? ==> || table.Lacks(r.error, old(table.free), 7 * (PagesFor(size) + 1)) || Stuck() || GdtMet()
                         || OwnMet(old(areas), old(table.own))
      ensures r.Ok? ==> Keeps(old(table.small), table.small) && Keeps(old(table.huge), table.huge)
      ensures r.Ok? ==> |old(table.free)| <= |table.free| + 7 * (PagesFor(size) + 1)
      ensures r.Ok? ==> r.value % alignment == 0
      ensures r.Ok? ==> Keeps(frames, table.small) && Keeps(frames, table.own) && Keeps(old(table.own), table.own)
      ensures r.Ok? ==> FreshFrames(FirstPage(r.value), LastPage(r.value, size), frames, old(table.free), table.free)
      ensures r.Ok? ==> Added(old(areas), r.value, size)
      ensures r.Ok? ==> table.huge == old(table.huge) && guard == old(guard)
      ensures r.Ok? ==>
        forall p | p in table.small :: p in old(table.small) || FirstPage(r.value) <= p <= LastPage(r.value, size)
      ensures r.Ok? ==> forall a | a in old(areas) && old(Empty(a)) :: Empty(a)
    {
      hide Mapper.Valid, NoChoice, FreshFrames, Within, IsPowerOfTwo, IsRest;
      frames := map[];
      RestAll(table.free);
      ghost var before := areas;
      ghost var a;
      r, a := Reserve(size, alignment);
      if r.Err? {
        return;
      }
      AreaPages(r.value, size, a);
      AreasApartFrom(before, a);
      PagesOfSize(r.value, size);
      var mapped;
      mapped, frames := MapSharedIn(r.value / 4096, (r.value + size - 1) / 4096, a);
      if mapped.Err? {
        r := Err(mapped.error);
      }
    }

    /** The last area is apart from those before. */
    lemma AreasApartFrom(before: seq<Area>, a: Area)
      requires Valid() && areas == before + [a]
      ensures forall b | b in before :: Apart(b, a)
    {
      hide Chosen;
      forall b | b in before
        ensures Apart(b, a)
      {
        var i :| 0 <= i < |before| && before[i] == b;
        assert Apart(areas[i], areas[|before|]);
      }
    }

    /** Whether the bootloader has mapped a page of its own in the area added behind `before`. */
    ghost predicate OwnMet(before: seq<Area>, own: map<int, int>)
      reads this
    {
      |areas| == |before| + 1 && exists p :: p in own && InArea(areas[|before|], PageEntry(p))
    }

    /** Maps a frame to the page with its own number. */
    method IdentityMap(frame: int) returns (r: Result<()>)
      requires Valid() && 0 <= frame < PAGE_COUNT && (frame < 0x800_0000 || gdt == Some(frame))
      modifies table
      ensures Valid() && IsRest(table.free, old(table.free)) && |old(table.free)| <= |table.free| + 3
      ensures table.own == old(table.own)
      ensures r.Ok? ==> table.small == old(table.small)[frame := frame] && table.huge == old(table.huge)
      ensures r.Ok? ==> Keeps(old(table.small), table.small)
      ensures r.Ok? ==> Vacant(old(table.small), old(table.huge), frame)
      ensures r.Err? ==> table.Lacks(r.error, old(table.free), 3) || !Vacant(old(table.small), old(table.huge), frame)
    {
      hide Chosen;
      r := table.MapTo(frame, frame);
    }

    /** Notes the page of the GDT. */
    ghost method NoteGdt(frame: int)
      requires Valid() && gdt.None?
      modifies this`gdt
      ensures Valid() && gdt == Some(frame)
    {
      hide Chosen;
      gdt := Some(frame);
    }

    /** Identity-maps the two frames of the context switch code and a new frame for the GDT. That fails,
        apart from a lack of frames, exactly if one of the three pages is taken. */
    method MapSwitchCode(contextSwitch: int) returns (r: Result<int>)
      requires Valid() && gdt.None? && 0 <= contextSwitch && contextSwitch + 1 < 0x800_0000 && AreFrames(table.free)
      modifies this`gdt, table
      ensures Valid() && IsRest(table.free, old(table.free)) && table.own == old(table.own)
      ensures gdt.Some? ==>
        0 <= gdt.value && Taken(gdt.value, old(table.free), table.free) && TakenAt(gdt.value, old(table.free), 0, 6)
      ensures r.Err? ==> || table.Lacks(r.error, old(table.free), 10)
                         || Blocked(old(table.small), old(table.huge), contextSwitch, gdt)
      ensures r.Ok? ==> gdt == Some(r.value) && !Blocked(old(table.small), old(table.huge), contextSwitch, gdt)
      ensures r.Ok? ==> |old(table.free)| <= |table.free| + 10
      ensures r.Ok? ==> Keeps(old(table.small), table.small) && table.huge == old(table.huge)
      ensures r.Ok? ==> IdentityMapped(table.small, contextSwitch, r.value)
    {
      hide Mapper.Valid, IsRest, Keeps, IdentityMapped, TakenAt;
      ghost var small, huge, free := table.small, table.huge, table.free;
      var _ :- MapCode(contextSwitch);
      ghost var free1 := table.free;
      RestMembers(free1, free);
      RestAreFrames(free1, free);
      var gdtFrame := TakeFrame();
      ghost var free2 := table.free;
      RestTwice(free2, free1, free);
      if gdtFrame.Err? {
        return gdtFrame;
      }
      assert gdtFrame.value == free1[0] && gdtFrame.value in free1;
      NextOfRest(gdtFrame.value, free1, free, 6);
      NoteGdt(gdtFrame.value);
      if gdtFrame.value >= PAGE_COUNT {
        return Err(Panic("address is not canonical"));
      }
      var mapped := IdentityMap(gdtFrame.value);
      RestTwice(table.free, free2, free);
      RestMembers(table.free, free2);
      if mapped.Err? {
        return Err(mapped.error);
      }
      KeepsThree(small, contextSwitch, gdtFrame.value);
      r := gdtFrame;
    }

    /** The code itself. */
    method MapCode(contextSwitch: int) returns (r: Result<()>)
      requires Valid() && 0 <= contextSwitch && contextSwitch + 1 < 0x800_0000
      modifies table
      ensures Valid() && IsRest(table.free, old(table.free)) && |old(table.free)| <= |table.free| + 6
      ensures table.own == old(table.own)
      ensures r.Ok? ==> && Vacant(old(table.small), old(table.huge), contextSwitch)
                        && Vacant(old(table.small), old(table.huge), contextSwitch + 1)
      ensures r.Ok? ==>
        && table.huge == old(table.huge)
        && table.small == old(table.small)[contextSwitch := contextSwitch][contextSwitch + 1 := contextSwitch + 1]
      ensures r.Err? ==> || table.Lacks(r.error, old(table.free), 6)
                         || !Vacant(old(table.small), old(table.huge), contextSwitch)
                         || !Vacant(old(table.small), old(table.huge), contextSwitch + 1)
    {
      hide Mapper.Valid, IsRest, Keeps;
      var _ :- IdentityMap(contextSwitch);
      ghost var free1 := table.free;
      r := IdentityMap(contextSwitch + 1);
      RestTwice(table.free, free1, old(table.free));
    }

    method TakeFrame() returns (r: Result<int>)
      requires Valid()
      modifies table`free
      ensures Valid() && IsRest(table.free, old(table.free))
      ensures r.Err? ==> table.Lacks(r.error, old(table.free), 1)
      ensures r.Ok? ==> old(table.free) == [r.value] + table.free && r.value !in table.free
    {
      hide Chosen;
      r := table.AllocateFrame();
    }

    ghost predicate Reached(q: Request, p: Placed)
      reads table
    {
      ReachedIn(table.small, table.huge, q, p)
    }

    /** Maps a range of physical memory, if there is one. */
    method MapBytesIf(range: Option<PhysRange>) returns (r: Result<Option<int>>)
      requires Valid() && InStep() && (range.Some? ==> range.value.len % LEVEL_4_SIZE != 0)
      modifies this`areas, this`wants, used.entryState, table
      ensures Valid() && IsRest(table.free, old(table.free)) && table.own == old(table.own)
      ensures wants == old(wants) + RangeWant(range, used.aslr)
      ensures r.Err? ==> table.Lacks(r.error, old(table.free), RangeNeed(range)) || Stuck() || GdtMet()
      ensures r.Ok? ==> InStep() && |old(table.free)| <= |table.free| + RangeNeed(range)
      ensures r.Ok? ==> Keeps(old(table.small), table.small) && Keeps(old(table.huge), table.huge)
      ensures r.Ok? ==> AddedIf(old(areas), areas, range.Some?, r.value, RangeLen(range))
      ensures r.Ok? && range.Some? ==>
                Leads(table.small, table.huge, r.value.value, range.value.addr / 4096 * 4096, range.value.len)
    {
      hide Mapper.Valid, Leads, Within, IsRest, Keeps, NoChoice, PagesFor, WantFor;
      KeepsItself(table.small);
      KeepsItself(table.huge);
      RestAll(table.free);
      if range.None? {
        return Ok(None);
      }
      var addr :- MapBytes(range.value.addr, range.value.len);
      r := Ok(Some(addr));
    }

    /** Maps physical memory, if that is asked for. */
    method MapPhysicalMemoryIf(maxPhys: Option<nat>) returns (r: Result<Option<int>>)
      requires Valid() && InStep() && (maxPhys.Some? ==> maxPhys.value % LEVEL_4_SIZE != 0)
      modifies this`areas, this`wants, used.entryState, table
      ensures Valid() && IsRest(table.free, old(table.free)) && table.own == old(table.own)
      ensures wants == old(wants) + MemoryWant(maxPhys, used.aslr)
      ensures r.Err? ==> table.Lacks(r.error, old(table.free), MemoryNeed(maxPhys)) || Stuck() || GdtMet()
      ensures r.Ok? ==> InStep() && |old(table.free)| <= |table.free| + MemoryNeed(maxPhys)
      ensures r.Ok? ==> Keeps(old(table.small), table.small) && Keeps(old(table.huge), table.huge)
      ensures r.Ok? ==> AddedIf(old(areas), areas, maxPhys.Some?, r.value, if maxPhys.Some? then maxPhys.value else 0)
      ensures r.Ok? && maxPhys.Some? ==> Leads(table.small, table.huge, r.value.value, 0, maxPhys.value)
    {
      hide Mapper.Valid, Leads, Within, IsRest, Keeps, NoChoice, HugePagesFor, WantFor;
      KeepsItself(table.small);
      KeepsItself(table.huge);
      RestAll(table.free);
      if maxPhys.None? {
        return Ok(None);
      }
      var offset :- MapPhysicalMemory(maxPhys.value);
      r := Ok(Some(offset));
    }

    /** Takes an entry for the recursive page table, if that is asked for. */
    method MapRecursiveIf(recursive: bool) returns (r: Result<Option<nat>>)
      requires Valid() && InStep()
      modifies this`areas, this`wants, used.entryState
      ensures Valid() && wants == old(wants) + EntryWant(recursive)
      ensures r.Err? ==> Stuck() || GdtMet()
      ensures r.Ok? ==> InStep() && EntryAddedIf(old(areas), areas, recursive, r.value)
      ensures r.Ok? && recursive ==> Empty(Area(r.value.value, 1))
    {
      hide Mapper.Valid, Empty, NoChoice;
      if !recursive {
        return Ok(None);
      }
      var index :- MapRecursive();
      r := Ok(Some(index));
    }

    /** Maps framebuffer and ramdisk, as far as they are asked for. */
    method MapRanges(q: Request) returns (r: Result<(Option<int>, Option<int>)>, ghost mid: seq<Area>)
      requires Valid() && InStep() && q.Sane()
      modifies this`areas, this`wants, used.entryState, table
      ensures Valid() && IsRest(table.free, old(table.free)) && table.own == old(table.own)
      ensures wants <= old(wants) + RangeWant(q.framebuffer, used.aslr) + RangeWant(q.ramdisk, used.aslr)
      ensures r.Err? ==> || table.Lacks(r.error, old(table.free), RangeNeed(q.framebuffer) + RangeNeed(q.ramdisk))
                         || Stuck() || GdtMet()
      ensures r.Ok? ==> InStep()
      ensures r.Ok? ==> wants == old(wants) + RangeWant(q.framebuffer, used.aslr) + RangeWant(q.ramdisk, used.aslr)
      ensures r.Ok? ==> |old(table.free)| <= |table.free| + RangeNeed(q.framebuffer) + RangeNeed(q.ramdisk)
      ensures r.Ok? ==> Keeps(old(table.small), table.small) && RangesReached(table.small, table.huge, q, r.value)
      ensures r.Ok? ==> AddedIf(old(areas), mid, q.framebuffer.Some?, r.value.0, RangeLen(q.framebuffer))
      ensures r.Ok? ==> AddedIf(mid, areas, q.ramdisk.Some?, r.value.1, RangeLen(q.ramdisk))
    {
      hide Mapper.Valid, Leads, Within, IsRest, Keeps, Stuck, GdtMet, RangeWant, RangeNeed;
      ghost var free0, small0 := table.free, table.small;
      mid := areas;
      var framebuffer := MapBytesIf(q.framebuffer);
      mid := areas;
      if framebuffer.Err? {
        return Err(framebuffer.error), mid;
      }
      ghost var small1, huge1, free1 := table.small, table.huge, table.free;
      var ramdisk := MapBytesIf(q.ramdisk);
      RestTwice(table.free, free1, free0);
      if ramdisk.Err? {
        return Err(ramdisk.error), mid;
      }
      ApartPages();
      KeepsTwice(small0, small1, table.small);
      if q.framebuffer.Some? {
        var fb := q.framebuffer.value;
        LeadsKept(small1, huge1, table.small, table.huge, framebuffer.value.value, fb.addr, fb.len);
      }
      r := Ok((framebuffer.value, ramdisk.value));
    }

    /** Maps framebuffer, ramdisk, physical memory and recursive entry, as far as they are asked for. */
    method MapOptional(q: Request, stack: Placed) returns (r: Result<Placed>)
      requires Valid() && InStep() && q.Sane()
      requires |areas| == 1 && Within(areas[0], (stack.stackStart - 1) * 4096, 4096 + q.stackSize)
      requires stack == Placed(stack.stackStart, stack.stackTop, stack.gdtFrame, None, None, None, None)
      modifies this`areas, this`wants, used.entryState, table
      ensures Valid() && IsRest(table.free, old(table.free)) && table.own == old(table.own)
      ensures wants <= old(wants) + OptionalWants(q, used.aslr)
      ensures r.Err? ==> table.Lacks(r.error, old(table.free), OptionalNeed(q)) || Stuck() || GdtMet()
      ensures r.Ok? ==> InStep() && wants == old(wants) + OptionalWants(q, used.aslr)
      ensures r.Ok? ==> |old(table.free)| <= |table.free| + OptionalNeed(q)
      ensures r.Ok? ==> Keeps(old(table.small), table.small)
      ensures r.Ok? ==> LaidOut(areas, q, r.value) && Reached(q, r.value)
      ensures r.Ok? ==>
        stack == r.value.(framebuffer := None, ramdisk := None, physicalMemory := None, recursiveIndex := None)
      ensures r.Ok? && q.recursive ==> Empty(Area(r.value.recursiveIndex.value, 1))
    {
      hide Mapper.Valid, Leads, Empty, Within, IsRest, Keeps, Stuck, GdtMet, LaidOut, RangesReached;
      hide RangeWant, MemoryWant, EntryWant, RangeNeed, MemoryNeed, OptionalWants, AddedIf, EntryAddedIf;
      WantedInOrder(wants, q, used.aslr);
      ghost var free0, small0, areas1 := table.free, table.small, areas;
      var ranges;
      ghost var areas2;
      ranges, areas2 := MapRanges(q);
      if ranges.Err? {
        return Err(ranges.error);
      }
      var (framebuffer, ramdisk) := ranges.value;
      ghost var small1, huge1, free1, areas3 := table.small, table.huge, table.free, areas;
      var offset := MapPhysicalMemoryIf(q.physicalMemory);
      RestTwice(table.free, free1, free0);
      if offset.Err? {
        return Err(offset.error);
      }
      ghost var areas4 := areas;
      var index :- MapRecursiveIf(q.recursive);
      var p := stack.(framebuffer := framebuffer, ramdisk := ramdisk, physicalMemory := offset.value,
                      recursiveIndex := index);
      LayOut(areas1, areas2, areas3, areas4, areas, q, p);
      ApartPages();
      KeepsTwice(small0, small1, table.small);
      RangesKept(small1, huge1, table.small, table.huge, q, p);
      r := Ok(p);
    }

    /** Adds all mappings. What is placed dynamically meets nothing that is mapped already, whatever the
        random choices: the only ways to fail are too few frames, too few free entries, and the identity
        mappings, which the kernel may be in the way of, and which may be in the way of others if the frame
        of the GDT lies at 512 GiB or above. */
    method SetUpMappings(q: Request) returns (r: Result<Placed>, ghost stackFrames: map<int, int>)
      requires Valid() && areas == [] && wants == [] && guard.None? && gdt.None? && q.Sane()
      requires table.huge == map[] && AreFrames(table.free)
      modifies this, used.entryState, table
      ensures Valid() && IsRest(table.free, old(table.free)) && table.own == old(table.own)
      ensures wants <= [WantFor(4096 + q.stackSize, 4096, used.aslr)] + OptionalWants(q, used.aslr)
      ensures gdt.Some? ==>
          Taken(gdt.value, old(table.free), table.free) && GdtFrom(gdt.value, old(table.free), q.stackSize)
      ensures r.Err? ==> || table.Lacks(r.error, old(table.free), 4 * PagesFor(q.stackSize) + 10 + OptionalNeed(q))
                         || Stuck() || GdtMet() || Blocked(old(table.small), map[], q.contextSwitch, gdt)
      ensures r.Ok? ==> |old(table.free)| <= |table.free| + 4 * PagesFor(q.stackSize) + 10 + OptionalNeed(q)
      ensures r.Ok? ==>
        InStep() && wants == [WantFor(4096 + q.stackSize, 4096, used.aslr)] + OptionalWants(q, used.aslr)
      ensures r.Ok? ==> Keeps(old(table.small), table.small)
      ensures r.Ok? ==> var start := r.value.stackStart;
        && guard == Some(start - 1) && r.value.stackTop == (start * 4096 + q.stackSize) / 16 * 16
        && Keeps(stackFrames, table.small)
        && FreshFrames(start, LastPage(start * 4096, q.stackSize), stackFrames, old(table.free), table.free)
      ensures r.Ok? ==> gdt == Some(r.value.gdtFrame) && IdentityMapped(table.small, q.contextSwitch, r.value.gdtFrame)
      ensures r.Ok? ==> LaidOut(areas, q, r.value) && Reached(q, r.value)
      ensures r.Ok? && q.recursive ==> Empty(Area(r.value.recursiveIndex.value, 1))
    {
      hide Mapper.Valid, Blocked, Reached, Empty, Within, LaidOut, IsRest, OptionalWants, OptionalNeed, WantFor;
      hide PagesFor;
      hide Stuck, TakenAt, FreshFrames, Taken, InArea, Keeps;
      var stack;
      stack, stackFrames := MapStack(q.stackSize);
      if stack.Err? {
        return Err(stack.error), stackFrames;
      }
      var (start, end) := stack.value;
      ghost var free0, free1, small1 := old(table.free), table.free, table.small;
      RestAreFrames(free1, free0);
      FirstEntryFree(0);
      var switchCode := MapSwitchCode(q.contextSwitch);
      ghost var free2, small2 := table.free, table.small;
      RestTwice(free2, free1, free0);
      TakenEarlier(free0, free1, free2);
      if gdt.Some? {
        TakenAtEarlier(gdt.value, free1, free0, q.stackSize);
      }
      if switchCode.Err? {
        if Blocked(small1, map[], q.contextSwitch, gdt) && !GdtMet() {
          assert areas[0] in areas;
          BlockedEarlier(old(table.small), small1, map[], areas[0], q.contextSwitch, gdt);
        }
        return Err(switchCode.error), stackFrames;
      }
      r := MapOptional(q, Placed(start, end / 16 * 16, switchCode.value, None, None, None, None));
      RestTwice(table.free, free2, free1);
      RestTwice(table.free, free1, free0);
      TakenLater(free0, free2, table.free);
      if r.Ok? {
        FreshLater(start, LastPage(start * 4096, q.stackSize), stackFrames, free0, free1, table.free);
        KeepsTwice(old(table.small), small1, small2);
        KeepsTwice(old(table.small), small2, table.small);
        KeepsTwice(stackFrames, small1, small2);
        KeepsTwice(stackFrames, small2, table.small);
        IdentityKept(small2, table.small, q.contextSwitch, switchCode.value);
      }
    }

    /** Why mapping everything may fail, with `kernel` and, for the bootloader, `own` mapped before, and
        `free` left of the frames: no choice for the next area asked for, too few frames, a page of an
        identity mapping taken, the GDT in an area, or a page of the bootloader's where boot info goes. */
    ghost predicate MapFails(e: Failure, kernel: map<int, int>, own: map<int, int>, free: seq<int>,
                             q: Request, size: nat, alignment: nat)
      requires alignment > 0
      reads this, table
    {
      && wants <= AllWants(q, size, alignment, used.aslr)
      && (|| Stuck() || table.Lacks(e, free, AllNeed(q, size)) || GdtMet()
          || Blocked(kernel, map[], q.contextSwitch, gdt)
          || (areas != [] && wants == AllWants(q, size, alignment, used.aslr) && OwnMet(areas[..|areas| - 1], own)))
    }

    /** With as many free entries as areas, and frames for everything, mapping can only fail at the identity
        mappings, at a GDT at 512 GiB or above, or at a page of the bootloader's. */
    lemma MapsIfEnough(e: Failure, kernel: map<int, int>, own: map<int, int>, free: seq<int>,
                       q: Request, size: nat, alignment: nat)
      requires Valid() && alignment > 0
      requires AllSingle(AllWants(q, size, alignment, used.aslr))
      requires |AllWants(q, size, alignment, used.aslr)| <= |FreeEntries(kernelEntries)|
      requires AllNeed(q, size) <= |free| && !Blocked(kernel, map[], q.contextSwitch, gdt) && !GdtMet()
      requires forall p | p in own :: 0 <= p < 0x800_0000
      ensures !MapFails(e, kernel, own, free, q, size, alignment)
    {
      hide Blocked, GdtMet, AllNeed, Mapper.Valid, Chosen, After, NoChoice, FreeEntries, AllSingle, AllWants;
      AreasAreOk();
      var all := AllWants(q, size, alignment, used.aslr);
      if wants <= all && |areas| < |wants| {
        WantsSingle(wants, all);
        AlwaysAChoice(kernelEntries, areas, wants, used.aslr);
      }
      if areas != [] {
        FirstEntryFree(|areas| - 1);
      }
    }

    /** Whether the page below the stack is not mapped; only a GDT at 512 GiB or above can be there. */
    ghost predicate GuardUnmapped(p: Placed)
      reads table
    {
      Vacant(table.small, table.huge, p.stackStart - 1) || p.gdtFrame == p.stackStart - 1 >= 0x800_0000
    }

    /** All mappings of a run: those of `set_up_mappings`, and boot info. */
    method MapEverything(q: Request, size: nat, alignment: nat) returns (r: Result<(Placed, int)>, ghost own: Own)
      requires Valid() && areas == [] && wants == [] && guard.None? && gdt.None? && q.Sane()
      requires table.huge == map[] && AreFrames(table.free)
      requires size % LEVEL_4_SIZE != 0 && IsPowerOfTwo(alignment) && 0 < alignment <= LEVEL_4_SIZE
      modifies this, used.entryState, table
      ensures Valid() && IsRest(table.free, old(table.free))
      ensures gdt.Some? ==>
          Taken(gdt.value, old(table.free), table.free) && GdtFrom(gdt.value, old(table.free), q.stackSize)
      ensures r.Err? ==> MapFails(r.error, old(table.small), old(table.own), old(table.free), q, size, alignment)
      ensures r.Ok? ==> |old(table.free)| <= |table.free| + AllNeed(q, size)
      ensures r.Ok? ==> own.placed == r.value.0 && own.bootInfo == r.value.1 && own.size == size
      ensures r.Ok? ==> OwnFrames(own, q, table.small, old(table.free), table.free)
      ensures r.Ok? ==> Keeps(own.info, table.own) && Keeps(old(table.own), table.own)
      ensures r.Ok? ==> Keeps(old(table.small), table.small) && Reached(q, r.value.0) && r.value.1 % alignment == 0
      ensures r.Ok? ==>
          areas != [] && LaidOut(areas[..|areas| - 1], q, r.value.0) && Within(areas[|areas| - 1], r.value.1, size)
      ensures r.Ok? ==> var start := r.value.0.stackStart;
        && guard == Some(start - 1) && r.value.0.stackTop == (start * 4096 + q.stackSize) / 16 * 16
        && GuardUnmapped(r.value.0)
      ensures r.Ok? && q.recursive ==>
        r.value.0.recursiveIndex.Some? && Empty(Area(r.value.0.recursiveIndex.value, 1))
    {
      hide Mapper.Valid, Empty, ReachedIn, LaidOut, Within, OwnFrames, FreshFrames, Taken, Keeps, GdtFrom;
      hide IsRest, IdentityMapped, Blocked, IsPowerOfTwo, Stuck, GdtMet, OptionalWants, WantFor, PagesFor, OptionalNeed;
      ghost var small0, free0 := table.small, table.free;
      ghost var stack, info;
      own := Own(map[], map[], Placed(0, 0, 0, None, None, None, None), 0, 0);
      var placed;
      placed, stack := SetUpMappings(q);
      if placed.Err? {
        return Err(placed.error), own;
      }
      ghost var free1, small1, huge1, areas1 := table.free, table.small, table.huge, areas;
      var bootInfo;
      bootInfo, info := MapBootInfo(size, alignment);
      RestTwice(table.free, free1, free0);
      TakenLater(free0, free1, table.free);
      if bootInfo.Err? {
        assert |areas| == |areas1| + 1 ==> |areas[..|areas| - 1]| == |areas1|;
        return Err(bootInfo.error), own;
      }
      var p := placed.value;
      own := Own(stack, info, p, bootInfo.value, size);
      OwnFramesKept(own, q, small1, table.small, free0, free1, table.free);
      ApartPages();
      ReachedKept(small1, huge1, table.small, table.huge, q, p);
      KeepsTwice(small0, small1, table.small);
      if q.recursive {
        RecursiveHasArea(areas1, q, p);
      }
      assert areas[..|areas| - 1] == areas1;
      GuardIsUnmapped();
      r := Ok((p, bootInfo.value));
    }
  }

  /** The pages the loader maps lie in entries that placing the kernel has marked, so what is mapped
      later cannot meet them. */
  lemma KernelPagesMarked(e: ElfImage.Elf, mem: ElfImage.Memory, s: Entries, p: int)
    requires forall h | h in e.headers :: PagesMarked(e, h, s)
    requires forall h | h in e.headers && h.kind == ElfImage.Load && ElfImage.Place(e, h.vaddr).Ok? ::
               h.memSize <= HALF && (h.memSize == 0 ==> ElfImage.Base(e, h) % 4096 == 0)
    requires p in ElfImage.MapAll(e, mem, |e.headers|)
    ensures 0 <= PageEntry(p) < 512 && s[PageEntry(p)]
  {
    ElfImage.MapAllKeys(e, mem, |e.headers|, p);
    var i :| 0 <= i < |e.headers| && ElfImage.IsLoad(e, i)
        && ElfImage.SegFirst(e, e.headers[i]) <= p <= ElfImage.SegLast(e, e.headers[i]);
    assert e.headers[i] in e.headers && PagesMarked(e, e.headers[i], s);
    assert PageEntry(p) == EntryOf(p * 4096);
  }

  /** A kernel may be linked to the context switch code: a segment of one page there is acceptable to
      everything that is done before, and blocks the identity mappings. */
  lemma KernelInTheWay(contextSwitch: nat, mem: ElfImage.Memory, small: map<int, int>, gdt: Option<int>)
    requires contextSwitch + 1 < 0x800_0000
    requires var h := SwitchPageHeader(contextSwitch);
             forall p | p in ElfImage.MapAll(ElfImage.Elf([h], 0, 0), mem, 1) :: p in small
    ensures var h := SwitchPageHeader(contextSwitch);
            var e := ElfImage.Elf([h], 0, 0);
            SegmentsFit(e) && ElfImage.WellPlaced(e, h) && ElfImage.Mappable(e, 1)
    ensures Blocked(small, map[], contextSwitch, gdt)
  {
    var h := SwitchPageHeader(contextSwitch);
    var e := ElfImage.Elf([h], 0, 0);
    ElfImage.SegSpacePage(e, mem, h, contextSwitch);
    assert ElfImage.FindTls(e, 0) == Ok(None);
    assert contextSwitch in ElfImage.MapAll(e, mem, 1);
  }

  function SwitchPageHeader(contextSwitch: nat): ElfImage.Header {
    ElfImage.Header(ElfImage.Load, 0, contextSwitch * 4096, 4096, 4096, 4096, false, true, [])
  }
}
