/** The page table, the physical frames behind it and the frame allocator, as the loader uses them.

    Several pages may share one frame (they all start out on the frames of the ELF file), so a write
    through one page could change another. The copied mark and `MakeMut` prevent that; the contracts
    here state it as a refinement: every operation acts on `view`, where pages own their bytes. */
module Paging {
  import opened Bytes
  import opened Outcomes
  import opened VirtualSpace
  import opened FrameSupply

  datatype Entry = Entry(frame: int, flags: Flags)

  class PagedMemory {
    /** Physical memory, frame by frame. */
    var phys: map<int, PageBytes>
    /** The kernel's page table. */
    var pt: map<int, Entry>
    /** The runs of 512 pages that have a page table of the last level. */
    var leaves: set<int>
    /** The frames the allocator will still hand out, in order. */
    var free: seq<int>

    /** What the kernel sees through the page table; every operation is specified on this. */
    ghost var view: Space
    /** Frames handed out so far, and those of them that `MapTo` turned into page tables. */
    ghost var taken: set<int>
    ghost var tables: set<int>
    /** Frames that pages were mapped to without coming from the allocator. */
    ghost var outside: set<int>
    /** Physical memory before the first operation, and the allocator's frames at that time. */
    ghost const phys0: map<int, PageBytes>
    ghost const frames0: seq<int>
    ghost const pool: set<int>

    ghost predicate AllocatorOk()
      reads this
    {
      && (forall i, j | 0 <= i < j < |free| :: free[i] != free[j])
      && (forall f | f in free :: f in pool && f !in taken)
      && taken <= pool <= phys.Keys
      && tables <= taken
      && IsRest(free, frames0)
    }

    /** Every write so far went to a frame handed out by the allocator. */
    ghost predicate RestUntouched()
      reads this
    {
      phys.Keys == phys0.Keys && forall f | f in phys && f !in taken :: phys[f] == phys0[f]
    }

    ghost predicate TableOk()
      reads this
    {
      && (forall p | p in pt :: 0 <= p < PAGE_COUNT)
      && (forall p | p in pt :: pt[p].frame in phys && pt[p].frame !in free && pt[p].frame !in tables)
      && (forall p | p in pt :: pt[p].frame in taken || pt[p].frame in outside)
      && (forall p | p in pt :: p / 512 in leaves)
    }

    /** A page marked as copied has a frame of its own, which came from the allocator. */
    ghost predicate CopiedArePrivate()
      reads this
    {
      forall p | p in pt && pt[p].flags.copied ::
        pt[p].frame in taken && forall q | q in pt && q != p :: pt[q].frame != pt[p].frame
    }

    /** The view shows every page with the bytes of its frame. */
    ghost predicate ViewOk()
      reads this
    {
      && view.Keys == pt.Keys
      && forall p | p in pt :: pt[p].frame in phys && view[p] == VPage(phys[pt[p].frame], pt[p].flags)
    }

    ghost predicate Valid()
      reads this
    {
      && AllocatorOk()
      && RestUntouched()
      && TableOk()
      && CopiedArePrivate()
      && ViewOk()
    }

    /** Whether no more than four frames were taken for each page, and another one for each that was copied. */
    ghost predicate Thrifty()
      reads this
    {
      Thrift(|frames0|, |free|, view)
    }

    /** Whether there were too few frames, less than five for each of the given pages. */
    ghost predicate Lacks(e: Failure, pages: set<int>)
      reads this
    {
      e == OutOfFrames && free == [] && |frames0| < 5 * |pages|
    }

    lemma LacksMore(e: Failure, some: set<int>, pages: set<int>)
      requires Lacks(e, some) && some <= pages
      ensures Lacks(e, pages)
    {
      CountAtMost(some, pages);
    }

    /** A frame outside the allocator's pool holds what it held at first and may be mapped. */
    lemma FileFrameFacts(frame: int)
      requires Valid() && frame in phys0 && frame !in pool
      ensures frame in phys && phys[frame] == phys0[frame] && frame !in free && frame !in tables
      ensures forall q | q in pt && pt[q].frame == frame :: !pt[q].flags.copied
    {
    }

    /** Whatever lies outside the allocator's pool, such as the ELF file, was never written. */
    lemma FileUntouched()
      requires Valid()
      ensures phys.Keys == phys0.Keys && forall f | f in phys0 && f !in pool :: phys[f] == phys0[f]
    {
    }

    /** An empty page table, as `create_page_tables` makes it. */
    constructor (memory: map<int, PageBytes>, frames: seq<int>)
      requires forall i, j | 0 <= i < j < |frames| :: frames[i] != frames[j]
      requires forall f | f in frames :: f in memory
      ensures Valid() && view == map[] && Thrifty()
      ensures phys0 == memory && frames0 == free == frames && pool == (set f | f in frames) && outside == {}
    {
      phys, pt, leaves, free, view := memory, map[], {}, frames, map[];
      taken, tables, outside := {}, {}, {};
      phys0, frames0, pool := memory, frames, set f | f in frames;
      assert (set f | f in frames) <= memory.Keys;
    }

    /** Hands out the next frame of the allocator. */
    method AllocateFrame() returns (r: Result<int>)
      requires Valid()
      modifies this`free, this`taken
      ensures Valid()
      ensures r.Err? <==> old(free) == []
      ensures r.Err? ==> r.error == OutOfFrames && taken == old(taken) && free == []
      ensures r.Ok? ==> old(free) == [r.value] + free && taken == old(taken) + {r.value}
      ensures r.Ok? ==> r.value !in old(taken) && r.value !in free
      ensures r.Ok? ==> r.value in phys && r.value !in tables && forall p | p in pt :: pt[p].frame != r.value
    {
      if free == [] {
        return Err(OutOfFrames);
      }
      var frame := free[0];
      RestOfRest(free, frames0);
      free := free[1..];
      taken := taken + {frame};
      assert frame !in free;
      r := Ok(frame);
    }

    /** Writes a frame that was just handed out; no page shows it yet. */
    method WriteFresh(frame: int, bytes: PageBytes)
      requires Valid()
      requires frame in taken && frame !in tables && forall p | p in pt :: pt[p].frame != frame
      modifies this`phys
      ensures Valid() && phys == old(phys)[frame := bytes]
    {
      hide IsRest;
      phys := phys[frame := bytes];
    }

    /** Writes the frame behind a copied page; no other page shows the change. */
    method WriteCopied(frame: int, bytes: PageBytes, ghost page: int)
      requires Valid()
      requires page in pt && pt[page].frame == frame && pt[page].flags.copied
      modifies this`phys, this`view
      ensures Valid() && phys == old(phys)[frame := bytes]
      ensures view == old(view)[page := old(view)[page].(bytes := bytes)]
    {
      hide IsRest;
      phys := phys[frame := bytes];
      view := view[page := view[page].(bytes := bytes)];
    }

    /** Takes one frame for a page table. What it holds is not modelled. */
    method TakeTable() returns (r: Result<()>)
      requires Valid()
      modifies this`free, this`taken, this`tables, this`phys
      ensures Valid()
      ensures r.Err? ==> r.error == OutOfFrames && free == old(free) == []
      ensures r.Ok? ==> |old(free)| == |free| + 1
      ensures old(taken) <= taken && tables * old(taken) == old(tables)
      ensures forall f | f in old(phys) && f !in old(free) :: f in phys && phys[f] == old(phys)[f]
      ensures forall f | f in free :: f in old(free)
      ensures forall f | f in tables :: f in old(tables) || f in old(free)
    {
      hide IsRest;
      var table :- AllocateFrame();
      var contents: PageBytes := *;
      WriteFresh(table, contents);
      tables := tables + {table};
      r := Ok(());
    }

    /** The frames `map_to` takes for page tables on the way to the page: at most three, how many
        depends on the tables that exist already, and none if there is one of the last level. */
    method TakeTables(page: int) returns (r: Result<()>)
      requires Valid()
      modifies this`free, this`taken, this`tables, this`phys
      ensures Valid() && |old(free)| <= |free| + 3
      ensures r.Err? ==> r.error == OutOfFrames && free == [] && |old(free)| < 3
      ensures page / 512 in leaves ==> r.Ok? && free == old(free)
      ensures old(taken) <= taken && tables * old(taken) == old(tables)
      ensures forall f | f in old(phys) && f !in old(free) :: f in phys && phys[f] == old(phys)[f]
      ensures forall f | f in free :: f in old(free)
      ensures forall f | f in tables :: f in old(tables) || f in old(free)
    {
      assert tables <= taken;
      hide Valid;
      var needed :| 0 <= needed <= 3 && (page / 512 in leaves ==> needed == 0);
      for i := 0 to needed
        invariant Valid() && |old(free)| == |free| + i && (i == 0 ==> free == old(free))
        invariant old(taken) <= taken && tables * old(taken) == old(tables)
        invariant forall f | f in old(phys) && f !in old(free) :: f in phys && phys[f] == old(phys)[f]
        invariant forall f | f in free :: f in old(free)
        invariant forall f | f in tables :: f in old(tables) || f in old(free)
      {
        var _ :- TakeTable();
      }
      r := Ok(());
    }

    /** Maps `page` to `frame`, which no copied page may use. */
    method MapTo(page: int, frame: int, flags: Flags) returns (r: Result<()>)
      requires Valid() && 0 <= page < PAGE_COUNT
      requires frame in phys && frame !in free && frame !in tables
      requires forall q | q in pt && pt[q].frame == frame :: !pt[q].flags.copied && !flags.copied
      requires flags.copied ==> frame in taken
      modifies this
      ensures Valid() && old(taken) <= taken && tables * old(taken) == old(tables)
      ensures r.Ok? ==> page !in old(view)
      ensures r.Ok? ==> view == old(view)[page := VPage(old(phys)[frame], flags)]
      ensures r.Ok? ==> pt == old(pt)[page := Entry(frame, flags)]
      ensures outside <= old(outside) + (if frame in old(taken) then {} else {frame})
      ensures r.Err? ==> (r.error == OutOfFrames && free == [] && |old(free)| < 3) || page in old(view)
      ensures |old(free)| <= |free| + 3
      ensures page / 512 in old(leaves) ==> free == old(free) && (r.Err? ==> page in old(view))
      ensures r.Err? ==> view == old(view) && leaves >= old(leaves)
    {
      ViewFacts(page);
      hide Valid;
      var _ :- TakeTables(page);
      AddLeaf(page / 512);
      if page in pt {
        return Err(Rejected("map_to failed"));
      }
      Enter(page, frame, flags);
      r := Ok(());
    }

    method AddLeaf(run: int)
      requires Valid()
      modifies this`leaves
      ensures Valid() && leaves == old(leaves) + {run}
    {
      hide IsRest;
      leaves := leaves + {run};
    }

    /** Writes the entry of a page. */
    method Enter(page: int, frame: int, flags: Flags)
      requires Valid() && 0 <= page < PAGE_COUNT && page !in pt && page / 512 in leaves
      requires frame in phys && frame !in free && frame !in tables
      requires forall q | q in pt && pt[q].frame == frame :: !pt[q].flags.copied && !flags.copied
      requires flags.copied ==> frame in taken
      modifies this`pt, this`view, this`outside
      ensures Valid() && pt == old(pt)[page := Entry(frame, flags)]
      ensures view == old(view)[page := VPage(phys[frame], flags)]
      ensures outside == old(outside) + (if frame in taken then {} else {frame})
    {
      hide IsRest;
      outside := outside + (if frame in taken then {} else {frame});
      pt := pt[page := Entry(frame, flags)];
      view := view[page := VPage(phys[frame], flags)];
    }

    /** `unmap`. */
    method Unmap(page: int)
      requires Valid() && page in pt
      modifies this`pt, this`view
      ensures Valid() && pt == old(pt) - {page} && view == old(view) - {page}
    {
      hide IsRest;
      pt := pt - {page};
      view := view - {page};
    }

    /** What the view shows of a page. */
    lemma ViewFacts(page: int)
      requires Valid()
      ensures page in pt <==> page in view
      ensures page in pt ==> 0 <= page < PAGE_COUNT && page / 512 in leaves
      ensures page in pt ==> pt[page].frame in phys && view[page] == VPage(phys[pt[page].frame], pt[page].flags)
    {
    }

    /** `translate`: whether a page is mapped, and its flags. */
    method IsMapped(page: int) returns (mapped: bool)
      requires Valid()
      ensures mapped <==> page in view
    {
      mapped := page in pt;
    }

    method FlagsOf(page: int) returns (flags: Flags)
      requires Valid() && page in view
      ensures flags == view[page].flags
    {
      flags := pt[page].flags;
    }

    /** Changes the flags of a mapped page; the copied mark may only be dropped. */
    method UpdateFlags(page: int, flags: Flags)
      requires Valid() && page in view
      requires flags.copied ==> view[page].flags.copied
      modifies this`pt, this`view
      ensures Valid()
      ensures view == old(view)[page := old(view)[page].(flags := flags)]
    {
      hide IsRest;
      pt := pt[page := pt[page].(flags := flags)];
      view := view[page := view[page].(flags := flags)];
    }

    /** Gives `page` a frame of its own, with the bytes it had. */
    method MakeMut(page: int) returns (r: Result<int>)
      requires Valid()
      modifies this
      ensures Valid() && old(taken) <= taken && outside <= old(outside)
      ensures r.Ok? ==> page in old(view)
      ensures r.Ok? ==>
        view == old(view)[page := old(view)[page].(flags := old(view)[page].flags.(copied := true))]
      ensures r.Ok? ==> page in pt && pt[page].frame == r.value && pt[page].flags.copied
      ensures r.Ok? ==> r.value in phys && phys[r.value] == old(view)[page].bytes
      ensures r.Ok? && old(pt)[page].flags.copied ==> pt == old(pt) && phys == old(phys) && free == old(free)
      ensures r.Err? ==> view == old(view)
      ensures r.Err? ==> || page !in old(view)
                         || (r.error == OutOfFrames && free == old(free) == [] && !old(view)[page].flags.copied)
      ensures old(Thrifty()) ==> Thrifty()
    {
      hide Valid;
      ViewFacts(page);
      if page !in pt {
        return Err(Panic("page is not mapped"));
      }
      var Entry(frame, flags) := pt[page];
      if flags.copied {
        assert view == view[page := view[page].(flags := view[page].flags.(copied := true))];
        return Ok(frame);
      }
      ghost var before := view;
      var newFrame :- AllocateFrame();
      WriteFresh(newFrame, phys[frame]);
      Unmap(page);
      var mapped := MapTo(page, newFrame, flags.(copied := true));
      assert mapped.Ok?;
      ViewFacts(page);
      ThriftCopy(|frames0|, |old(free)|, before, page);
      r := Ok(newFrame);
    }

    /** One turn of the loop of `CopyFrom`: reads the part of `buf` that falls on `page`. */
    method CopyFromPage(page: int, addr: int, buf: array<Byte>)
      requires Valid() && page in pt && FirstPage(addr) <= page <= LastPage(addr, buf.Length)
      modifies buf
      ensures page in view
      ensures forall i | 0 <= i < buf.Length ::
        buf[i] == if (addr + i) / 4096 == page then Get(view, addr + i) else old(buf[i])
    {
      ViewFacts(page);
      hide Valid;
      var end := addr + buf.Length - 1;
      var frame := pt[page].frame;
      var startCopy := if addr > page * 4096 then addr else page * 4096;
      var endCopy := if end < page * 4096 + 4095 then end else page * 4096 + 4095;
      var startInFrame := startCopy - page * 4096;
      var copyLen := endCopy - startCopy + 1;
      var src := phys[frame][startInFrame..][..copyLen];
      CopySlice(src, buf, startCopy - addr);
    }

    /** Copies from the kernel's address space into `buf`. An end beyond the address space is a
        failure too, as no page there is mapped. */
    method CopyFrom(addr: int, buf: array<Byte>) returns (r: Result<()>)
      requires Valid()
      modifies buf
      ensures r.Ok? <==> buf.Length > 0 && Mapped(view, addr, buf.Length)
      ensures r.Ok? ==> buf[..] == Span(view, addr, buf.Length)
    {
      hide Valid;
      if buf.Length == 0 {
        return Err(Panic("empty buffer"));
      }
      var page, lastPage := FirstPage(addr), LastPage(addr, buf.Length);
      while page <= lastPage
        invariant FirstPage(addr) <= page <= lastPage + 1
        invariant forall p | FirstPage(addr) <= p < page :: p in view
        invariant forall i | 0 <= i < buf.Length && (addr + i) / 4096 < page ::
          (addr + i) / 4096 in view && buf[i] == Get(view, addr + i)
      {
        ViewFacts(page);
        if page !in pt {
          return Err(Panic("address is not mapped to the kernel's memory space"));
        }
        CopyFromPage(page, addr, buf);
        page := page + 1;
      }
      r := Ok(());
    }

    /** One turn of the loop of `CopyTo`: writes the part of `buf` that falls on `page`. */
    method CopyToPage(page: int, addr: int, buf: seq<Byte>) returns (r: Result<()>)
      requires Valid() && Thrifty() && buf != [] && FirstPage(addr) <= page <= LastPage(addr, |buf|)
      modifies this
      ensures Valid() && Thrifty() && outside <= old(outside)
      ensures r.Ok? ==> page in old(view) && view == PatchAt(old(view), page, addr, buf)
      ensures r.Err? ==> view == old(view) && (Lacks(r.error, old(view).Keys) || page !in old(view))
    {
      hide Valid, PatchPage, Thrift;
      ghost var before := view;
      var copied := MakeMut(page);
      if copied.Err? {
        if page in view {
          ThriftLacks(|frames0|, view, page);
        }
        return Err(copied.error);
      }
      var frame := copied.value;
      ghost var marked := view;
      ThriftBytes(|frames0|, |free|, view, page, CopyIntoPage(phys[frame], page, addr, buf));
      WriteCopied(frame, CopyIntoPage(phys[frame], page, addr, buf), page);
      PatchCopied(before, marked, view, page, addr, buf);
      r := Ok(());
    }

    /** Writes `buf` to the kernel's address space. */
    method CopyTo(addr: int, buf: seq<Byte>) returns (r: Result<()>)
      requires Valid() && Thrifty()
      modifies this
      ensures Valid() && Thrifty() && view.Keys == old(view).Keys && outside <= old(outside)
      ensures r.Ok? ==> buf != [] && Mapped(old(view), addr, |buf|)
      ensures r.Ok? ==> view == Write(old(view), addr, buf)
      ensures r.Err? ==> Lacks(r.error, old(view).Keys) || buf == [] || !Mapped(old(view), addr, |buf|)
    {
      hide Valid, Thrift;
      if buf == [] {
        return Err(Panic("empty buffer"));
      }
      ghost var before := view;
      WriteBelowNone(before, addr, buf);
      var page, lastPage := FirstPage(addr), LastPage(addr, |buf|);
      while page <= lastPage
        invariant FirstPage(addr) <= page <= lastPage + 1
        invariant Valid() && Thrifty() && view.Keys == before.Keys && outside <= old(outside)
        invariant view == WriteBelow(before, addr, buf, page)
        invariant forall p | FirstPage(addr) <= p < page :: p in before
      {
        var step := CopyToPage(page, addr, buf);
        if step.Err? {
          return step;
        }
        WriteBelowNext(before, addr, buf, page);
        page := page + 1;
      }
      r := Ok(());
    }
  }

  ghost function CopiedPages(s: Space): set<int> {
    set p | p in s && s[p].flags.copied
  }

  /** Whether four frames for each page and another one for each that was copied make up what is missing of
      `total`. */
  ghost predicate Thrift(total: nat, free: nat, s: Space) {
    total <= free + 4 * |s| + |CopiedPages(s)|
  }

  lemma ThriftMap(total: nat, before: nat, free: nat, s: Space, page: int, p: VPage)
    requires Thrift(total, before, s) && page !in s && !p.flags.copied && before <= free + 4
    ensures Thrift(total, free, s[page := p])
  {
    assert CopiedPages(s[page := p]) == CopiedPages(s);
  }

  lemma ThriftCopy(total: nat, free: nat, s: Space, page: int)
    requires page in s && !s[page].flags.copied && free > 0
    ensures Thrift(total, free, s) ==>
              Thrift(total, free - 1, s[page := s[page].(flags := s[page].flags.(copied := true))])
  {
    var after := s[page := s[page].(flags := s[page].flags.(copied := true))];
    assert CopiedPages(after) == CopiedPages(s) + {page};
    assert after.Keys == s.Keys;
    KeysCount(s);
    KeysCount(after);
  }

  lemma KeysCount(s: Space)
    ensures |s| == |s.Keys|
  {
  }

  lemma ThriftBytes(total: nat, free: nat, s: Space, page: int, bytes: PageBytes)
    requires Thrift(total, free, s) && page in s
    ensures Thrift(total, free, s[page := s[page].(bytes := bytes)])
  {
    var after := s[page := s[page].(bytes := bytes)];
    assert CopiedPages(after) == CopiedPages(s);
    assert after.Keys == s.Keys;
    KeysCount(s);
    KeysCount(after);
  }

  /** Whoever has less than four frames left for another one of the pages had too few. */
  lemma ThriftShort(total: nat, free: nat, s: Space, page: int, pages: set<int>)
    requires Thrift(total, free, s) && free < 4 && page !in s && s.Keys <= pages && page in pages
    ensures total < 5 * |pages|
  {
    KeysCount(s);
    CountAtMost(CopiedPages(s), s.Keys);
    CountLess(s.Keys, pages, page);
  }

  lemma ThriftTotal(total: nat, free: nat, s: Space)
    requires Thrift(total, free, s)
    ensures total <= free + 5 * |s.Keys|
  {
    KeysCount(s);
    CountAtMost(CopiedPages(s), s.Keys);
  }

  lemma ThriftLacks(total: nat, s: Space, page: int)
    requires Thrift(total, 0, s) && page in s && !s[page].flags.copied
    ensures total < 5 * |s.Keys|
  {
    KeysCount(s);
    CountLess(CopiedPages(s), s.Keys, page);
  }

  /** A part of a set without one of its elements is smaller. */
  lemma CountLess(a: set<int>, b: set<int>, x: int)
    requires a <= b && x in b && x !in a
    ensures |a| < |b|
  {
    CountAtMost(a, b - {x});
  }

  lemma CountAtMost(a: set<int>, b: set<int>)
    requires a <= b
    ensures |a| <= |b|
  {
    assert b * a == a && |b| == |b - a| + |b * a|;
  }

  /** Marking a page as copied and then writing to it. */
  lemma PatchCopied(before: Space, marked: Space, after: Space, page: int, addr: int, buf: seq<Byte>)
    requires page in before
    requires marked == before[page := before[page].(flags := before[page].flags.(copied := true))]
    requires after == marked[page := marked[page].(bytes := PatchPage(before[page].bytes, page, addr, buf))]
    ensures after == PatchAt(before, page, addr, buf)
  {
    hide PatchPage;
  }

  /** `dest[at..][..src.len()].copy_from_slice(src)` */
  method CopySlice(src: seq<Byte>, dest: array<Byte>, at: int)
    requires 0 <= at <= at + |src| <= dest.Length
    modifies dest
    ensures dest[..] == old(dest[..at]) + src + old(dest[at + |src|..])
  {
    forall i | 0 <= i < |src| {
      dest[at + i] := src[i];
    }
  }
}
