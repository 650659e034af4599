/** The ELF loader: each pass over page table and frames, proved against its function in `ElfImage`. */
module LoadKernel {
  import opened Bytes
  import opened Outcomes
  import opened VirtualSpace
  import opened ElfImage
  import opened Paging

  class Loader {
    const elf: Elf
    const space: PagedMemory

    constructor (elf: Elf, space: PagedMemory)
      ensures this.elf == elf && this.space == space
    {
      this.elf, this.space := elf, space;
    }

    /** The frames with the stored bytes of a segment exist and are not the allocator's. */
    ghost predicate Stored(h: Header) {
      forall f | InFile(elf.kernelFrame, h, f) :: f in space.phys0 && f !in space.pool
    }

    /** The frames that pages were mapped to come from the allocator or hold the stored bytes of a load
        segment. */
    ghost predicate OnlyFile()
      reads space
    {
      forall g | g in space.outside :: exists h :: h in elf.headers && h.kind == Load && InFile(elf.kernelFrame, h, g)
    }

    /** Maps the pages with stored bytes to the frames of the file. */
    method MapFilePages(h: Header) returns (r: Result<()>)
      requires space.Valid() && space.Thrifty() && WellPlaced(elf, h) && Stored(h)
      modifies space
      ensures space.Valid() && (r.Ok? ==> space.Thrifty())
      ensures AddsFile(elf.kernelFrame, h, old(space.outside), space.outside)
      ensures r.Ok? ==> FileMapped(elf, space.phys0, h, old(space.view), space.view, FileLast(elf, h) + 1)
      ensures r.Err? ==> || space.Lacks(r.error, old(space.view).Keys + SegSpace(elf, space.phys0, h).Keys)
                         || !Unmapped(elf, h, SegLast(elf, h) + 1, old(space.view))
    {
      hide PagedMemory.Lacks;
      hide PagedMemory.Valid, Place, FileMapped, Unmapped, Thrift, SegSpace;
      ghost var before, mem := space.view, space.phys0;
      var physStart := elf.kernelFrame * 4096 + h.offset;
      var startFrame := physStart / 4096;
      var endFrame := (physStart + h.fileSize - 1) / 4096;
      var addr := Base(elf, h);
      var startPage := FirstPage(addr);
      FilePagesInStep(elf, h);
      FileMappedNone(elf, mem, h, before);
      hide WellPlaced, Base, FileLast, SegLast, FileFrame, InFile, AddsFile;

      var frame := startFrame;
      while frame <= endFrame
        invariant startFrame <= frame <= endFrame + 1
        invariant space.Valid() && space.Thrifty()
        invariant AddsFile(elf.kernelFrame, h, old(space.outside), space.outside)
        invariant FileMapped(elf, mem, h, before, space.view, startPage + (frame - startFrame))
      {
        FileFrameOfPage(elf, h, frame);
        AddsOne(elf.kernelFrame, h, old(space.outside), space.outside, frame);
        var _ :- MapFilePage(h, startPage + (frame - startFrame), frame, before);
        frame := frame + 1;
      }
      r := Ok(());
    }

    /** Maps one of them. */
    method MapFilePage(h: Header, page: int, frame: int, ghost before: Space) returns (r: Result<()>)
      requires space.Valid() && space.Thrifty() && Place(elf, h.vaddr).Ok? && 0 <= page < PAGE_COUNT
      requires SegFirst(elf, h) <= page <= SegLast(elf, h) && frame == FileFrame(elf, h, page)
      requires frame in space.phys0 && frame !in space.pool
      requires FileMapped(elf, space.phys0, h, before, space.view, page)
      modifies space
      ensures space.Valid() && (r.Ok? ==> space.Thrifty()) && space.outside <= old(space.outside) + {frame}
      ensures r.Ok? ==> FileMapped(elf, space.phys0, h, before, space.view, page + 1)
      ensures r.Err? ==> || space.Lacks(r.error, before.Keys + SegSpace(elf, space.phys0, h).Keys)
                         || !Unmapped(elf, h, SegLast(elf, h) + 1, before)
    {
      hide PagedMemory.Lacks;
      hide PagedMemory.Valid, Place, FileMapped, Unmapped, Thrift, SegSpace;
      space.FileFrameFacts(frame);
      FileMappedNext(elf, space.phys0, h, before, space.view, page);
      FileMappedKeys(elf, space.phys0, h, before, space.view, page);
      r := MapPage(page, frame, SegFlags(h), before.Keys + SegSpace(elf, space.phys0, h).Keys);
    }

    /** Maps one of the given pages. */
    method MapPage(page: int, frame: int, flags: Flags, ghost pages: set<int>) returns (r: Result<()>)
      requires space.Valid() && space.Thrifty() && 0 <= page < PAGE_COUNT && !flags.copied
      requires frame in space.phys && frame !in space.free && frame !in space.tables
      requires forall q | q in space.pt && space.pt[q].frame == frame :: !space.pt[q].flags.copied
      requires space.view.Keys <= pages && page in pages
      modifies space
      ensures space.Valid() && (r.Ok? ==> space.Thrifty())
      ensures space.outside <= old(space.outside) + (if frame in old(space.taken) then {} else {frame})
      ensures r.Ok? ==> page !in old(space.view)
      ensures r.Ok? ==> space.view == old(space.view)[page := VPage(old(space.phys)[frame], flags)]
      ensures r.Err? ==> space.Lacks(r.error, pages) || page in old(space.view)
    {
      hide PagedMemory.Valid, Thrift;
      ghost var total, before, view := |space.frames0|, |space.free|, space.view;
      r := space.MapTo(page, frame, flags);
      if r.Ok? {
        ThriftMap(total, before, |space.free|, view, page, space.view[page]);
      } else if page !in view {
        ThriftShort(total, before, view, page, pages);
      }
    }

    /** Zeroes the rest of the last page with stored bytes, on a frame of its own. */
    method ZeroLastPage(h: Header, ghost before: Space) returns (r: Result<()>)
      requires space.Valid() && space.Thrifty() && WellPlaced(elf, h) && h.fileSize < h.memSize
      requires FileMapped(elf, space.phys0, h, before, space.view, FileLast(elf, h) + 1)
      modifies space
      ensures space.Valid() && (r.Ok? ==> space.Thrifty()) && space.outside <= old(space.outside)
      ensures r.Ok? ==> SegMapped(elf, space.phys0, h, before, space.view, FileLast(elf, h) + 1)
      ensures r.Err? ==> space.Lacks(r.error, old(space.view).Keys)
    {
      hide PagedMemory.Valid, Place, FileMapped, SegMapped, Thrift;
      var addr := Base(elf, h);
      var zeroStart := addr + h.fileSize;
      var dataBytesBeforeZero := zeroStart % 4096;
      if dataBytesBeforeZero != 0 {
        StoredPagesWithTail(elf, space.phys0, h, before, space.view);
        var lastPage := (zeroStart - 1) / 4096;
        ghost var was := space.view;
        var copied := space.MakeMut(lastPage);
        if copied.Err? {
          ThriftLacks(|space.frames0|, was, lastPage);
          return Err(copied.error);
        }
        var frame := copied.value;
        ThriftBytes(|space.frames0|, |space.free|, space.view, lastPage,
                    ZeroFrom(space.phys[frame], dataBytesBeforeZero));
        space.WriteCopied(frame, ZeroFrom(space.phys[frame], dataBytesBeforeZero), lastPage);
        assert space.view == was[lastPage := space.view[lastPage]];
      } else {
        StoredPages(elf, space.phys0, h, before, space.view);
      }
      r := Ok(());
    }

    /** Adds the zeroed memory of a segment that its file part does not store. */
    method HandleBssSection(h: Header, ghost before: Space) returns (r: Result<()>)
      requires space.Valid() && space.Thrifty() && WellPlaced(elf, h) && h.fileSize < h.memSize
      requires FileMapped(elf, space.phys0, h, before, space.view, FileLast(elf, h) + 1)
      modifies space
      ensures space.Valid() && (r.Ok? ==> space.Thrifty()) && space.outside <= old(space.outside)
      ensures r.Ok? ==> SegMapped(elf, space.phys0, h, before, space.view, SegLast(elf, h) + 1)
      ensures r.Err? ==> || space.Lacks(r.error, before.Keys + SegSpace(elf, space.phys0, h).Keys) || !Placeable(elf, h)
                         || !Unmapped(elf, h, SegLast(elf, h) + 1, before)
    {
      hide PagedMemory.Valid, Place, FileMapped, SegMapped, Unmapped, Thrift, SegSpace;
      hide PagedMemory.Lacks;
      FilePagesInStep(elf, h);
      FileMappedKeys(elf, space.phys0, h, before, space.view, FileLast(elf, h) + 1);
      BssPages(elf, h);
      hide FileLast, SegLast, SegFirst, Placeable, WellPlaced, Base, Below;
      ghost var mapped := space.view;
      r := ZeroLastPage(h, before);
      if r.Err? {
        space.LacksMore(r.error, mapped.Keys, before.Keys + SegSpace(elf, space.phys0, h).Keys);
        return;
      }
      var addr := Base(elf, h);
      if addr + h.fileSize > 2 * HALF - 4096 {
        return Err(Panic("attempt to add with overflow"));
      }
      var last :- Below(addr + h.memSize);
      r := MapZeroPages(h, (addr + h.fileSize + 4095) / 4096, last / 4096, before);
    }

    /** Maps zeroed frames to the pages behind the stored bytes. */
    method MapZeroPages(h: Header, startPage: int, endPage: int, ghost before: Space) returns (r: Result<()>)
      requires space.Valid() && space.Thrifty() && WellPlaced(elf, h) && h.fileSize < h.memSize
      requires startPage == FileLast(elf, h) + 1 && endPage == SegLast(elf, h)
      requires SegMapped(elf, space.phys0, h, before, space.view, startPage)
      modifies space
      ensures space.Valid() && (r.Ok? ==> space.Thrifty()) && space.outside <= old(space.outside)
      ensures r.Ok? ==> SegMapped(elf, space.phys0, h, before, space.view, SegLast(elf, h) + 1)
      ensures r.Err? ==> || space.Lacks(r.error, before.Keys + SegSpace(elf, space.phys0, h).Keys)
                         || !Unmapped(elf, h, SegLast(elf, h) + 1, before)
    {
      hide PagedMemory.Lacks;
      hide PagedMemory.Valid, Place, FileMapped, SegMapped, Unmapped, Thrift, SegSpace;
      FilePagesInStep(elf, h);
      hide WellPlaced, FileLast, SegFirst, SegLast;
      var page := startPage;
      while page <= endPage
        invariant startPage <= page <= endPage + 1
        invariant space.Valid() && space.Thrifty() && space.outside <= old(space.outside)
        invariant SegMapped(elf, space.phys0, h, before, space.view, page)
      {
        SegMappedNext(elf, space.phys0, h, before, space.view, page);
        SegMappedKeys(elf, space.phys0, h, before, space.view, page);
        r := MapZeroPage(page, SegFlags(h), before.Keys + SegSpace(elf, space.phys0, h).Keys);
        if r.Err? {
          return;
        }
        page := page + 1;
      }
      r := Ok(());
    }

    /** Maps a fresh, zeroed frame. */
    method MapZeroPage(page: int, flags: Flags, ghost pages: set<int>) returns (r: Result<()>)
      requires space.Valid() && space.Thrifty() && 0 <= page < PAGE_COUNT && !flags.copied
      requires space.view.Keys <= pages && page in pages
      modifies space
      ensures space.Valid() && (r.Ok? ==> space.Thrifty()) && space.outside <= old(space.outside)
      ensures r.Ok? ==> page !in old(space.view) && space.view == old(space.view)[page := VPage(ZeroPage(), flags)]
      ensures r.Err? ==> space.Lacks(r.error, pages) || page in old(space.view)
    {
      hide PagedMemory.Valid, Thrift, ZeroPage;
      ghost var total, before, view := |space.frames0|, |space.free|, space.view;
      if page !in view && before < 4 {
        ThriftShort(total, before, view, page, pages);
      }
      var frame :- space.AllocateFrame();
      space.WriteFresh(frame, ZeroPage());
      r := space.MapTo(page, frame, flags);
      if r.Ok? {
        ThriftMap(total, before, |space.free|, view, page, VPage(ZeroPage(), flags));
      }
    }

    /** Maps a load segment. */
    method HandleLoadSegment(h: Header) returns (r: Result<()>)
      requires space.Valid() && space.Thrifty() && WellShaped(elf, h) && Stored(h)
      modifies space
      ensures space.Valid() && (r.Ok? ==> space.Thrifty())
      ensures AddsFile(elf.kernelFrame, h, old(space.outside), space.outside)
      ensures r.Ok? ==> Place(elf, h.vaddr).Ok? && space.view == old(space.view) + SegSpace(elf, space.phys0, h)
      ensures r.Err? ==> || !Placeable(elf, h) || !Unmapped(elf, h, SegLast(elf, h) + 1, old(space.view))
                         || space.Lacks(r.error, old(space.view).Keys + SegSpace(elf, space.phys0, h).Keys)
    {
      hide PagedMemory.Lacks;
      hide PagedMemory.Valid, Place, FileMapped, Unmapped, Thrift;
      ghost var before := space.view;
      var _ :- Place(elf, h.vaddr);
      var _ :- MapFilePages(h);
      if h.memSize > h.fileSize {
        ghost var outside := space.outside;
        r := HandleBssSection(h, before);
        AddsFewer(elf.kernelFrame, h, old(space.outside), outside, space.outside);
        if r.Err? {
          return;
        }
      } else {
        AllStored(elf, space.phys0, h, before, space.view);
      }
      r := Ok(());
    }

    /** Reads a relocation from a relocation table, through the kernel's address space. */
    method ReadRelocation(table: nat, idx: nat) returns (r: Result<Relocation>)
      requires space.Valid()
      ensures r.Ok? ==> r == ReadEntry(elf, space.view, table, idx)
      ensures r.Err? ==> ReadEntry(elf, space.view, table, idx).Err?
    {
      hide PagedMemory.Valid;
      var addr :- Place(elf, table + 24 * idx);
      var buf := new Byte[24];
      var _ :- space.CopyFrom(addr, buf);
      r := Ok(DecodeRelocation(buf[..]));
    }

    /** Applies one relocation. */
    method ApplyRelocation(rela: Relocation) returns (r: Result<()>)
      requires space.Valid() && space.Thrifty()
      modifies space
      ensures space.Valid() && space.Thrifty() && space.outside <= old(space.outside)
      ensures space.view.Keys == old(space.view).Keys
      ensures r.Ok? ==> ToPatch(elf, rela).Ok? &&
                        ApplyPatch(old(space.view), ToPatch(elf, rela).value) == Ok(space.view)
      ensures r.Err? ==> || space.Lacks(r.error, old(space.view).Keys) || ToPatch(elf, rela).Err?
                         || ApplyPatch(old(space.view), ToPatch(elf, rela).value).Err?
    {
      hide PagedMemory.Valid, Thrift;
      if rela.info / 0x1_0000_0000 != 0 {
        return Err(Panic("relocations using the symbol table are not supported"));
      }
      match rela.info % 0x1_0000_0000
      case 8 =>
        var _ :- CheckIsInLoad(elf.headers, rela.offset, 0);
        var addr :- Place(elf, rela.offset);
        var value :- Shift(elf, rela.addend);
        r := space.CopyTo(addr, ToLE(value, 8));
      case _ =>
        r := Err(Panic("relocation type not supported"));
    }

    /** Collects the relocation tags of a dynamic section. */
    method FindRelaEntries(dynamic: seq<Dyn>) returns (r: Result<Option<RelaTable>>)
      ensures r.Ok? ==> r == FindRela(dynamic)
      ensures r.Err? ==> FindRela(dynamic).Err?
    {
      hide Values, FindRela, SeenSoFar;
      var rela: Option<nat>, size: Option<nat>, ent: Option<nat> := None, None, None;
      NoValues();
      assert dynamic[..0] == [];
      for i := 0 to |dynamic|
        invariant SeenSoFar(dynamic[..i], rela, size, ent)
      {
        NextValues(dynamic, i, rela, size, ent);
        var value := dynamic[i].value;
        match dynamic[i].tag
        case BadTag =>
          return Err(Rejected("invalid tag"));
        case Rela =>
          if rela.Some? {
            return Err(Rejected("Dynamic section contains more than one Rela entry"));
          }
          rela := Some(value);
        case RelaSize =>
          if size.Some? {
            return Err(Rejected("Dynamic section contains more than one RelaSize entry"));
          }
          size := Some(value);
        case RelaEnt =>
          if ent.Some? {
            return Err(Rejected("Dynamic section contains more than one RelaEnt entry"));
          }
          ent := Some(value);
        case OtherTag =>
      }
      assert dynamic[..|dynamic|] == dynamic;
      AllSeen(dynamic, rela, size, ent);
      if rela.None? {
        if size.Some? || ent.Some? {
          return Err(Rejected("Rela entry is missing but RelaSize or RelaEnt have been provided"));
        }
        return Ok(None);
      }
      if size.None? {
        return Err(Rejected("RelaSize entry is missing"));
      }
      if ent.None? {
        return Err(Rejected("RelaEnt entry is missing"));
      }
      r := Ok(Some(RelaTable(rela.value, size.value, ent.value)));
    }

    /** Applies the relocations of a dynamic segment, each read from memory just before its turn. */
    method HandleDynamicSegment(h: Header) returns (r: Result<()>)
      requires space.Valid() && space.Thrifty()
      modifies space
      ensures space.Valid() && space.Thrifty() && space.outside <= old(space.outside)
      ensures space.view.Keys == old(space.view).Keys
      ensures r.Ok? ==> RelocateSegment(elf, old(space.view), h) == Ok(space.view)
      ensures r.Err? ==> space.Lacks(r.error, old(space.view).Keys) || RelocateSegment(elf, old(space.view), h).Err?
    {
      hide PagedMemory.Valid, Thrift, FindRela, ReadEntry, ToPatch, ApplyPatch;
      ghost var before := space.view;
      var found :- FindRelaEntries(h.dynamic);
      match found
      case None =>
        return Ok(());
      case Some(t) =>
        if t.entrySize != 24 {
          return Err(Panic("unsupported entry size"));
        }
        var numEntries := t.size / t.entrySize;
        for idx := 0 to numEntries
          invariant space.Valid() && space.Thrifty() && space.outside <= old(space.outside)
          invariant space.view.Keys == before.Keys
          invariant Relocate(elf, before, t.table, 0, numEntries) ==
                    Relocate(elf, space.view, t.table, idx, numEntries)
        {
          var rela :- ReadRelocation(t.table, idx);
          var _ :- ApplyRelocation(rela);
        }
        r := Ok(());
    }

    /** Clears a flag on all pages from `first` to `last`. */
    method ClearFlags(first: int, last: int, bit: Bit) returns (r: Result<()>)
      requires space.Valid()
      modifies space`pt, space`view
      ensures space.Valid()
      ensures r.Ok? <==> AllMapped(old(space.view), first, last)
      ensures space.view.Keys == old(space.view).Keys
      ensures r.Ok? ==> space.view == ClearPages(old(space.view), first, last, bit)
    {
      hide PagedMemory.Valid, ClearPages;
      ghost var before := space.view;
      ClearNothing(before, first, bit);
      var page := first;
      while page <= last
        invariant first <= page && (page <= last + 1 || page == first)
        invariant space.Valid()
        invariant space.view == ClearPages(before, first, page - 1, bit)
        invariant AllMapped(before, first, page - 1)
      {
        var mapped := space.IsMapped(page);
        if !mapped {
          return Err(Panic("has the elf file not been mapped correctly?"));
        }
        ClearPagesNext(before, space.view, first, page, bit);
        var flags := space.FlagsOf(page);
        if Clear(flags, bit) != flags {
          space.UpdateFlags(page, Clear(flags, bit));
        }
        page := page + 1;
      }
      r := Ok(());
    }

    /** Clears a flag on the pages of one header: `handle_relro_segment` for the writable flag, one
        turn of `remove_copied_flags` for the copied mark. */
    method ClearHeaderFlags(h: Header, bit: Bit) returns (r: Result<()>)
      requires space.Valid()
      modifies space`pt, space`view
      ensures space.Valid()
      ensures r.Ok? ==> ClearHeader(elf, old(space.view), h, bit) == Ok(space.view)
      ensures space.view.Keys == old(space.view).Keys
      ensures r.Err? ==> ClearHeader(elf, old(space.view), h, bit).Err?
    {
      hide PagedMemory.Valid, Shift, VirtNew, Below, AllMapped, ClearPages;
      var startAddr :- Shift(elf, h.vaddr);
      var start :- VirtNew(startAddr);
      var end :- VirtNew(startAddr + h.memSize);
      var last :- Below(end);
      r := ClearFlags(start / 4096, last / 4096, bit);
    }

    /** The ELF rules for all load segments. */
    ghost predicate WellFormed() {
      forall h | h in elf.headers && h.kind == Load :: WellShaped(elf, h) && Stored(h)
    }

    /** Maps one of the load segments. */
    method MapSegment(i: nat) returns (r: Result<()>)
      requires space.Valid() && space.Thrifty() && OnlyFile() && WellFormed()
      requires i < |elf.headers| && elf.headers[i].kind == Load && space.view == MapAll(elf, space.phys0, i)
      modifies space
      ensures space.Valid() && (r.Ok? ==> space.Thrifty()) && OnlyFile()
      ensures r.Ok? ==> space.view == MapAll(elf, space.phys0, i + 1)
      ensures r.Err? && Mappable(elf, |elf.headers|) ==>
                space.Lacks(r.error, MapAll(elf, space.phys0, |elf.headers|).Keys)
    {
      hide PagedMemory.Lacks;
      hide PagedMemory.Valid, Place, SegSpace, Unmapped, Mappable, Stored, Thrift;
      var h := elf.headers[i];
      MappableSegment(elf, space.phys0, i);
      ghost var view := space.view;
      r := HandleLoadSegment(h);
      if r.Err? && Place(elf, h.vaddr).Ok? {
        hide MapAll;
        PagesOfAll(elf, space.phys0, i);
        ghost var pages := view.Keys + SegSpace(elf, space.phys0, h).Keys;
        if space.Lacks(r.error, pages) {
          space.LacksMore(r.error, pages, MapAll(elf, space.phys0, |elf.headers|).Keys);
        }
      }
    }

    /** The first pass of `load_segments`: maps all load segments. */
    method MapSegments() returns (r: Result<Option<TlsTemplate>>)
      requires space.Valid() && space.Thrifty() && space.view == map[] && space.outside == {} && WellFormed()
      modifies space
      ensures space.Valid() && (r.Ok? ==> space.Thrifty()) && OnlyFile()
      ensures r.Ok? ==> r == FindTls(elf, |elf.headers|)
      ensures r.Ok? ==> space.view == MapAll(elf, space.phys0, |elf.headers|)
      ensures r.Err? && Mappable(elf, |elf.headers|) ==>
                space.Lacks(r.error, MapAll(elf, space.phys0, |elf.headers|).Keys)
    {
      hide PagedMemory.Valid, Place, SegSpace, Unmapped, Mappable, Stored, Thrift;
      var tls: Option<TlsTemplate> := None;
      for i := 0 to |elf.headers|
        invariant space.Valid() && space.Thrifty() && OnlyFile()
        invariant space.view == MapAll(elf, space.phys0, i)
        invariant FindTls(elf, i) == Ok(tls)
      {
        var h := elf.headers[i];
        MappableSegment(elf, space.phys0, i);
        match h.kind
        case Load =>
          var _ :- MapSegment(i);
        case Tls =>
          if tls.Some? {
            return Err(Rejected("multiple TLS segments not supported"));
          }
          var start :- Shift(elf, h.vaddr);
          tls := Some(TlsTemplate(start, h.memSize, h.fileSize));
        case Unknown =>
          return Err(Rejected("unknown program header type"));
        case _ =>
      }
      r := Ok(tls);
    }

    /** Loads all segments: the kernel then sees exactly the image of the file, and the file's own
        bytes in memory are what they were. */
    method LoadSegments() returns (r: Result<Option<TlsTemplate>>)
      requires space.Valid() && space.Thrifty() && space.view == map[] && space.outside == {} && WellFormed()
      modifies space
      ensures space.Valid() && OnlyFile()
      ensures r.Ok? ==> r == FindTls(elf, |elf.headers|)
      ensures r.Ok? ==> LoadImage(elf, space.phys0) == Ok(space.view)
      ensures r.Ok? ==> |space.frames0| <= |space.free| + 5 * |space.view.Keys|
      ensures r.Err? && Mappable(elf, |elf.headers|) && LoadImage(elf, space.phys0).Ok? ==>
                space.Lacks(r.error, MapAll(elf, space.phys0, |elf.headers|).Keys)
      ensures forall f | f in space.phys0 && f !in space.pool :: space.phys[f] == space.phys0[f]
    {
      hide PagedMemory.Valid, MapAll, Mappable, RelocateSegment, ClearHeader, FindTls, Thrift;
      r := MapSegments();
      if r.Err? {
        space.FileUntouched();
        return;
      }
      ghost var mapped := space.view;
      for i := 0 to |elf.headers|
        invariant space.Valid() && space.Thrifty() && space.view.Keys == mapped.Keys && OnlyFile()
        invariant RelocateAll(elf, mapped, i) == Ok(space.view)
      {
        if elf.headers[i].kind == Dynamic {
          var done := HandleDynamicSegment(elf.headers[i]);
          if done.Err? {
            if !space.Lacks(done.error, mapped.Keys) {
              RelocateAllFails(elf, mapped, i + 1);
            }
            space.FileUntouched();
            return Err(done.error);
          }
        }
      }
      ThriftTotal(|space.frames0|, |space.free|, space.view);
      var done := ClearKind(GnuRelro, Writable);
      if done.Ok? {
        done := ClearKind(Load, Copied);
      }
      space.FileUntouched();
      if done.Err? {
        return Err(done.error);
      }
    }

    /** The last two passes: RELRO, and dropping the copied marks. */
    method ClearKind(kind: Kind, bit: Bit) returns (r: Result<()>)
      requires space.Valid()
      modifies space`pt, space`view
      ensures space.Valid()
      ensures r.Ok? ==> ClearAll(elf, old(space.view), kind, bit, |elf.headers|) == Ok(space.view)
      ensures space.view.Keys == old(space.view).Keys
      ensures r.Err? ==> ClearAll(elf, old(space.view), kind, bit, |elf.headers|).Err?
    {
      hide PagedMemory.Valid, ClearHeader;
      ghost var before := space.view;
      for i := 0 to |elf.headers|
        invariant space.Valid()
        invariant ClearAll(elf, before, kind, bit, i) == Ok(space.view) && space.view.Keys == before.Keys
      {
        if elf.headers[i].kind == kind {
          var done := ClearHeaderFlags(elf.headers[i], bit);
          if done.Err? {
            ClearAllFails(elf, before, kind, bit, i + 1);
            return done;
          }
        }
      }
      r := Ok(());
    }
  }

  /** Whether frame `g` holds stored bytes of a segment. */
  predicate InFile(kernelFrame: int, h: Header, g: int) {
    kernelFrame + h.offset / 4096 <= g <= (kernelFrame * 4096 + h.offset + h.fileSize - 1) / 4096
  }

  /** Whether all frames added to a set hold stored bytes of a segment. */
  ghost predicate AddsFile(kernelFrame: int, h: Header, before: set<int>, after: set<int>) {
    forall g | g in after :: g in before || InFile(kernelFrame, h, g)
  }

  lemma AddsOne(kernelFrame: int, h: Header, before: set<int>, now: set<int>, frame: int)
    requires AddsFile(kernelFrame, h, before, now) && InFile(kernelFrame, h, frame)
    ensures forall after | after <= now + {frame} :: AddsFile(kernelFrame, h, before, after)
  {
  }

  lemma AddsFewer(kernelFrame: int, h: Header, before: set<int>, now: set<int>, after: set<int>)
    requires AddsFile(kernelFrame, h, before, now) && after <= now
    ensures AddsFile(kernelFrame, h, before, after)
  {
  }

  /** Whether none of the segment's pages below `end` is mapped in `s`. */
  ghost predicate Unmapped(e: Elf, h: Header, end: int, s: Space)
    requires Place(e, h.vaddr).Ok?
  {
    forall p | SegFirst(e, h) <= p < end :: p !in s
  }

  lemma ClearNothing(before: Space, first: int, bit: Bit)
    ensures forall last | last < first :: ClearPages(before, first, last, bit) == before
  {
  }

  lemma ClearPagesNext(before: Space, now: Space, first: int, page: int, bit: Bit)
    requires first <= page && now == ClearPages(before, first, page - 1, bit)
    ensures page in now <==> page in before
    ensures page in now ==>
      && now[page := now[page].(flags := Clear(now[page].flags, bit))] == ClearPages(before, first, page, bit)
      && (Clear(now[page].flags, bit) == now[page].flags ==> now == ClearPages(before, first, page, bit))
  {
    if page in now {
      assert now[page] == before[page];
    }
  }

  /** Whether `after` is `before` with the segment's pages below `end` mapped to the file's frames. */
  ghost predicate FileMapped(e: Elf, mem: Memory, h: Header, before: Space, after: Space, end: int)
    requires Place(e, h.vaddr).Ok?
  {
    && Unmapped(e, h, end, before)
    && after == before + map p | SegFirst(e, h) <= p < end :: FilePage(e, mem, h, p)
  }

  ghost function FilePage(e: Elf, mem: Memory, h: Header, p: int): VPage
    requires Place(e, h.vaddr).Ok?
  {
    VPage(FrameAt(mem, FileFrame(e, h, p)), SegFlags(h))
  }

  /** Whether `after` is `before` with the segment's pages below `end` as they shall be. */
  ghost predicate SegMapped(e: Elf, mem: Memory, h: Header, before: Space, after: Space, end: int)
    requires Place(e, h.vaddr).Ok?
  {
    Unmapped(e, h, end, before) && after == before + SegBelow(e, mem, h, end)
  }

  lemma FileMappedNone(e: Elf, mem: Memory, h: Header, before: Space)
    requires Place(e, h.vaddr).Ok?
    ensures FileMapped(e, mem, h, before, before, SegFirst(e, h))
  {
  }

  lemma FileMappedNext(e: Elf, mem: Memory, h: Header, before: Space, s: Space, page: int)
    requires Place(e, h.vaddr).Ok? && SegFirst(e, h) <= page <= SegLast(e, h)
    requires FileMapped(e, mem, h, before, s, page)
    ensures page !in s ==> FileMapped(e, mem, h, before, s[page := FilePage(e, mem, h, page)], page + 1)
    ensures page in s ==> !Unmapped(e, h, SegLast(e, h) + 1, before)
  {
  }

  /** The pages mapped so far are those before and some of the segment's. */
  lemma FileMappedKeys(e: Elf, mem: Memory, h: Header, before: Space, s: Space, end: int)
    requires Place(e, h.vaddr).Ok? && end <= SegLast(e, h) + 1 && FileMapped(e, mem, h, before, s, end)
    ensures s.Keys <= before.Keys + SegSpace(e, mem, h).Keys
    ensures SegFirst(e, h) <= end <= SegLast(e, h) ==> end in SegSpace(e, mem, h)
  {
    hide Place, FilePage, SegPage;
  }

  lemma SegMappedKeys(e: Elf, mem: Memory, h: Header, before: Space, s: Space, end: int)
    requires Place(e, h.vaddr).Ok? && SegFirst(e, h) <= end <= SegLast(e, h) && SegMapped(e, mem, h, before, s, end)
    ensures s.Keys <= before.Keys + SegSpace(e, mem, h).Keys && end in SegSpace(e, mem, h)
  {
    hide Place, SegPage;
  }

  /** The pages behind the stored bytes are zero. */
  lemma ZeroedPage(e: Elf, mem: Memory, h: Header, page: int)
    requires Place(e, h.vaddr).Ok? && h.fileSize < h.memSize
    requires FileLast(e, h) < page <= SegLast(e, h)
    ensures SegPage(e, mem, h, page) == VPage(ZeroPage(), SegFlags(h))
  {
    assert SegBytes(e, mem, h, page) == ZeroPage();
  }

  lemma SegMappedNext(e: Elf, mem: Memory, h: Header, before: Space, s: Space, page: int)
    requires Place(e, h.vaddr).Ok? && SegFirst(e, h) <= page <= SegLast(e, h)
    requires h.fileSize < h.memSize && FileLast(e, h) < page
    requires SegMapped(e, mem, h, before, s, page)
    ensures page !in s ==>
              SegMapped(e, mem, h, before, s[page := VPage(ZeroPage(), SegFlags(h))], page + 1)
    ensures page in s ==> !Unmapped(e, h, SegLast(e, h) + 1, before)
  {
    hide SegPage, ZeroPage, SegFlags;
    ZeroedPage(e, mem, h, page);
  }

  /** The stored bytes of a segment take as many pages as frames. */
  lemma FilePagesInStep(e: Elf, h: Header)
    requires WellPlaced(e, h)
    ensures (e.kernelFrame * 4096 + h.offset + h.fileSize - 1) / 4096 - (e.kernelFrame * 4096 + h.offset) / 4096
         == FileLast(e, h) - SegFirst(e, h)
    ensures (e.kernelFrame * 4096 + h.offset) / 4096 == e.kernelFrame + h.offset / 4096
    ensures SegFirst(e, h) <= FileLast(e, h) + 1 <= SegLast(e, h) + 1
    ensures 0 <= SegFirst(e, h) && SegLast(e, h) < PAGE_COUNT
  {
    VirtNewShift(e.addressOffset + h.vaddr, h.memSize);
    SamePageOffset(Base(e, h), e.kernelFrame * 4096 + h.offset, h.fileSize - 1);
    hide VirtNew, Shift;
  }

  /** A frame with stored bytes and the page it is for. */
  lemma FileFrameOfPage(e: Elf, h: Header, frame: int)
    requires WellPlaced(e, h)
    requires var start := e.kernelFrame * 4096 + h.offset; start / 4096 <= frame <= (start + h.fileSize - 1) / 4096
    ensures var page := FirstPage(Base(e, h)) + (frame - (e.kernelFrame * 4096 + h.offset) / 4096);
            && SegFirst(e, h) <= page <= SegLast(e, h) && 0 <= page < PAGE_COUNT && frame == FileFrame(e, h, page)
    ensures InFile(e.kernelFrame, h, frame)
  {
    FilePagesInStep(e, h);
    hide Place;
  }

  /** The pages to be zeroed as a whole are those behind the stored bytes. */
  lemma BssPages(e: Elf, h: Header)
    requires WellPlaced(e, h) && h.fileSize < h.memSize
    ensures 0 <= Base(e, h) + h.memSize < 2 * HALF
    ensures Base(e, h) + h.fileSize > 2 * HALF - 4096 || Below(Base(e, h) + h.memSize).Err? ==> !Placeable(e, h)
    ensures (Base(e, h) + h.fileSize + 4095) / 4096 == FileLast(e, h) + 1
    ensures (Base(e, h) + h.memSize - 1) / 4096 == SegLast(e, h)
  {
    VirtNewShift(e.addressOffset + h.vaddr, h.memSize);
    hide VirtNew, Shift;
  }

  /** A stored page that lies before the zeroed part is final. */
  lemma StoredPage(e: Elf, mem: Memory, h: Header, p: int)
    requires Place(e, h.vaddr).Ok? && h.fileSize < h.memSize
    requires p * 4096 + 4096 <= Base(e, h) + h.fileSize
    ensures SegPage(e, mem, h, p) == FilePage(e, mem, h, p)
  {
  }

  /** If the stored bytes end with a page, the stored pages are final. */
  lemma StoredPages(e: Elf, mem: Memory, h: Header, before: Space, s: Space)
    requires Place(e, h.vaddr).Ok? && h.fileSize < h.memSize
    requires (Base(e, h) + h.fileSize) % 4096 == 0
    requires FileMapped(e, mem, h, before, s, FileLast(e, h) + 1)
    ensures SegMapped(e, mem, h, before, s, FileLast(e, h) + 1)
  {
    hide SegPage, FilePage;
    forall p | SegFirst(e, h) <= p < FileLast(e, h) + 1
      ensures SegPage(e, mem, h, p) == FilePage(e, mem, h, p)
    {
      StoredPage(e, mem, h, p);
    }
  }

  /** Zeroing the tail of the last stored page makes it final. */
  lemma TailPage(e: Elf, mem: Memory, h: Header)
    requires Place(e, h.vaddr).Ok? && h.fileSize < h.memSize
    requires (Base(e, h) + h.fileSize) % 4096 != 0
    ensures var last := FileLast(e, h);
      && SegFirst(e, h) <= last
      && last * 4096 <= Base(e, h) + h.fileSize
      && SegPage(e, mem, h, last) ==
           VPage(ZeroFrom(FilePage(e, mem, h, last).bytes, (Base(e, h) + h.fileSize) % 4096),
                 FilePage(e, mem, h, last).flags.(copied := true))
  {
    hide Place;
    LastStoredPage(Base(e, h), h.fileSize);
  }

  lemma LastStoredPage(base: nat, len: nat)
    requires (base + len) % 4096 != 0
    ensures base / 4096 <= (base + len - 1) / 4096
    ensures base + len - (base + len - 1) / 4096 * 4096 == (base + len) % 4096
  {
  }

  /** Otherwise zeroing the tail of the last one makes them final. */
  lemma StoredPagesWithTail(e: Elf, mem: Memory, h: Header, before: Space, s: Space)
    requires WellPlaced(e, h) && h.fileSize < h.memSize
    requires (Base(e, h) + h.fileSize) % 4096 != 0
    requires FileMapped(e, mem, h, before, s, FileLast(e, h) + 1)
    ensures var last := FileLast(e, h);
      && last in s
      && SegMapped(e, mem, h, before,
           s[last := VPage(ZeroFrom(s[last].bytes, (Base(e, h) + h.fileSize) % 4096),
                           s[last].flags.(copied := true))], last + 1)
  {
    hide SegPage, FilePage, ZeroFrom;
    TailPage(e, mem, h);
    forall p | SegFirst(e, h) <= p < FileLast(e, h)
      ensures SegPage(e, mem, h, p) == FilePage(e, mem, h, p)
    {
      StoredPage(e, mem, h, p);
    }
  }

  lemma AllStored(e: Elf, mem: Memory, h: Header, before: Space, s: Space)
    requires Place(e, h.vaddr).Ok? && h.fileSize == h.memSize
    requires FileMapped(e, mem, h, before, s, FileLast(e, h) + 1)
    ensures SegMapped(e, mem, h, before, s, SegLast(e, h) + 1)
  {
    forall p | SegFirst(e, h) <= p <= SegLast(e, h)
      ensures SegPage(e, mem, h, p) == FilePage(e, mem, h, p)
    {
    }
  }

  function Seen(value: Option<nat>): seq<nat> {
    if value.None? then [] else [value.value]
  }

  /** Whether the entries of a dynamic section hold each value once at most, and these. */
  ghost predicate SeenSoFar(dynamic: seq<Dyn>, rela: Option<nat>, size: Option<nat>, ent: Option<nat>) {
    && Values(dynamic, BadTag) == [] && Values(dynamic, Rela) == Seen(rela)
    && Values(dynamic, RelaSize) == Seen(size) && Values(dynamic, RelaEnt) == Seen(ent)
  }

  lemma NoValues()
    ensures SeenSoFar([], None, None, None)
  {
  }

  /** One entry more: another value, or a reason to reject the section. */
  lemma NextValues(dynamic: seq<Dyn>, i: nat, rela: Option<nat>, size: Option<nat>, ent: Option<nat>)
    requires i < |dynamic| && SeenSoFar(dynamic[..i], rela, size, ent)
    ensures match dynamic[i].tag
            case BadTag => FindRela(dynamic).Err?
            case Rela =>
              if rela.Some? then FindRela(dynamic).Err?
              else SeenSoFar(dynamic[..i + 1], Some(dynamic[i].value), size, ent)
            case RelaSize =>
              if size.Some? then FindRela(dynamic).Err?
              else SeenSoFar(dynamic[..i + 1], rela, Some(dynamic[i].value), ent)
            case RelaEnt =>
              if ent.Some? then FindRela(dynamic).Err?
              else SeenSoFar(dynamic[..i + 1], rela, size, Some(dynamic[i].value))
            case OtherTag => SeenSoFar(dynamic[..i + 1], rela, size, ent)
  {
    assert dynamic[..i + 1][..i] == dynamic[..i];
    ValuesPrefix(dynamic, dynamic[i].tag, i + 1);
  }

  lemma AllSeen(dynamic: seq<Dyn>, rela: Option<nat>, size: Option<nat>, ent: Option<nat>)
    requires SeenSoFar(dynamic, rela, size, ent)
    ensures rela.Some? && size.Some? && ent.Some? ==>
              FindRela(dynamic) == Ok(Some(RelaTable(rela.value, size.value, ent.value)))
    ensures rela.None? && size.None? && ent.None? ==> FindRela(dynamic) == Ok(None)
    ensures !(rela.Some? == size.Some? == ent.Some?) ==> FindRela(dynamic).Err?
  {
    hide Values;
  }

  /** In a mappable file, no page of the next load segment is mapped by the ones before it. */
  lemma MappableSegment(e: Elf, mem: Memory, i: nat)
    requires i < |e.headers|
    ensures Mappable(e, |e.headers|) ==> FindTls(e, i + 1).Ok? && e.headers[i].kind != Unknown
    ensures Mappable(e, |e.headers|) && e.headers[i].kind == Load ==> Placeable(e, e.headers[i])
    ensures Mappable(e, |e.headers|) && IsLoad(e, i) ==>
              Unmapped(e, e.headers[i], SegLast(e, e.headers[i]) + 1, MapAll(e, mem, i))
  {
    if Mappable(e, |e.headers|) {
      FindTlsPrefix(e, i + 1, |e.headers|);
      if IsLoad(e, i) {
        forall p | SegFirst(e, e.headers[i]) <= p < SegLast(e, e.headers[i]) + 1
          ensures p !in MapAll(e, mem, i)
        {
          MapAllKeys(e, mem, i, p);
          assert forall j | 0 <= j < i && IsLoad(e, j) :: Apart(e, e.headers[j], e.headers[i]);
        }
      }
    }
  }

  /** The pages of the segments up to one are among those of all. */
  lemma PagesOfAll(e: Elf, mem: Memory, i: nat)
    requires i < |e.headers| && IsLoad(e, i)
    ensures MapAll(e, mem, i).Keys + SegSpace(e, mem, e.headers[i]).Keys <= MapAll(e, mem, |e.headers|).Keys
  {
    hide MapAll, SegFirst, SegLast;
    forall p | p in MapAll(e, mem, i).Keys + SegSpace(e, mem, e.headers[i]).Keys
      ensures p in MapAll(e, mem, |e.headers|)
    {
      MapAllKeys(e, mem, i, p);
      MapAllKeys(e, mem, |e.headers|, p);
    }
  }

  lemma {:induction false} FindTlsPrefix(e: Elf, i: nat, n: nat)
    requires i <= n <= |e.headers| && FindTls(e, n).Ok?
    ensures FindTls(e, i).Ok?
  {
    if i < n {
      FindTlsPrefix(e, i, n - 1);
    }
  }

  /** A pass that fails at some header fails. */
  lemma {:induction false} RelocateAllFails(e: Elf, s: Space, i: nat)
    requires i <= |e.headers| && RelocateAll(e, s, i).Err?
    ensures RelocateAll(e, s, |e.headers|).Err?
    decreases |e.headers| - i
  {
    if i < |e.headers| {
      RelocateAllFails(e, s, i + 1);
    }
  }

  lemma {:induction false} ClearAllFails(e: Elf, s: Space, kind: Kind, bit: Bit, i: nat)
    requires i <= |e.headers| && ClearAll(e, s, kind, bit, i).Err?
    ensures ClearAll(e, s, kind, bit, |e.headers|).Err?
    decreases |e.headers| - i
  {
    if i < |e.headers| {
      ClearAllFails(e, s, kind, bit, i + 1);
    }
  }
}
