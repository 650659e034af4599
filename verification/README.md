# A verified model of the x86_64 bootloader

The bootloader loads files from a FAT volume, maps an ELF kernel into a new address space, adds a stack,
the framebuffer, the ramdisk and other mappings, and tells the kernel which memory is free. This project
models that path in Dafny and proves what the kernel may rely on when it starts.

| part of the system | modules |
|---|---|
| ELF loader with copy-on-write pages | `VirtualSpace`, `Paging`, `ElfImage`, `LoadKernel`, `KernelImage` |
| frame allocator and memory map | `MemoryMap`, `FrameAllocator` |
| level 4 entries, placing the kernel, mapping setup | `Level4Entries`, `Placement`, `KernelTable`, `BootMappings` |
| the last stage from start to end | `Boot` |
| stage 2: disk, FAT, file loading | `Disk`, `Fat`, `LoadFile`, `Stage2` |
| configuration section | `ConfigCodec` |
| helpers | `Bytes`, `Outcomes`, `Arithmetic`, `FrameSupply` |

`dafny verify dfyconfig.toml` checks everything.

## The main theorems

**Loader.** `Paging.PagedMemory` is physical memory, a page table over it and a frame allocator. Its ghost
field `view` is the address space the kernel sees: every page with its own bytes, no frames. All loader
methods are proved against pure functions on such spaces, so aliasing frames cannot be observed
(`LoadSegments`). `KernelImage` then says what the resulting space is: the bytes the ELF file stores, zero up
to `p_memsz`, the load offset plus the addend where a relocation wrote (PT_LOAD under "Program Header" in
chapter 5 of the System V gABI; B + A in section 4.4.1 of the System V AMD64 psABI), the permissions of the
segments less RELRO, and no page with the loader's private mark. Through all of this no frame of the file is
written to.

**Memory.** Over whole runs the frame allocator hands out each usable frame once, in ascending order. The
memory map it builds afterwards tiles the descriptors exactly, gives every byte the right kind, never calls a
frame it has handed out usable, and needs at most three entries more than there are descriptors; how many
exactly is said by counting what frontier and kernel file split (`MapCount`).

**Mapping setup.** For every configuration without fixed addresses and every outcome of the random number
generator, what is placed dynamically meets nothing that is mapped already: all areas lie in pairwise
different level 4 entries apart from those of the kernel, and the translations are the promised ones. The
three identity mappings (context switch code and GDT) are the exception: they fail, but for a lack of frames,
exactly if one of their pages is taken. A position independent kernel never takes one of them
(`PieNotBlocked`). If the frame of the GDT lies at 512 GiB or above, its page is in no entry marked as used, and
it can meet what is placed dynamically (`GdtMeetsStack`); below that it never does (`LowGdtNotMet`). With as many
free entries as areas, each of a single entry, there is a place for every one, whatever was chosen for the
others (`AlwaysAChoice`).

**From start to end.** `Boot.Run` is the last stage as one method, step by step: mark the configuration, place
and load the kernel, map the rest, map boot info, write the memory map. Its contract is about the state at the
end: the page table shows the image of the file, stack, framebuffer, ramdisk, physical memory, recursive entry
and boot info are in areas of their own inside the configured range, none of which meets the kernel, and no
frame that left the allocator on the way, for whatever purpose, is in a region reported as usable. Nor is any
byte of a frame behind a page of the kernel, except behind the end of the kernel file in its last frame. A run
that does not come to its end stops at a step that had a reason to fail, in a state that possible choices in
the steps before lead to: the place of the kernel is one it may get, the entries in use are those of the
configuration, the kernel and areas chosen in order for what is asked for, the GDT has a frame it may get, and
a lack of frames means that there are fewer than a number that depends on kernel and requests only. So a run
with ample supplies comes to its end (`Ample`), and there are such runs (`OnePageKernelIsAmple`).

**Stage 2.** Reading a file through the sector loop, the 16 KiB buffer loop and the cluster loop succeeds
exactly if its chain ends regularly and the disk goes on far enough behind its clusters, and then puts the
concatenation of the clusters into memory if these start with sectors, and bytes from a little before them
otherwise. The clusters are those that the table on the disk links (`ChainInTable`), and the loop ends exactly on
the chains that repeat no cluster (`ChainExistsIff`). Files loaded later leave the earlier ones intact, and what
stage 2 reports of them is where they are (`Start`).

**Configuration.** Printer and parser are inverse in both directions, and both agree with the format, which is
stated byte by byte (`FormatIff`).

## How the model is built

- A virtual address is its index among the 2^48 canonical ones. `VirtNew` is `VirtAddr::new` of the crate
  version 0.14 the repository names: it copies bit 47 to the bits above it and fails for other addresses.
- A panic, `unwrap` or `expect` that fails is the outcome `Err(Panic(..))`; running out of frames is
  `Err(OutOfFrames)`, whichever of the two ways the code reports it; an `Err` of the code, or a mapping that
  exists already, is `Err(Rejected(..))`.
- `map_to` takes any number of page table frames, up to three, from the allocator and leaves arbitrary bytes in
  them; in the loader it takes none where a page table of the last level exists.
- Random choices are arbitrary ones. The contents of the disk are a byte sequence, memory another one.
- The loader starts with an empty kernel page table, which is how the bootloader creates it
  (bios/stage-4/src/main.rs:230-244).

The hypotheses are those under which an ELF file has a meaning (`ElfImage.WellShaped`): `p_filesz <= p_memsz`,
the latter at most half of the address space, offset and address congruent modulo 4096. `Boot.Run` demands
also that an empty load segment starts with a page, and of a position independent kernel that its lowest
address is page aligned and its biggest alignment a page or more. Everything else a file may get wrong is
modelled as a failure: segments must be on pages of their own, at canonical addresses that do not end at the
upper half, and their zeroed part must not begin in the last page (`ElfImage.Mappable`).
`Placement.PieWellPlacedIff` says exactly when the addresses of a position independent kernel are as needed, and
below 512 GiB they always are (`Placement.PieIsWellPlaced`).

## Where code and promises differ

The model follows the code. Where a promise is not kept, a lemma says exactly when it is.

- The comment on `construct_memory_map` asks for one entry more than there are descriptors
  (common/src/legacy_memory_region.rs:104-109). For sorted descriptors that suffices exactly if at most one of
  the following happens: the frontier lies inside a usable descriptor, there are free bytes of its descriptor
  before the kernel file, there are such bytes behind it (`OneMoreSufficesIff`). `ThreeMoreNeeded` is a map that
  needs three more; three always suffice (`MapCount`), and `create_boot_info` reserves four.
- The map keeps the kernel file from use byte by byte. Its last frame is mapped into the kernel as a whole, but
  the bytes behind the end of the file are reported as usable unless it ends with a frame
  (`FileFramesReservedIff`).
- `construct_memory_map` panics exactly if the kernel file reaches out of the usable part of a descriptor it
  meets: across two descriptors, or below the allocator's frontier (`MapFailsIff`; `MapsThatFail` has one of
  each).
- Frames of a usable descriptor stick out of it unless both its ends are page aligned
  (`FramesInsideIffAligned`, `FrameSticksOut`).
- The kernel may be linked to the pages that context switch code and GDT are identity-mapped to. Then setting
  up the mappings panics (`MapSwitchCode`: apart from a lack of frames it fails exactly if the page of one of the
  two frames of the code, or that of the frame given to the GDT, is taken; `KernelInTheWay` is a kernel for each
  place of the code).
- A GDT on a frame at 512 GiB or above can be in the way of stack, boot info and everything else that is placed
  dynamically, or be mapped to the guard page (`GdtMeetsStack`). The pages of a new area can be mapped exactly if
  its page is not among them (`VacantIff`), which it never is below 512 GiB (`LowGdtNotMet`).
- `mark_segments` passes over segments without memory, but the loader maps a page for one that does not start
  with a page (`EmptySegmentPagesIff`); its entry may then be given away again (`EmptySegmentNotMarked`). All
  pages of the kernel are in marked entries exactly if the page of every such segment is in an entry that was in
  use or that another segment takes memory in (`PagesInUseIff`).
- A position independent kernel starts at a multiple of the biggest alignment, whatever the remainder of its
  lowest address is. Its segments keep their remainders exactly if that address is a multiple of their alignments
  (`AlignmentKeptIff`, `AlignmentLost`).
- With address randomization, a range whose size is a multiple of 512 GiB can leave the entries reserved for it
  (`ContainedIff`).
- `data_offset` adds the bytes of the root directory, not its sectors; the FAT specification's value results
  exactly if the root directory fills its last sector (`DataOffsetIff`, `DataOffsetTooSmall`).
- `load_file` takes the first bytes of its buffer, wherever in a sector the cluster starts. What it puts into
  memory is the cluster, on every disk, exactly if the cluster starts with a sector (`LoadedTrueIff`). The
  first cluster of the volume in `DataOffsetTooSmall` does not, in a partition that does.
- A disk read that starts within a sector moves one sector more than its length asks for (`SectorsMoved`), so
  `read_exact` may write 512 bytes behind its 1024-byte buffer. The position after a read counts the start of
  the partition, so the next read is right only after a seek (`ReadExactInto`).
- The 16 KiB buffer is always filled. On a disk that ends with the volume, a file in the last clusters cannot
  be loaded unless clusters are whole buffers and start with a sector (`LastClusterReadableIff`, and the
  condition of `TryLoadFile`).
- Nothing stops stage 4 from reaching into the kernel, which is loaded later. It is safe from all kernels,
  ramdisks and configurations exactly if it ends below the kernel (`StageFourIntactIff`); `LongStageFour` is
  one of a byte too many.
- A range that ends at 2^47 cannot be marked as used: the address before its end is not canonical
  (`MarkRangeAsUsed`).

## Model

| member | source | states |
|---|---|---|
| `KernelImage.ImageStoredByte` | common/src/load_kernel.rs:108-152 | every byte of every load segment that no relocation covers reads, through the finished page table, as the file byte below `p_filesz` and as zero from there to `p_memsz` |
| `KernelImage.ImageRelocatedByte` | common/src/load_kernel.rs:590-603 | every byte of a load segment that relocations cover is the byte of the last such relocation's value |
| `KernelImage.RelocatedWord` | common/src/load_kernel.rs:606-659 | where a table entry points to, the loaded image holds load offset plus addend, both as the mapped image shows them in the entry's 24 bytes before any relocation |
| `KernelImage.RelocatedFileWord` | common/src/load_kernel.rs:606-659 | the same with offset and addend as the file stores them, for an entry that lies in a load segment |
| `KernelImage.SoundEntryIff` | common/src/load_kernel.rs:606-659 | an entry can be applied iff its bytes are mapped, say type 8 and no symbol, its offset lies in a load segment with no unknown header up to it, the eight bytes there are mapped, and load offset plus addend fits 64 bits |
| `KernelImage.MappedBytes` | common/src/load_kernel.rs:164-203 | any run of bytes of a load segment, across pages too, reads after the first pass as the file stores it |
| `KernelImage.ImagePermissions` | common/src/load_kernel.rs:666-697 | after all passes a page is executable iff its segment is, writable iff its segment is and it meets no RELRO range, and never marked as copied |
| `KernelImage.LoadImageSucceeds` | common/src/load_kernel.rs:108-152 | every well-formed file has an image, and exactly the pages of its load segments are mapped in it |
| `KernelImage.LoadImageKeys` | common/src/load_kernel.rs:108-152 | whatever the file, if it has an image, the pages of its load segments and no others are mapped in it |
| `KernelImage.ImagePage` | common/src/load_kernel.rs:133-149 | the last two passes change no byte, and flags only as RELRO and the copied mark demand |
| `KernelImage.RelocateAtOnce` | common/src/load_kernel.rs:595-600 | the loop that re-reads entries from memory it is changing does the same as applying all entries of the original table at once, if no entry is overwritten before its turn |
| `KernelImage.EntryUntouched` | common/src/load_kernel.rs:606-622 | when its turn comes, an entry still reads as in the original image |
| `KernelImage.RelocateAllAtOnce` | common/src/load_kernel.rs:117-131 | the pass over all headers applies the patches of the one dynamic segment, or nothing |
| `KernelImage.UncoveredByte` | common/src/load_kernel.rs:366-423 | no sequence of relocations changes a byte outside its eight-byte targets |
| `KernelImage.CoveredByte` | common/src/load_kernel.rs:366-423 | a byte has the value of the last relocation that covers it |
| `KernelImage.ClearAllPage` | common/src/load_kernel.rs:485-521 | a flag pass clears its flag on exactly the pages of its headers and changes nothing else |
| `KernelImage.OnKindIff` | common/src/load_kernel.rs:485-521 | the pages of a flag pass are those from the first to the last byte of a header of its kind |
| `KernelImage.LoadPageRange` | common/src/load_kernel.rs:488-494 | the inclusive page range of the flag pass is that of the segment |
| `KernelImage.MapAllPage` | common/src/load_kernel.rs:111-131 | after the first pass a page is what its own segment asks for, whatever was mapped before and after |
| `ElfImage.SegPageByte` | common/src/load_kernel.rs:164-292 | the pages of one segment hold the file's bytes below `p_filesz` and zero from there on, although frames are shared with neighbouring segments |
| `ElfImage.EmptySegmentPagesIff` | common/src/load_kernel.rs:165-194 | a segment without memory takes no page iff it starts with one; otherwise it takes the page it lies in |
| `ElfImage.MapAllKeys` | common/src/load_kernel.rs:183-194 | the mapped pages are exactly those of the load segments |
| `ElfImage.CheckIsInLoad` | common/src/load_kernel.rs:701-713 | succeeds iff some load segment holds the address and no header up to it has an unknown type |
| `ElfImage.RelaIff` | common/src/load_kernel.rs:543-586 | a dynamic section asks for a table iff its address, size and entry size are each given by a single entry, and for none iff no such entry occurs |
| `ElfImage.TlsIff` | common/src/load_kernel.rs:523-529 | the TLS template is address in memory, memory size and file size of the only TLS segment, and there is none iff no header has that type |
| `ElfImage.MappableIff` | common/src/load_kernel.rs:108-131 | the first pass accepts a file iff no header type is unknown, there is at most one TLS segment, all address computations succeed and no page belongs to two load segments |
| `ElfImage.PlaceableIff` | common/src/load_kernel.rs:164-272 | no address computation for a load segment fails iff its start and end are acceptable 64-bit addresses, the end is neither 0 nor the start of the upper half, and a part to be zeroed begins before the last page |
| `LoadKernel.Loader.LoadSegments` | common/src/load_kernel.rs:108-152 | on success the address space is the image of the file, and at most five frames were taken for each page; for a mappable file with an image it fails only if there are fewer than five for each; no frame of the file has changed, and all frames mapped are the allocator's or hold stored bytes of load segments |
| `LoadKernel.Loader.MapSegments` | common/src/load_kernel.rs:108-131 | maps all load segments and finds the TLS template; for segments on pages of their own it fails only with fewer than five frames for each page |
| `LoadKernel.Loader.HandleLoadSegment` | common/src/load_kernel.rs:164-203 | adds exactly the pages the segment denotes to the address space; fails only with fewer than five frames for each page mapped so far or by the segment, if a page is taken, or if one of the address computations does |
| `LoadKernel.Loader.MapFilePages` | common/src/load_kernel.rs:165-194 | maps the frames of the file one to one to the pages of the stored part |
| `LoadKernel.Loader.HandleBssSection` | common/src/load_kernel.rs:205-292 | turns the pages mapped to the file into the pages of the segment, with its zeroed part; the two address computations that may panic are among the reasons to fail |
| `LoadKernel.Loader.ZeroLastPage` | common/src/load_kernel.rs:223-267 | zeroes the tail of the last stored page in a copy, so that the pages up to it are final |
| `LoadKernel.Loader.MapZeroPage` | common/src/load_kernel.rs:273-288 | adds one zeroed page, for four frames at most |
| `LoadKernel.Loader.ReadRelocation` | common/src/load_kernel.rs:606-622 | reads the entry as the kernel would see it, even across pages |
| `LoadKernel.Loader.ApplyRelocation` | common/src/load_kernel.rs:624-659 | writes the relocated value to the kernel's view and nothing else, or rejects the relocation; which ones it accepts is said by `SoundEntryIff` |
| `LoadKernel.Loader.FindRelaEntries` | common/src/load_kernel.rs:543-586 | finds the table if each tag occurs once, none if no tag occurs, and rejects double or missing tags |
| `LoadKernel.Loader.HandleDynamicSegment` | common/src/load_kernel.rs:531-603 | the whole segment is relocated as specified, or an error of the specification is reported |
| `LoadKernel.Loader.ClearFlags` | common/src/load_kernel.rs:495-516 | clears a flag on a page range, iff all its pages are mapped |
| `LoadKernel.Loader.ClearHeaderFlags` | common/src/load_kernel.rs:666-697 | does so for the pages of one header |
| `LoadKernel.Loader.ClearKind` | common/src/load_kernel.rs:485-521 | and for all headers of one kind |
| `Paging.PagedMemory.MakeMut` | common/src/load_kernel.rs:441-482 | leaves the kernel's view as it is but for the copied mark, gives the page a frame no other page has, takes one frame for that and none when called again; fails only if the page is not mapped or no frame is left |
| `Paging.PagedMemory.CopyFrom` | common/src/load_kernel.rs:299-356 | succeeds iff the buffer is not empty and all pages are mapped, and then yields the consecutive virtual bytes |
| `Paging.PagedMemory.CopyFromPage` | common/src/load_kernel.rs:311-355 | one page of that copy: the bytes on it and no others |
| `Paging.PagedMemory.CopyTo` | common/src/load_kernel.rs:366-423 | changes exactly the virtual bytes of the buffer, even if pages shared frames before; fails only if it is empty, a page is not mapped, or there were fewer than five frames for each page |
| `Paging.PagedMemory.CopyToPage` | common/src/load_kernel.rs:376-422 | one page of that copy |
| `Paging.PagedMemory.FileUntouched` | common/src/load_kernel.rs:425-440 | in every reachable state, frames that do not come from the allocator hold what they held at the start |
| `Paging.PagedMemory.MapTo` | common/src/load_kernel.rs:183-194 | adds a page that shows the frame's bytes, even if its tables take frames from the same allocator; fails only if fewer than three are left or the page is taken |
| `Paging.PagedMemory.AllocateFrame` | common/src/load_kernel.rs:463-465 | a frame never handed out before |
| `Paging.PagedMemory.UpdateFlags` | common/src/load_kernel.rs:511-516 | changes the flags of one page of the view |
| `Paging.PagedMemory.constructor` | bios/stage-4/src/main.rs:230-244 | nothing is mapped at first |
| `VirtualSpace.ReadAfterWrite` | common/src/load_kernel.rs:299-423 | copying out after copying in returns the buffer |
| `VirtualSpace.GetWrite` | common/src/load_kernel.rs:366-423 | a write changes the bytes of its range and no other |
| `VirtualSpace.SpanAfterDisjointWrite` | common/src/load_kernel.rs:366-423 | reading elsewhere does not see it |
| `VirtualSpace.CopyIntoPage` | common/src/load_kernel.rs:385-421 | the clipped copy of one page, computed with inclusive ends, is the page with the buffer laid over it |
| `VirtualSpace.VirtNewIff` | common/src/level_4_entries.rs:110-111 | a 64-bit address is accepted iff the bits above bit 47 are zero or all ones with it, and stands for its lower 48 bits |
| `FrameAllocator.LegacyFrameAllocator.AllocateFrame` | common/src/legacy_memory_region.rs:240-262 | over every run the handed out frames ascend from the start frame and are usable; for sorted descriptors each is the least one left, and `None` means that none is left |
| `FrameAllocator.LegacyFrameAllocator.AllocateFrames` | common/src/legacy_memory_region.rs:240-262 | any number of allocations gives the first frames of the ascending list of all usable ones |
| `FrameAllocator.LegacyFrameAllocator.AllocateFrameFromDescriptor` | common/src/legacy_memory_region.rs:60-78 | the least frame of the descriptor not below the next one, if there is one |
| `FrameAllocator.LegacyFrameAllocator.TryDescriptor` | common/src/legacy_memory_region.rs:240-248 | takes a frame of the current descriptor or gives the descriptor up |
| `FrameAllocator.LegacyFrameAllocator.constructor` | common/src/legacy_memory_region.rs:51-58 | starts at the given frame with nothing handed out |
| `FrameAllocator.LegacyFrameAllocator.MaxPhysAddr` | common/src/legacy_memory_region.rs:96-102 | the highest end of a descriptor |
| `FrameAllocator.LegacyFrameAllocator.ConstructMemoryMap` | common/src/legacy_memory_region.rs:110-213 | fills the array so that every byte of a descriptor is reported as what it shall be by frontier, file and firmware; for sorted descriptors it fails iff the kernel file is cut or the array has fewer slots than descriptors and splits together; after any history of allocations no frame handed out is in a usable region |
| `FrameAllocator.LegacyFrameAllocator.FramesReserved` | common/src/legacy_memory_region.rs:119-158 | for page aligned descriptors that share no byte, in any order and some of them empty, no byte of a frame handed out lies in a usable region |
| `FrameAllocator.FramesInsideIffAligned` | common/src/legacy_memory_region.rs:60-64 | all frames of a usable descriptor lie inside it iff both its ends are page aligned |
| `FrameAllocator.FrameSticksOut` | common/src/legacy_memory_region.rs:60-64 | a descriptor whose only frame sticks out at both ends |
| `FrameAllocator.LeastFrame` | common/src/legacy_memory_region.rs:60-78 | skipping exhausted descriptors skips no usable frame |
| `FrameAllocator.UsableFrameIff` | common/src/legacy_memory_region.rs:60-64 | the allocator's frames are those that hold a byte of a usable descriptor, if none is empty |
| `FrameAllocator.AddDescriptor` | common/src/legacy_memory_region.rs:119-204 | appends the regions of one descriptor and leaves the earlier ones |
| `FrameAllocator.AddWithoutSlice` | common/src/legacy_memory_region.rs:160-204 | splits a region around the kernel file |
| `FrameAllocator.AddRegion` | common/src/legacy_memory_region.rs:215-232 | appends a region unless it is empty; fails iff there is no room |
| `MemoryMap.RegionsOfTile` | common/src/legacy_memory_region.rs:119-204 | the regions made from a descriptor cover it without gap or overlap, and none is empty |
| `MemoryMap.RegionsOfKinds` | common/src/legacy_memory_region.rs:119-204 | every byte gets the kind that frontier, kernel file and descriptor ask for, said byte by byte without regions |
| `MemoryMap.MapKinds` | common/src/legacy_memory_region.rs:110-213 | every byte of the map comes from a descriptor and has its kind |
| `MemoryMap.MapCovers` | common/src/legacy_memory_region.rs:110-213 | every byte of a descriptor is in the map |
| `MemoryMap.MapReports` | common/src/legacy_memory_region.rs:119-204 | every byte of a descriptor is in a region of the kind it shall have |
| `MemoryMap.MapInOrder` | common/src/legacy_memory_region.rs:110-213 | the regions are sorted, disjoint and not empty |
| `MemoryMap.MapCount` | common/src/lib.rs:463 | for sorted descriptors the number of regions is that of the descriptors and of the splits at frontier and kernel file, of which there are at most three |
| `MemoryMap.OneMoreSufficesIff` | common/src/legacy_memory_region.rs:104-109 | for sorted descriptors one entry more suffices iff no two of three things happen: the frontier inside a usable descriptor, free bytes before the kernel file, free bytes behind it |
| `MemoryMap.ThreeMoreNeeded` | common/src/legacy_memory_region.rs:104-109 | a map that needs three more |
| `MemoryMap.UsableBytes` | common/src/legacy_memory_region.rs:119-204 | a usable byte is not in the kernel file, and its descriptor is usable above the frontier or after the bootloader exits |
| `MemoryMap.FileFramesReservedIff` | common/src/legacy_memory_region.rs:160-204 | no byte of the frames of the kernel file is reported as usable iff the file ends with a frame |
| `MemoryMap.MapFailsIff` | common/src/legacy_memory_region.rs:160-180 | for all descriptors and files, building the map panics iff the file reaches out of the usable part of a descriptor it meets |
| `MemoryMap.MapFails` | common/src/legacy_memory_region.rs:160-180 | with the file inside one descriptor that means that the descriptor is usable and the frontier strictly inside the file |
| `MemoryMap.MapsThatFail` | common/src/legacy_memory_region.rs:166-180 | a frontier inside the file and a file across two descriptors, on both of which it panics |
| `Level4Entries.UsedLevel4Entries.MarkConfig` | common/src/level_4_entries.rs:31-101 | succeeds iff all fixed addresses and bounds are acceptable, and then marks exactly the entries that something fixed meets and those not wholly inside the dynamic range, so that the entries in use are a function of the configuration |
| `Level4Entries.FixedEntriesIff` | common/src/level_4_entries.rs:44-76 | an entry is in use for fixed addresses iff it holds an address of physical memory, stack, boot info or framebuffer, each with its own size, or that of the recursive page table |
| `Level4Entries.UsedLevel4Entries.MarkOutside` | common/src/level_4_entries.rs:78-98 | the two loops leave exactly the entries wholly between the pages of the bounds |
| `Level4Entries.UsedLevel4Entries.constructor` | common/src/level_4_entries.rs:37-42 | only entry 0 is used |
| `Level4Entries.UsedLevel4Entries.MarkRangeAsUsed` | common/src/level_4_entries.rs:106-119 | marks exactly the entries from the first to the last address, iff both can be computed |
| `Level4Entries.RangeFitsIff` | common/src/level_4_entries.rs:110-111 | both addresses of a range can be computed iff its end is an acceptable 64-bit address that is neither 0 nor the start of the upper half |
| `Level4Entries.UsedLevel4Entries.GetFreeEntries` | common/src/level_4_entries.rs:144-171 | contiguous entries that were free, the first such ones without randomization; fails only if there are none |
| `Level4Entries.UsedLevel4Entries.GetFreeAddress` | common/src/level_4_entries.rs:177-199 | an aligned range in entries that were free and are now the only newly marked ones, the first such ones without randomization; it stays inside them if its size is no multiple of 512 GiB, or without randomization; it succeeds iff the size is not zero, the alignment is a power of two, a window of entries was free and there is an offset to choose |
| `Level4Entries.UsedLevel4Entries.ChooseOffset` | common/src/level_4_entries.rs:184-196 | an aligned offset that leaves room for the rest of the range |
| `Level4Entries.ContainedIff` | common/src/level_4_entries.rs:184-196 | all random offsets keep the range in its entries iff its size is no multiple of 512 GiB or offset 0 is the only aligned one |
| `Level4Entries.EntriesAndSlotsIff` | common/src/level_4_entries.rs:177-196 | a range is given the fewest entries whose 512 GiB each can hold it; an offset is on offer iff one alignment more still fits before what the size takes of its last entry |
| `Level4Entries.PowerOfTwoIff` | common/src/level_4_entries.rs:178 | the accepted alignments are exactly the powers of two |
| `Level4Entries.ReservedInRange` | common/src/level_4_entries.rs:78-98 | what is reserved later lies between the pages of the dynamic range's bounds |
| `Placement.FindExtent` | common/src/load_kernel.rs:65-79 | the lowest and highest address and the biggest alignment of the load segments |
| `Placement.MarkSegments` | common/src/level_4_entries.rs:126-137 | marks exactly the entries in which a segment takes memory, so that every page of every segment with memory lies in a marked one; fails iff an address is not acceptable |
| `Placement.PagesInUseIff` | common/src/level_4_entries.rs:126-137 | the marked entries hold all pages the loader maps iff the page of every segment without memory that does not start with one is in an entry in use before or taken by a segment |
| `Placement.EmptySegmentNotMarked` | common/src/level_4_entries.rs:126-137 | an empty segment that is acceptable to everything, takes a page of entry 1, and leaves this entry free |
| `Placement.PlaceKernel` | common/src/load_kernel.rs:42-106 | executables stay where they are; position independent kernels go, aligned, to entries that were free, the first ones without randomization; the entries in use afterwards are those before, the ones given and those the segments take memory in; it fails for executables iff an address is not acceptable, for others only if there is nothing to load, no place, or at a place it may get an address that is not acceptable |
| `Placement.AlignmentKeptIff` | common/src/load_kernel.rs:65-82 | a position independent kernel starts at a multiple of the alignment of each of its load segments; a segment keeps its distance from a multiple of its alignment iff the lowest address in the file is such a multiple |
| `Placement.AlignmentLost` | common/src/load_kernel.rs:65-82 | a file whose only segment is half its alignment behind a multiple of it is placed at a multiple, wherever that is |
| `Placement.PieIsWellPlaced` | common/src/load_kernel.rs:63-83 | every segment of a position independent kernel below 512 GiB is at a place where it can be mapped, unless it is empty and the lowest one |
| `Placement.PieWellPlacedIff` | common/src/load_kernel.rs:63-83 | for one of any size that stays in its entries, a segment can be mapped iff it ends neither at the upper half nor at the end of the address space, its zeroed part does not begin in the last page, and it is no bigger than half of the address space |
| `Placement.PieAboveFirst` | common/src/load_kernel.rs:63-83 | no page of a position independent kernel is below 512 GiB |
| `Placement.PieInFreeEntries` | common/src/load_kernel.rs:63-83 | all of them lie in the entries the kernel was given, unless its size is a multiple of 512 GiB and it does not start with an entry |
| `KernelTable.Table.MapRange` | common/src/lib.rs:277-290 | maps consecutive frames to consecutive pages; if no page is taken, only fewer than three frames for each page can fail it |
| `KernelTable.Table.MapFresh` | common/src/lib.rs:225-233 | gives every page a frame of its own from the allocator, for four frames at most; if no page is taken, only fewer than that can fail it |
| `KernelTable.Table.MapShared` | common/src/lib.rs:477-503 | gives every page a frame of its own in the kernel's table and the same one in the bootloader's; fails only if a page is taken in one of them or with fewer than seven frames for each page |
| `KernelTable.Table.MapHugeRange` | common/src/lib.rs:340-350 | consecutive frames to consecutive 2 MiB pages, with the same bound on frames |
| `KernelTable.TranslateKept` | common/src/lib.rs:171-410 | later mappings do not change a translation |
| `BootMappings.Mapper.SetUpMappings` | common/src/lib.rs:171-410 | whatever the random choices, no dynamic mapping meets another, all areas are in pairwise different entries apart from the kernel's, the recursive entry stays unmapped, the stack has frames of its own, and the results of the steps below hold at the end; it fails only with fewer frames than a number computed from the requests, if there is no window of free entries for the next thing asked for besides the kernel's and the areas chosen before, if a page of an identity mapping is taken by the kernel, or if the GDT got a frame whose page is in an area |
| `BootMappings.Mapper.MapEverything` | common/src/lib.rs:126-170 | set-up and boot info together: frames, areas, translations, guard page and recursive entry are as promised after the last step, and boot info is at the same address for the bootloader; only a GDT at 512 GiB or above can be mapped to the guard page; the entries in use are the kernel's and those of areas chosen in order for what is asked for |
| `BootMappings.Mapper.MapsIfEnough` | common/src/lib.rs:171-503 | with a free entry for each area, each of a single entry, and as many frames as the requests may take, none of the reasons to fail holds but a taken page of an identity mapping, a GDT in an area, or one of the bootloader's pages outside the first entry |
| `BootMappings.AlwaysAChoice` | common/src/level_4_entries.rs:144-171 | whatever single entries were chosen before, randomly or not, there is one left for the next area if there were as many free ones as areas |
| `BootMappings.Mapper.MapOptional` | common/src/lib.rs:264-389 | framebuffer, ramdisk, physical memory and recursive entry each get an area of their own and keep their translations |
| `BootMappings.Mapper.Reserve` | common/src/lib.rs:641-656 | a dynamic address lies in an area of entries nothing is mapped in, which is a possible choice; fails only if there was none in the entries in use by then |
| `BootMappings.Mapper.MapStack` | common/src/lib.rs:209-233 | every stack page is on a new frame of its own, and the page below the stack is unmapped |
| `BootMappings.Mapper.MapSwitchCode` | common/src/lib.rs:235-262 | the context switch code and a new frame for the GDT are mapped to themselves; unless there are no frames, it succeeds iff the pages of the two code frames and of the frame given to the GDT are three different ones nothing is mapped at |
| `BootMappings.KernelInTheWay` | common/src/lib.rs:235-262 | wherever the context switch code is, a kernel of one page linked there is acceptable until then and blocks the identity mapping |
| `BootMappings.GdtMeetsStack` | common/src/lib.rs:255-262 | without randomization the stack gets the second entry; if it has a single page, the frame of that number cannot be mapped to itself, and the one below is mapped to the guard page |
| `BootMappings.Mapper.VacantIff` | common/src/lib.rs:255-262 | in every reachable state, the pages of an area that was just reserved are all free to be mapped iff the identity-mapped GDT is not among them |
| `BootMappings.Mapper.LowGdtNotMet` | common/src/lib.rs:255-262 | a GDT below 512 GiB meets no area |
| `BootMappings.Mapper.MapBytes` | common/src/lib.rs:295-326 | virtual byte i translates to physical byte i of the range |
| `BootMappings.Mapper.MapPhysicalMemory` | common/src/lib.rs:328-355 | offset plus p translates to p for all p below the highest physical address |
| `BootMappings.Mapper.MapRecursive` | common/src/lib.rs:357-389 | the entry is one nothing is mapped in; it fails only if no entry is free or the GDT got a frame whose page is in it |
| `BootMappings.Mapper.MapBootInfo` | common/src/lib.rs:461-503 | boot info and memory map get frames of their own at an aligned place in an area of their own, the same frames at the same address in the bootloader's table, no other page is added, and areas nothing was mapped in stay so |
| `BootMappings.AddArea` | common/src/level_4_entries.rs:144-171 | an area taken from free entries is apart from all areas before it and from the kernel |
| `BootMappings.KernelPagesMarked` | common/src/level_4_entries.rs:126-137 | all pages the loader maps lie in entries marked before, so the other mappings cannot meet them, if empty segments start with a page |
| `Boot.Run` | common/src/lib.rs:126-160 | the whole last stage: at its end the page table shows the image, a position independent kernel lies inside the configured range, physical memory, recursive entry, framebuffer and ramdisk are there iff configuration or firmware ask for them and lead where these say, the stack has the configured size, all areas are pairwise apart, apart from the kernel and inside the range, guard page and recursive entry are unmapped, boot info is at the same address for the bootloader, the regions written are those specified, no frame gone from the allocator is in a usable region, and no byte of a frame behind a kernel page is, but for those behind the end of the file; otherwise it names the step it stopped at and the choices made until then, which are possible ones for this input, and one of the reasons of this step holds for them; it always comes to its end if frames and entries are ample |
| `Boot.DynamicEntries` | common/src/level_4_entries.rs:31-101 | without fixed addresses only a bound that is not canonical is refused, and in use are the first entry and those outside the pages of the bounds |
| `Boot.OnePageKernelIsAmple` | common/src/lib.rs:126-160 | with low frames, as many as are needed, and no descriptor that can cut its file, a kernel of one page always boots under every configuration without fixed addresses, bounds and randomization, with sizes below 512 GiB |
| `Boot.LoadKernelFile` | common/src/lib.rs:185-207 | marking, placing and loading: the space is the image of the file, all its pages lie in marked entries, those of a position independent kernel above the first entry and inside the configured range, and the entries in use are those of configuration and kernel; it fails only if the kernel cannot be placed or, at a place it may get, has meeting segments, no image, or fewer than five frames for each page |
| `Boot.MapRest` | common/src/lib.rs:208-503 | from a loaded kernel to boot info: all areas pairwise apart and apart from the kernel, the kernel's pages kept, own frames for stack, GDT and boot info; fails only for the reasons of the mapper, in a state that possible choices lead to |
| `Boot.Describe` | common/src/legacy_memory_region.rs:110-213 | after the allocator has handed out what is gone from its supply, no byte of these frames is usable in the map; fails iff the kernel file is cut |
| `Boot.PieNotBlocked` | common/src/lib.rs:235-262 | a position independent kernel is never in the way of an identity mapping below 512 GiB |
| `Boot.KernelIsReserved` | common/src/legacy_memory_region.rs:160-204 | no byte of a frame behind any page of the kernel, copied or shared with the file, is reported as usable, but for those of the last frame of the file behind its end |
| `Disk.SectorsMoved` | bios/stage-2/src/disk.rs:28-33 | a read moves its length in sectors, and one more iff it starts within one |
| `Disk.DiskAccess.PerformLoad` | bios/stage-2/src/dap.rs:38-53 | one BIOS call copies the sectors, iff the disk has them |
| `Disk.DiskAccess.ReadSectors` | bios/stage-2/src/disk.rs:35-55 | chunks of 32 sectors together copy the whole range, iff the disk has it, and nothing from 1 MiB on |
| `Disk.DiskAccess.ReadExactInto` | bios/stage-2/src/disk.rs:25-58 | the sectors that hold the next bytes are copied, for lengths in whole sectors; says where the position ends up |
| `Disk.DiskAccess.ReadExact` | bios/stage-2/src/disk.rs:11-23 | the bytes of the disk at the position, wherever in a sector that is, iff they fit the buffer and the disk has all sectors read; and exactly which bytes of memory change |
| `Fat.DataOffsetIff` | bios/stage-2/src/fat.rs:87-139 | data offset and cluster count agree on where the data starts iff the root directory fills whole sectors |
| `Fat.DataOffsetTooSmall` | bios/stage-2/src/fat.rs:134-139 | a root directory of 17 entries, with the data area 480 bytes early and so not at the start of a sector |
| `Fat.ClustersApart` | bios/stage-2/src/fat.rs:266-274 | different clusters do not overlap |
| `Fat.ClusterInside` | bios/stage-2/src/fat.rs:87-143 | every valid cluster lies in the data area of the volume |
| `Fat.ClusterExistsIff` | bios/stage-2/src/fat.rs:87-127 | a cluster number is valid iff the cluster ends within the volume, behind reserved sectors, tables and root directory |
| `Fat.ClusterPosition` | bios/stage-2/src/fat.rs:134-143 | where a cluster starts and how long it is, in terms of the parameter block |
| `Fat.EntryMeaning` | bios/stage-2/src/fat.rs:442-462 | an entry is a cluster iff it is 2 or more and no more than the number of clusters plus one, ends a file iff it is at least 0xFF8, 0xFFF8 or 0x0FFF_FFF8 by the thresholds of 4085 and 65525 clusters, and is refused otherwise |
| `Fat.NextOnDisk` | bios/stage-2/src/fat.rs:477-510 | the entry of a cluster as a formula of two or four bytes of the disk behind the reserved sectors, for each of the three widths |
| `Fat.ChainInTable` | bios/stage-2/src/fat.rs:257-296 | on a disk with a packed table, the clusters visited until a regular end are those that the entries of the table link, and no others |
| `Fat.LookupInvertsPack` | bios/stage-2/src/fat.rs:477-510 | offset and decoding return the n-th entry of every packed table |
| `Fat.Pack12Entry` | bios/stage-2/src/fat.rs:497-508 | also for 12-bit entries that share a byte |
| `Fat.FatEntryOfNthCluster` | bios/stage-2/src/fat.rs:477-510 | seek, read and decode return the entry in the table on the disk, also across sectors, iff the disk has the sectors read |
| `Fat.ChainUnique` | bios/stage-2/src/fat.rs:257-296 | a first cluster has one chain |
| `Fat.ChainExistsIff` | bios/stage-2/src/fat.rs:257-296 | following the table comes to an end iff the first steps, one more than there are clusters, repeat no cluster |
| `Fat.ChainVisitsOnce` | bios/stage-2/src/fat.rs:257-296 | a chain that ends visits no cluster twice and is no longer than the volume has clusters |
| `Fat.Traverser.NextCluster` | bios/stage-2/src/fat.rs:261-284 | one step along the chain, with the error and end cases and the disk ending too soon |
| `LoadFile.CopyToProtectedMode` | bios/stage-2/src/protected_mode.rs:89-99 | writes the bytes and nothing else |
| `LoadFile.CopyRange` | bios/stage-2/src/main.rs:207-222 | one buffer: the part asked for reaches its place, iff the disk has a whole buffer |
| `LoadFile.CopyCluster` | bios/stage-2/src/main.rs:200-228 | the buffer loop copies as many bytes as the cluster has, from the start of the sector it starts in, iff the disk has all sectors it reads |
| `LoadFile.TryLoadFile` | bios/stage-2/src/main.rs:187-231 | succeeds iff the chain ends regularly and the disk has all sectors read for its clusters; then memory from 1 MiB on has changed exactly by the bytes loaded for them at the destination, which are the clusters if these start with sectors |
| `LoadFile.LoadedTrueIff` | bios/stage-2/src/main.rs:207-222 | what is loaded for a cluster is its contents, on all disks, iff it starts with a sector |
| `LoadFile.LastClusterReadableIff` | bios/stage-2/src/main.rs:200-216 | a cluster at the end of the disk can be read iff clusters are whole buffers and start with a sector |
| `Stage2.Loader.Load` | bios/stage-2/src/main.rs:233-241 | memory is as after one more load, iff the file is there and readable |
| `Stage2.Loader.LoadStages` | bios/stage-2/src/main.rs:92-101 | both stages are loaded, iff they are there and readable and stage 3 ends below stage 4 |
| `Stage2.Loader.LoadOptionals` | bios/stage-2/src/main.rs:107-124 | ramdisk and configuration file, if present, are loaded one behind the other, iff they are readable |
| `Stage2.Loader.Start` | bios/stage-2/src/main.rs:92-124 | succeeds iff all files needed are there, all present are readable and the checks pass; then every file present stands in memory at the start reported for it with the length reported, a stage 4 if it ends below the kernel; a missing one has length 0; the ramdisk starts with the first page behind the kernel, the configuration behind the ramdisk, and the last used address is the end of it |
| `Stage2.Loader.FilesIntact` | bios/stage-2/src/main.rs:92-124 | after that what was loaded of all files is intact at their places, that of a stage 4 that ends below the kernel included, although every load writes whole clusters |
| `LoadFile.FileBytesAreStored` | bios/stage-2/src/main.rs:187-231 | what is loaded of a file is the first bytes of its clusters, if these start with sectors |
| `Stage2.Loader.StageFourAfterStart` | bios/stage-2/src/main.rs:92-124 | memory after all loads is that after the two stages with kernel, ramdisk and configuration on top; stage 4 stands there in between, and it is intact on top of all that may be loaded iff it ends below the kernel |
| `Stage2.StageFourIntactIff` | bios/stage-2/src/main.rs:97-124 | all kernels, ramdisks and configurations that may be loaded later leave stage 4 intact iff it ends below the kernel |
| `Stage2.LongStageFour` | bios/stage-2/src/main.rs:97-107 | a stage 4 of one byte too many and a kernel that damages it |
| `Stage2.FramesAboveFiles` | bios/stage-4/src/main.rs:57-61 | every frame stage 4 allocates lies above kernel, ramdisk and configuration file |
| `ConfigCodec.ConfigInverse` | api/src/config.rs:65-277 | parsing what was printed gives the configuration back, and printing what was parsed gives the bytes back, so no two inputs parse to the same configuration |
| `ConfigCodec.FormatIff` | api/src/config.rs:65-277 | bytes are what a configuration prints to, and parse to it, iff they are 124, start with the sixteen of the identifier, and have each field, with its flag and the digits of its number, at its place |
| `ConfigCodec.MappingsInverse` | api/src/config.rs:102-136 | the same for the 75 bytes of the mappings |
| `ConfigCodec.FrameBufferInverse` | api/src/config.rs:138-153 | the same for the framebuffer options |
| `ConfigCodec.VersionInverse` | api/src/config.rs:94-98 | the same for the version |
| `ConfigCodec.MappingInverse` | api/src/config.rs:494-513 | the same for one mapping: a dynamic one has zeroes where the address would be |

## Left out

- LoadFile.TryLoadFile: the directory search that finds the first cluster is not modelled.
- BootMappings.Mapper.Reserve: only the dynamic case of `mapping_addr`. What is marked for fixed addresses is smaller than what is mapped there (the guard page, the last regions of the memory map, the ramdisk), so these can collide.
- BootMappings.Mapper.MapRecursive: only the dynamic case, for the same reason.
- BootMappings.Mapper.SetUpMappings: only for page aligned framebuffers.
- Boot.Run: only for configurations without fixed addresses, and for memory descriptors that are sorted and page aligned.
- BootMappings.Mapper.MapBootInfo: what the bootloader has mapped is given page by page; the tables behind it are not modelled.
- Paging.PagedMemory.MapTo: page table frames are taken but their contents are not modelled; the page table is a map.
- 64-bit overflow counts as failure; release builds may wrap around.
- Inline assembly, CPU registers, the GDT's contents, BIOS and UEFI calls, VESA, TFTP, RSDP search, logging, serial output and entropy.
- Framebuffer and screen text writers.
- The disk image builders (`src/*.rs`, `build.rs`) and the example and test kernels.
- The ELF parser and its sanity checks, beyond what is demanded of headers; entry point and TLS contents.
- FAT directories, long and short names, and the FAT32 root directory, which the code does not implement.
- The memory map does not reserve the ramdisk: the code gives it the kernel file only.
- That all eight bytes of a relocation lie in a segment: the code checks the first byte.
- The fixed page tables of stage 3.
