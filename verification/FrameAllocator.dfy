/** The physical frame allocator over the firmware's memory map, and the construction of the kernel's
    memory map once the bootloader is done allocating. */
module FrameAllocator {
  import opened Outcomes
  import opened MemoryMap

  /** First and last frame that meet a descriptor. */
  function FirstFrame(d: Descriptor): int { d.start / 4096 }

  function LastFrame(d: Descriptor): int { (d.End() - 1) / 4096 }

  /** Whether frame `g` meets a usable descriptor. */
  predicate UsableFrame(ds: seq<Descriptor>, g: int) {
    exists i :: 0 <= i < |ds| && Gives(ds[i], g)
  }

  predicate Gives(d: Descriptor, g: int) {
    d.kind == Usable && FirstFrame(d) <= g <= LastFrame(d)
  }

  /** The allocator's frames are those with a byte of a usable descriptor, if none is empty. */
  lemma UsableFrameIff(ds: seq<Descriptor>, g: int)
    requires forall d | d in ds :: d.len > 0
    ensures UsableFrame(ds, g) <==>
            exists i, b :: && 0 <= i < |ds| && ds[i].kind == Usable && InDescriptor(ds[i], b)
                           && b / 4096 == g
  {
    if i :| 0 <= i < |ds| && Gives(ds[i], g) {
      assert ds[i] in ds;
      var b := if g * 4096 < ds[i].start then ds[i].start else g * 4096;
      assert InDescriptor(ds[i], b) && b / 4096 == g;
    }
    if i, b :| 0 <= i < |ds| && ds[i].kind == Usable && InDescriptor(ds[i], b) && b / 4096 == g {
      assert Gives(ds[i], g);
    }
  }

  /** Whether the frames are usable, lie from `start` to below `next`, and none comes twice. */
  ghost predicate Ascending(ds: seq<Descriptor>, start: nat, next: nat, frames: seq<int>) {
    && (forall i, j | 0 <= i < j < |frames| :: frames[i] < frames[j])
    && forall i | 0 <= i < |frames| :: start <= frames[i] < next && UsableFrame(ds, frames[i])
  }

  /** Whether the frames include all usable ones from `start` to below `next`. */
  ghost predicate Complete(ds: seq<Descriptor>, start: nat, next: nat, frames: seq<int>) {
    forall g | start <= g < next && UsableFrame(ds, g) :: g in frames
  }

  /** Whether no usable descriptor before index `n` has a frame from `next` on. */
  ghost predicate Exhausted(ds: seq<Descriptor>, n: int, next: nat) {
    forall i | 0 <= i < n && i < |ds| && ds[i].kind == Usable :: LastFrame(ds[i]) < next
  }

  lemma HandOut(ds: seq<Descriptor>, start: nat, next: nat, frames: seq<int>, f: int)
    requires Ascending(ds, start, next, frames) && start <= next <= f && UsableFrame(ds, f)
    ensures Ascending(ds, start, f + 1, frames + [f])
    ensures Complete(ds, start, next, frames) && (forall g | next <= g < f :: !UsableFrame(ds, g)) ==>
              Complete(ds, start, f + 1, frames + [f])
  {
    if Complete(ds, start, next, frames) && (forall g | next <= g < f :: !UsableFrame(ds, g)) {
      forall g | start <= g < f + 1 && UsableFrame(ds, g)
        ensures g in frames + [f]
      {
        assert g < next || g == f;
      }
    }
  }

  lemma AscendingLater(ds: seq<Descriptor>, start: nat, next: nat, later: nat, frames: seq<int>)
    requires Ascending(ds, start, next, frames) && next <= later
    ensures Ascending(ds, start, later, frames)
  {
  }

  /** Whether `frames` are all usable frames from `from` on, in order. */
  ghost predicate IsFuture(ds: seq<Descriptor>, from: nat, frames: seq<int>) {
    && (forall i, j | 0 <= i < j < |frames| :: frames[i] < frames[j])
    && (forall g | g in frames :: from <= g && UsableFrame(ds, g))
    && (forall g | from <= g && UsableFrame(ds, g) :: g in frames)
  }

  lemma FutureIsUsable(ds: seq<Descriptor>, from: nat, frames: seq<int>)
    requires IsFuture(ds, from, frames) && frames != []
    ensures from <= frames[0] && UsableFrame(ds, frames[0])
  {
    assert frames[0] in frames;
  }

  /** The least usable frame is the first of them. */
  lemma FutureNext(ds: seq<Descriptor>, from: nat, frames: seq<int>, f: int)
    requires IsFuture(ds, from, frames) && frames != []
    requires from <= f && UsableFrame(ds, f) && forall g | from <= g < f :: !UsableFrame(ds, g)
    ensures f == frames[0] && IsFuture(ds, f + 1, frames[1..])
  {
    hide UsableFrame;
    assert f in frames && frames[0] in frames;
    assert frames == [frames[0]] + frames[1..];
    forall g | g in frames[1..]
      ensures f + 1 <= g && UsableFrame(ds, g)
    {
      assert g in frames;
    }
  }

  class LegacyFrameAllocator {
    const original: seq<Descriptor>
    /** The descriptors from this index on have not been looked at. */
    var position: nat
    var current: Option<Descriptor>
    var nextFrame: nat

    ghost const startFrame: nat
    /** All frames handed out so far, in order. */
    ghost var handedOut: seq<int>

    /** The descriptors before this index have no frame left. */
    ghost function Finished(): int
      reads this
    {
      if current.Some? then position - 1 else position
    }

    ghost predicate Valid()
      reads this
    {
      && position <= |original|
      && (current.Some? ==> position > 0 && current.value == original[position - 1])
      && (current.Some? ==> current.value.kind == Usable)
      && startFrame <= nextFrame
      && Ascending(original, startFrame, nextFrame, handedOut)
      && (Tidy(original) ==> Complete(original, startFrame, nextFrame, handedOut))
      && (Tidy(original) ==> Exhausted(original, Finished(), nextFrame))
    }

    constructor (frame: nat, memoryMap: seq<Descriptor>)
      ensures Valid() && original == memoryMap && nextFrame == startFrame == frame && handedOut == []
    {
      original, position, current, nextFrame := memoryMap, 0, None, frame;
      startFrame, handedOut := frame, [];
    }

    /** Takes the next frame from one descriptor, if it has one at or above the frontier. */
    method AllocateFrameFromDescriptor(d: Descriptor) returns (r: Result<Option<int>>)
      modifies this`nextFrame
      ensures r.Err? <==> d.End() == 0
      ensures nextFrame >= old(nextFrame)
      ensures r.Ok? && r.value.Some? ==>
                var f := r.value.value;
                && f == (if old(nextFrame) < FirstFrame(d) then FirstFrame(d) else old(nextFrame))
                && f <= LastFrame(d) && nextFrame == f + 1
      ensures r.Ok? && r.value.None? ==> LastFrame(d) < nextFrame && (d.len > 0 ==> nextFrame == old(nextFrame))
    {
      if d.End() == 0 {
        return Err(Panic("address underflow"));
      }
      var startFrame, endFrame := d.start / 4096, (d.End() - 1) / 4096;
      if nextFrame < startFrame {
        nextFrame := startFrame;
      }
      if nextFrame <= endFrame {
        var ret := nextFrame;
        nextFrame := nextFrame + 1;
        r := Ok(Some(ret));
      } else {
        r := Ok(None);
      }
    }

    /** Takes a frame from the descriptor last looked at, if it has one left. */
    method TryDescriptor(d: Descriptor) returns (r: Result<Option<int>>)
      requires Valid() && current == Some(d)
      modifies this`nextFrame, this`handedOut, this`current
      ensures r.Ok? ==> Valid() && nextFrame >= old(nextFrame)
      ensures r.Ok? && r.value.Some? ==> Handed(r.value.value, old(nextFrame), old(handedOut))
      ensures r.Ok? && r.value.None? ==> current.None? && handedOut == old(handedOut)
      ensures r.Ok? && r.value.None? && Tidy(original) ==> nextFrame == old(nextFrame)
      ensures r.Err? ==> !Tidy(original)
    {
      hide Ascending, Complete;
      ghost var from, k := nextFrame, position - 1;
      ghost var tidy := Tidy(original);
      var frame :- AllocateFrameFromDescriptor(d);
      if frame.None? {
        AscendingLater(original, startFrame, from, nextFrame, handedOut);
        current := None;
      } else {
        assert Gives(original[k], frame.value);
        if tidy {
          LeastFrame(original, k, from, frame.value);
        }
        HandOut(original, startFrame, from, handedOut, frame.value);
        handedOut := handedOut + [frame.value];
      }
      r := Ok(frame);
    }

    /** What holds after frame `f` has been handed out at frontier `from`. */
    ghost predicate Handed(f: int, from: nat, before: seq<int>)
      reads this
    {
      && handedOut == before + [f]
      && from <= f && nextFrame == f + 1
      && UsableFrame(original, f)
      && (Tidy(original) ==> forall g | from <= g < f :: !UsableFrame(original, g))
    }

    /** Hands out a frame above all frames handed out before. For tidy descriptors it is the least
        usable frame from the frontier on, and there is none only if no usable frame is left. */
    method AllocateFrame() returns (r: Result<Option<int>>)
      requires Valid()
      modifies this`position, this`current, this`nextFrame, this`handedOut
      ensures r.Ok? ==> Valid() && nextFrame >= old(nextFrame)
      ensures r.Ok? && r.value.Some? ==> Handed(r.value.value, old(nextFrame), old(handedOut))
      ensures r.Ok? && r.value.None? ==>
                && handedOut == old(handedOut)
                && (Tidy(original) ==> forall g | old(nextFrame) <= g :: !UsableFrame(original, g))
      ensures r.Err? ==> !Tidy(original)
    {
      if current.Some? {
        var frame :- TryDescriptor(current.value);
        if frame.Some? {
          return Ok(frame);
        }
      }
      while position < |original|
        invariant Valid()
        invariant current.None? && handedOut == old(handedOut)
        invariant nextFrame >= old(nextFrame)
        invariant Tidy(original) ==> nextFrame == old(nextFrame)
      {
        var descriptor := original[position];
        position := position + 1;
        if descriptor.kind != Usable {
          continue;
        }
        current := Some(descriptor);
        var frame :- TryDescriptor(descriptor);
        if frame.Some? {
          return Ok(frame);
        }
      }
      r := Ok(None);
    }

    /** Hands out frames again and again: they are the first of the usable frames from the frontier on. */
    method AllocateFrames(n: nat, ghost frames: seq<int>)
      requires Valid() && Tidy(original) && IsFuture(original, nextFrame, frames) && n <= |frames|
      modifies this`position, this`current, this`nextFrame, this`handedOut
      ensures Valid() && handedOut == old(handedOut) + frames[..n]
    {
      hide Valid, Tidy, IsFuture;
      ghost var before := handedOut;
      assert frames[0..] == frames && before + frames[..0] == before;
      for i := 0 to n
        invariant Valid() && handedOut == before + frames[..i]
        invariant IsFuture(original, nextFrame, frames[i..])
      {
        ghost var from := nextFrame;
        FutureIsUsable(original, from, frames[i..]);
        var frame := AllocateFrame();
        FutureNext(original, from, frames[i..], frame.value.value);
        assert frames[i..][1..] == frames[i + 1..] && frames[..i + 1] == frames[..i] + [frames[i]];
      }
    }

    /** The end of the highest descriptor. */
    method MaxPhysAddr() returns (r: Result<nat>)
      ensures r.Err? <==> original == []
      ensures r.Ok? ==> (exists d :: d in original && r.value == d.End()) &&
                        forall d | d in original :: d.End() <= r.value
    {
      if original == [] {
        return Err(Panic("no memory regions"));
      }
      var max := original[0].End();
      for i := 1 to |original|
        invariant exists d :: d in original && max == d.End()
        invariant forall k | 0 <= k < i :: original[k].End() <= max
      {
        if original[i].End() > max {
          max := original[i].End();
        }
      }
      r := Ok(max);
    }

    /** No region of the map that meets a frame handed out is reported as usable. */
    lemma FramesReserved(g: int, f: Frontier, r: Region)
      requires Valid() && Separate(original) && PageAligned(original) && g in handedOut
      requires f.nextFree == nextFrame * 4096 && RegionsOfAll(original, f, |original|).Ok?
      requires r in RegionsOfAll(original, f, |original|).value
      ensures Avoids(r, g)
    {
      hide RegionsOfAll;
      var i :| 0 <= i < |original| && Gives(original[i], g);
      forall b | g * 4096 <= b < g * 4096 + 4096 && InRegion(r, b)
        ensures r.kind != Usable
      {
        MapKinds(original, f, |original|, r, b);
        var j :| 0 <= j < |original| && InDescriptor(original[j], b) && r.kind == ByteKind(original[j], f, b);
        FrameInside(original[i], g, b);
        assert i == j;
      }
    }

    lemma ReportsAll(f: Frontier)
      requires RegionsOfAll(original, f, |original|).Ok?
      ensures forall i, b | 0 <= i < |original| && InDescriptor(original[i], b) ::
                ReportedAs(RegionsOfAll(original, f, |original|).value, b,
                  if original[i].kind == Usable && b < f.nextFree then Bootloader
                  else if original[i].kind != Usable && !original[i].usableAfterExit then original[i].kind
                  else if f.sliceStart <= b < f.sliceStart + f.sliceLen then Bootloader else Usable)
    {
      hide RegionsOfAll, ReportedAs;
      forall i, b | 0 <= i < |original| && InDescriptor(original[i], b)
        ensures ReportedAs(RegionsOfAll(original, f, |original|).value, b,
                  if original[i].kind == Usable && b < f.nextFree then Bootloader
                  else if original[i].kind != Usable && !original[i].usableAfterExit then original[i].kind
                  else if f.sliceStart <= b < f.sliceStart + f.sliceLen then Bootloader else Usable)
      {
        MapReports(original, f, |original|, i, b);
      }
    }

    ghost function Edge(sliceStart: nat, sliceLen: nat): Frontier
      reads this
    {
      Frontier(nextFrame * 4096, sliceStart, sliceLen)
    }

    /** Writes the kernel's memory map to the front of `regions`. */
    method ConstructMemoryMap(regions: array<Region>, sliceStart: nat, sliceLen: nat) returns (r: Result<nat>)
      modifies regions
      ensures r.Ok? ==> r.value <= regions.Length &&
                        RegionsOfAll(original, Edge(sliceStart, sliceLen), |original|) == Ok(regions[..r.value])
      ensures r.Err? ==> var all := RegionsOfAll(original, Edge(sliceStart, sliceLen), |original|);
                         all.Err? || |all.value| > regions.Length
      ensures Tidy(original) ==>
                (r.Err? <==> || RegionsOfAll(original, Edge(sliceStart, sliceLen), |original|).Err?
                             || regions.Length < |original|
                                                 + ExtraBelow(original, Edge(sliceStart, sliceLen), |original|))
      ensures r.Ok? ==> forall i, b | 0 <= i < |original| && InDescriptor(original[i], b) ::
                ReportedAs(regions[..r.value], b,
                  if original[i].kind == Usable && b < nextFrame * 4096 then Bootloader
                  else if original[i].kind != Usable && !original[i].usableAfterExit then original[i].kind
                  else if sliceStart <= b < sliceStart + sliceLen then Bootloader else Usable)
      ensures r.Ok? && Valid() && Separate(original) && PageAligned(original) ==>
                forall k, g | 0 <= k < r.value && g in handedOut :: Avoids(regions[k], g)
    {
      hide RegionsOf, Valid, Tidy, Separate, PageAligned;
      var edge := Frontier(nextFrame * 4096, sliceStart, sliceLen);
      var nextIndex: nat := 0;
      for i := 0 to |original|
        invariant nextIndex <= regions.Length
        invariant RegionsOfAll(original, edge, i) == Ok(regions[..nextIndex])
      {
        var added := AddDescriptor(original[i], edge, regions, nextIndex);
        if added.Err? {
          MapFailsLater(original, edge, i + 1, regions.Length);
          if Tidy(original) && RegionsOfAll(original, edge, |original|).Ok? {
            MapCount(original, edge, |original|);
          }
          return Err(added.error);
        }
        nextIndex := added.value;
      }
      r := Ok(nextIndex);
      if Tidy(original) {
        MapCount(original, edge, |original|);
      }
      ReportsAll(edge);
      if Valid() && Separate(original) && PageAligned(original) {
        forall k, g | 0 <= k < nextIndex && g in handedOut
          ensures Avoids(regions[k], g)
        {
          assert regions[k] in regions[..nextIndex];
          FramesReserved(g, edge, regions[k]);
        }
      }
    }
  }

  /** Whether no byte of frame `g` is reported as usable by region `r`. */
  ghost predicate Avoids(r: Region, g: int) {
    forall b | g * 4096 <= b < g * 4096 + 4096 && InRegion(r, b) :: r.kind != Usable
  }

  lemma FrameInside(d: Descriptor, g: int, b: int)
    requires Gives(d, g) && d.start % 4096 == 0 && d.End() % 4096 == 0
    requires g * 4096 <= b < g * 4096 + 4096
    ensures InDescriptor(d, b)
  {
  }

  /** The frames of a descriptor all lie within it exactly when it starts and ends with a page. A frame
      at an end that is not page aligned sticks out into memory that is not known to be usable. */
  lemma FramesInsideIffAligned(d: Descriptor)
    requires d.len > 0 && d.kind == Usable
    ensures (forall g | Gives(d, g) :: d.start <= g * 4096 && g * 4096 + 4096 <= d.End()) <==>
            d.start % 4096 == 0 && d.End() % 4096 == 0
  {
    assert Gives(d, FirstFrame(d)) && Gives(d, LastFrame(d));
  }

  /** A descriptor whose only frame sticks out at both ends. */
  lemma FrameSticksOut()
    ensures var d := Descriptor(0x1800, 0x400, Usable, true);
            Gives(d, 1) && 1 * 4096 < d.start && d.End() < 1 * 4096 + 4096
  {
  }

  /** A frame taken from descriptor `k` at or above the frontier is the least usable one there, if the
      descriptors before are finished. */
  lemma LeastFrame(ds: seq<Descriptor>, k: nat, from: nat, f: int)
    requires Tidy(ds) && k < |ds|
    requires f == (if from < FirstFrame(ds[k]) then FirstFrame(ds[k]) else from)
    requires Exhausted(ds, k, from)
    ensures forall g | from <= g < f :: !UsableFrame(ds, g)
  {
    forall g, i | from <= g < f && 0 <= i < |ds|
      ensures !Gives(ds[i], g)
    {
      if i > k {
        assert ds[k].End() <= ds[i].start;
      }
    }
  }

  /** Adds the regions of one descriptor. */
  method AddDescriptor(d: Descriptor, edge: Frontier, regions: array<Region>, index: nat) returns (r: Result<nat>)
    requires index <= regions.Length
    modifies regions
    ensures r.Ok? ==> RegionsOf(d, edge).Ok?
    ensures r.Ok? ==> index <= r.value <= regions.Length &&
                      regions[..r.value] == old(regions[..index]) + RegionsOf(d, edge).value
    ensures r.Err? ==> RegionsOf(d, edge).Err? || index + |RegionsOf(d, edge).value| > regions.Length
  {
    var start, end, next: nat := d.start, d.End(), index;
    var kind := d.kind;
    if d.kind == Usable {
      if end <= edge.nextFree {
        kind := Bootloader;
      } else if d.start < edge.nextFree {
        next :- AddRegion(Region(d.start, edge.nextFree, Bootloader), regions, next);
        start := edge.nextFree;
      }
    } else if d.usableAfterExit {
      kind := Usable;
    }
    var region := Region(start, end, kind);
    assert region == MainPart(d, edge);
    assert regions[..next] == old(regions[..index]) + UsedPart(d, edge);
    hide MainPart, UsedPart, WithoutSlice, NonEmpty;
    r := AddWithoutSlice(region, edge, regions, next);
  }

  /** Adds a region, split around the kernel file if need be. */
  method AddWithoutSlice(region: Region, edge: Frontier, regions: array<Region>, index: nat)
    returns (r: Result<nat>)
    requires index <= regions.Length
    modifies regions
    ensures r.Ok? ==> WithoutSlice(region, edge).Ok?
    ensures r.Ok? ==> r.value == index + |WithoutSlice(region, edge).value| <= regions.Length
    ensures r.Ok? ==> regions[..r.value] == old(regions[..index]) + WithoutSlice(region, edge).value
    ensures r.Err? ==> WithoutSlice(region, edge).Err? || index + |WithoutSlice(region, edge).value| > regions.Length
  {
    if region.kind == Usable && edge.sliceStart < region.end && edge.SliceEnd() > region.start {
      if !(edge.sliceStart >= region.start) {
        return Err(Panic("region overlaps with kernel, but kernel begins before region"));
      }
      if !(edge.SliceEnd() <= region.end) {
        return Err(Panic("region overlaps with kernel, but region ends before kernel"));
      }
      r := AddRegions([Region(region.start, edge.sliceStart, region.kind),
                       Region(edge.sliceStart, edge.SliceEnd(), Bootloader),
                       Region(edge.SliceEnd(), region.end, region.kind)], regions, index);
    } else {
      r := AddRegions([region], regions, index);
    }
  }

  /** Adds one region, unless it is empty. */
  method AddRegion(region: Region, regions: array<Region>, index: nat) returns (r: Result<nat>)
    requires index <= regions.Length
    modifies regions
    ensures r.Ok? ==> r.value == index + |NonEmpty([region])| <= regions.Length
    ensures r.Ok? ==> regions[..r.value] == old(regions[..index]) + NonEmpty([region])
    ensures r.Err? ==> index + |NonEmpty([region])| > regions.Length
  {
    if region.start == region.end {
      return Ok(index);
    }
    if index >= regions.Length {
      return Err(Panic("cannot add region: no more free entries in memory map"));
    }
    regions[index] := region;
    r := Ok(index + 1);
  }

  /** Consecutive calls of `add_region`. */
  method AddRegions(parts: seq<Region>, regions: array<Region>, index: nat) returns (r: Result<nat>)
    requires index <= regions.Length
    modifies regions
    ensures r.Ok? ==> r.value == index + |NonEmpty(parts)| <= regions.Length
    ensures r.Ok? ==> regions[..r.value] == old(regions[..index]) + NonEmpty(parts)
    ensures r.Err? ==> index + |NonEmpty(parts)| > regions.Length
  {
    var next := index;
    for i := 0 to |parts|
      invariant next == index + |NonEmpty(parts[..i])| <= regions.Length
      invariant regions[..next] == old(regions[..index]) + NonEmpty(parts[..i])
    {
      NonEmptyNext(parts, i);
      NonEmptyGrows(parts, i + 1);
      next :- AddRegion(parts[i], regions, next);
    }
    assert parts[..|parts|] == parts;
    r := Ok(next);
  }

  lemma {:induction false} NonEmptyNext(parts: seq<Region>, i: nat)
    requires i < |parts|
    ensures NonEmpty(parts[..i + 1]) == NonEmpty(parts[..i]) + NonEmpty([parts[i]])
  {
    if i > 0 {
      NonEmptyNext(parts[1..], i - 1);
      assert parts[..i + 1][1..] == parts[1..][..i];
      assert parts[..i][1..] == parts[1..][..i - 1];
    }
  }

  lemma {:induction false} NonEmptyGrows(parts: seq<Region>, i: nat)
    requires i <= |parts|
    ensures |NonEmpty(parts[..i])| <= |NonEmpty(parts)|
    decreases |parts| - i
  {
    if i == |parts| {
      assert parts[..i] == parts;
    } else {
      NonEmptyNext(parts, i);
      NonEmptyGrows(parts, i + 1);
    }
  }

  lemma {:induction false} MapFailsLater(ds: seq<Descriptor>, f: Frontier, n: nat, space: nat)
    requires n <= |ds|
    requires RegionsOfAll(ds, f, n).Err? || |RegionsOfAll(ds, f, n).value| > space
    ensures RegionsOfAll(ds, f, |ds|).Err? || |RegionsOfAll(ds, f, |ds|).value| > space
    decreases |ds| - n
  {
    hide RegionsOf;
    if n < |ds| {
      MapFailsLater(ds, f, n + 1, space);
    }
  }
}
