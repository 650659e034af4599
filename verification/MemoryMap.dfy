/** The memory map handed to the kernel: the firmware's descriptors, split around the frames the
    bootloader has used and around the kernel file. */
module MemoryMap {
  import opened Outcomes

  datatype Kind = Usable | Bootloader | UnknownUefi(code: nat) | UnknownBios(code: nat)

  /** A memory region reported by the firmware. */
  datatype Descriptor = Descriptor(start: nat, len: nat, kind: Kind, usableAfterExit: bool) {
    function End(): nat { start + len }
  }

  /** A region of the map the kernel gets. */
  datatype Region = Region(start: nat, end: nat, kind: Kind)

  /** What stays the same while the map is built: the first address the allocator has not passed,
      and the kernel file in memory. */
  datatype Frontier = Frontier(nextFree: nat, sliceStart: nat, sliceLen: nat) {
    function SliceEnd(): nat { sliceStart + sliceLen }
  }

  /** A list of regions without the empty ones. */
  function NonEmpty(rs: seq<Region>): (kept: seq<Region>)
    ensures |kept| <= |rs|
    ensures forall r | r in kept :: r in rs && r.start != r.end
  {
    if rs == [] then []
    else if rs[0].start == rs[0].end then NonEmpty(rs[1..])
    else [rs[0]] + NonEmpty(rs[1..])
  }

  /** The part of a descriptor below the frontier, if it is given out separately. */
  function UsedPart(d: Descriptor, f: Frontier): seq<Region> {
    if d.kind == Usable && d.start < f.nextFree < d.End()
    then [Region(d.start, f.nextFree, Bootloader)]
    else []
  }

  /** The rest of the descriptor. */
  function MainPart(d: Descriptor, f: Frontier): Region {
    if d.kind == Usable then
      if d.End() <= f.nextFree then Region(d.start, d.End(), Bootloader)
      else if d.start >= f.nextFree then Region(d.start, d.End(), Usable)
      else Region(f.nextFree, d.End(), Usable)
    else if d.usableAfterExit then Region(d.start, d.End(), Usable)
    else Region(d.start, d.End(), d.kind)
  }

  predicate MeetsSlice(r: Region, f: Frontier) {
    r.kind == Usable && f.sliceStart < r.end && f.SliceEnd() > r.start
  }

  predicate HoldsSlice(r: Region, f: Frontier) {
    r.start <= f.sliceStart && f.SliceEnd() <= r.end
  }

  /** The three parts of a region around the kernel file. */
  function Around(r: Region, f: Frontier): seq<Region> {
    NonEmpty([Region(r.start, f.sliceStart, r.kind),
              Region(f.sliceStart, f.SliceEnd(), Bootloader),
              Region(f.SliceEnd(), r.end, r.kind)])
  }

  /** A region, split around the kernel file if it is usable and meets it. */
  function WithoutSlice(r: Region, f: Frontier): Result<seq<Region>> {
    if !MeetsSlice(r, f) then Ok(NonEmpty([r]))
    else if HoldsSlice(r, f) then Ok(Around(r, f))
    else Err(Panic("region overlaps with kernel, but does not hold it"))
  }

  /** The regions of one descriptor. */
  function RegionsOf(d: Descriptor, f: Frontier): Result<seq<Region>> {
    var parts :- WithoutSlice(MainPart(d, f), f);
    Ok(UsedPart(d, f) + parts)
  }

  /** The regions of the first `n` descriptors. */
  function RegionsOfAll(ds: seq<Descriptor>, f: Frontier, n: nat): Result<seq<Region>>
    requires n <= |ds|
  {
    if n == 0 then Ok([])
    else
      var init :- RegionsOfAll(ds, f, n - 1);
      var last :- RegionsOf(ds[n - 1], f);
      Ok(init + last)
  }

  // ---------------------------------------------------------------------------------------------
  // One descriptor

  /** Whether the regions fill the bytes from `lo` to `hi`, in order, without gap or empty region. */
  predicate Tiles(rs: seq<Region>, lo: nat, hi: nat) {
    if rs == [] then lo == hi
    else rs[0].start == lo && lo < rs[0].end && Tiles(rs[1..], rs[0].end, hi)
  }

  predicate InDescriptor(d: Descriptor, b: int) { d.start <= b < d.End() }

  predicate InRegion(r: Region, b: int) { r.start <= b < r.end }

  /** What a single byte of a descriptor shall be reported as. */
  function ByteKind(d: Descriptor, f: Frontier, b: int): Kind {
    var free := if d.kind == Usable then f.nextFree <= b else d.usableAfterExit;
    if free then
      if f.sliceStart <= b < f.SliceEnd() then Bootloader else Usable
    else if d.kind == Usable then Bootloader
    else d.kind
  }

  /** The regions of a descriptor fill exactly its bytes. */
  lemma RegionsOfTile(d: Descriptor, f: Frontier)
    requires RegionsOf(d, f).Ok?
    ensures Tiles(RegionsOf(d, f).value, d.start, d.End())
  {
    var main := MainPart(d, f);
    var rest := if MeetsSlice(main, f) then Around(main, f) else NonEmpty([main]);
    assert Tiles(rest, main.start, main.end) by {
      if MeetsSlice(main, f) {
        AroundTiles(main, f);
      }
    }
    if UsedPart(d, f) == [] {
      assert UsedPart(d, f) + rest == rest;
    } else {
      assert (UsedPart(d, f) + rest)[1..] == rest;
    }
  }

  lemma AroundTiles(r: Region, f: Frontier)
    requires MeetsSlice(r, f) && HoldsSlice(r, f)
    ensures Tiles(Around(r, f), r.start, r.end)
  {
    var before := Region(r.start, f.sliceStart, r.kind);
    var kernel := Region(f.sliceStart, f.SliceEnd(), Bootloader);
    var after := Region(f.SliceEnd(), r.end, r.kind);
    assert [before, kernel, after][1..] == [kernel, after];
    assert [kernel, after][1..] == [after];
    assert Tiles(NonEmpty([after]), after.start, after.end);
    assert Tiles(NonEmpty([kernel, after]), kernel.start, after.end) by {
      if kernel.start < kernel.end {
        assert ([kernel] + NonEmpty([after]))[1..] == NonEmpty([after]);
      }
    }
    if before.start < before.end {
      assert ([before] + NonEmpty([kernel, after]))[1..] == NonEmpty([kernel, after]);
    }
  }

  /** Every region of a descriptor reports each of its bytes for what it is. */
  lemma RegionsOfKinds(d: Descriptor, f: Frontier, r: Region, b: int)
    requires RegionsOf(d, f).Ok? && r in RegionsOf(d, f).value && InRegion(r, b)
    ensures InDescriptor(d, b) && r.kind == ByteKind(d, f, b)
  {
  }

  /** A tiling covers each byte. */
  lemma {:induction false} TilesCover(rs: seq<Region>, lo: nat, hi: nat, b: int)
    requires Tiles(rs, lo, hi) && lo <= b < hi
    ensures exists r :: r in rs && InRegion(r, b)
  {
    if b < rs[0].end {
      assert rs[0] in rs && InRegion(rs[0], b);
    } else {
      TilesCover(rs[1..], rs[0].end, hi, b);
      var r :| r in rs[1..] && InRegion(r, b);
      assert r in rs;
    }
  }

  lemma {:induction false} TilesBounds(rs: seq<Region>, lo: nat, hi: nat, i: nat)
    requires Tiles(rs, lo, hi) && i < |rs|
    ensures lo <= rs[i].start < rs[i].end <= hi
    ensures forall j | i < j < |rs| :: rs[i].end <= rs[j].start
  {
    TilesOrder(rs[1..], rs[0].end, hi);
    if i > 0 {
      TilesBounds(rs[1..], rs[0].end, hi, i - 1);
      forall j | i < j < |rs|
        ensures rs[i].end <= rs[j].start
      {
        assert rs[1..][i - 1] == rs[i] && rs[1..][j - 1] == rs[j];
      }
    } else {
      forall j | 0 < j < |rs|
        ensures rs[0].end <= rs[j].start
      {
        TilesBounds(rs[1..], rs[0].end, hi, j - 1);
      }
    }
  }

  lemma {:induction false} TilesOrder(rs: seq<Region>, lo: nat, hi: nat)
    requires Tiles(rs, lo, hi)
    ensures lo <= hi
  {
    if rs != [] {
      TilesOrder(rs[1..], rs[0].end, hi);
    }
  }

  // ---------------------------------------------------------------------------------------------
  // The whole map

  /** Descriptors as the firmware should report them: in order, apart and not empty. */
  predicate Tidy(ds: seq<Descriptor>) {
    && (forall i | 0 <= i < |ds| :: ds[i].len > 0)
    && forall i, j | 0 <= i < j < |ds| :: ds[i].End() <= ds[j].start
  }

  /** Regions in order, apart and not empty. */
  predicate InOrder(rs: seq<Region>) {
    && (forall i | 0 <= i < |rs| :: rs[i].start < rs[i].end)
    && forall i, j | 0 <= i < j < |rs| :: rs[i].end <= rs[j].start
  }

  /** Each region of the map, at each of its bytes, reports what the descriptor there asks for. */
  lemma {:induction false} MapKinds(ds: seq<Descriptor>, f: Frontier, n: nat, r: Region, b: int)
    requires n <= |ds| && RegionsOfAll(ds, f, n).Ok?
    requires r in RegionsOfAll(ds, f, n).value && InRegion(r, b)
    ensures exists i :: 0 <= i < n && InDescriptor(ds[i], b) && r.kind == ByteKind(ds[i], f, b)
  {
    hide RegionsOf;
    if r in RegionsOfAll(ds, f, n - 1).value {
      MapKinds(ds, f, n - 1, r, b);
    } else {
      RegionsOfKinds(ds[n - 1], f, r, b);
    }
  }

  /** Each byte of a descriptor is in some region of the map. */
  lemma {:induction false} MapCovers(ds: seq<Descriptor>, f: Frontier, n: nat, i: nat, b: int)
    requires i < n <= |ds| && RegionsOfAll(ds, f, n).Ok? && InDescriptor(ds[i], b)
    ensures exists r :: r in RegionsOfAll(ds, f, n).value && InRegion(r, b)
  {
    hide RegionsOf;
    if i < n - 1 {
      MapCovers(ds, f, n - 1, i, b);
      var r :| r in RegionsOfAll(ds, f, n - 1).value && InRegion(r, b);
      assert r in RegionsOfAll(ds, f, n).value;
    } else {
      RegionsOfTile(ds[i], f);
      TilesCover(RegionsOf(ds[i], f).value, ds[i].start, ds[i].End(), b);
      var r :| r in RegionsOf(ds[i], f).value && InRegion(r, b);
      assert r in RegionsOfAll(ds, f, n).value;
    }
  }

  /** Whether some region holds a byte and reports it as `kind`. */
  ghost predicate ReportedAs(regions: seq<Region>, b: int, kind: Kind) {
    exists r :: r in regions && r.start <= b < r.end && r.kind == kind
  }

  /** Each byte of a descriptor is reported, and as what it shall be: memory below the frontier and the
      kernel file as the bootloader's, the rest of what is usable now or later as usable, everything else as
      the firmware says. */
  lemma {:induction false} MapReports(ds: seq<Descriptor>, f: Frontier, n: nat, i: nat, b: int)
    requires i < n <= |ds| && RegionsOfAll(ds, f, n).Ok? && InDescriptor(ds[i], b)
    ensures ReportedAs(RegionsOfAll(ds, f, n).value, b,
              if ds[i].kind == Usable && b < f.nextFree then Bootloader
              else if ds[i].kind != Usable && !ds[i].usableAfterExit then ds[i].kind
              else if f.sliceStart <= b < f.sliceStart + f.sliceLen then Bootloader else Usable)
  {
    hide RegionsOf;
    if i < n - 1 {
      MapReports(ds, f, n - 1, i, b);
    } else {
      RegionsOfTile(ds[i], f);
      TilesCover(RegionsOf(ds[i], f).value, ds[i].start, ds[i].End(), b);
      var r :| r in RegionsOf(ds[i], f).value && InRegion(r, b);
      RegionsOfKinds(ds[i], f, r, b);
      assert r in RegionsOfAll(ds, f, n).value;
    }
  }

  /** The map of tidy descriptors is in order, and stays below the descriptors still to come. */
  lemma {:induction false} MapInOrder(ds: seq<Descriptor>, f: Frontier, n: nat)
    requires n <= |ds| && Tidy(ds) && RegionsOfAll(ds, f, n).Ok?
    ensures InOrder(RegionsOfAll(ds, f, n).value)
    ensures forall r, j | r in RegionsOfAll(ds, f, n).value && n <= j < |ds| :: r.end <= ds[j].start
  {
    hide RegionsOf;
    if n > 0 {
      MapInOrder(ds, f, n - 1);
      var init, last := RegionsOfAll(ds, f, n - 1).value, RegionsOf(ds[n - 1], f).value;
      RegionsOfTile(ds[n - 1], f);
      forall i | 0 <= i < |last|
        ensures ds[n - 1].start <= last[i].start < last[i].end <= ds[n - 1].End()
        ensures forall j | i < j < |last| :: last[i].end <= last[j].start
      {
        TilesBounds(last, ds[n - 1].start, ds[n - 1].End(), i);
      }
      assert forall i | 0 <= i < |init| :: init[i] in init;
    }
  }

  // ---------------------------------------------------------------------------------------------
  // How many regions there are

  /** Whether some of a descriptor is reported as usable, and from where on. */
  predicate ReportsFree(d: Descriptor, f: Frontier) {
    if d.kind == Usable then f.nextFree < d.End() else d.usableAfterExit
  }

  function FreeStart(d: Descriptor, f: Frontier): nat {
    if d.kind == Usable && d.start < f.nextFree then f.nextFree else d.start
  }

  /** The three ways in which a descriptor gives one more region: the frontier lies inside, some of what
      is reported as usable lies before the kernel file, or behind it. */
  predicate FrontierInside(d: Descriptor, f: Frontier) {
    d.kind == Usable && d.start < f.nextFree < d.End()
  }

  predicate FreeBefore(d: Descriptor, f: Frontier) {
    ReportsFree(d, f) && FreeStart(d, f) < f.sliceStart < d.End()
  }

  predicate FreeBehind(d: Descriptor, f: Frontier) {
    ReportsFree(d, f) && f.sliceLen > 0 && FreeStart(d, f) < f.SliceEnd() < d.End()
  }

  function One(b: bool): nat { if b then 1 else 0 }

  lemma RegionsOfCount(d: Descriptor, f: Frontier)
    requires RegionsOf(d, f).Ok? && d.len > 0
    ensures |RegionsOf(d, f).value| == 1 + One(FrontierInside(d, f)) + One(FreeBefore(d, f)) + One(FreeBehind(d, f))
  {
    var r := MainPart(d, f);
    if MeetsSlice(r, f) {
      AroundCount(r, f);
    }
  }

  lemma AroundCount(r: Region, f: Frontier)
    requires MeetsSlice(r, f) && HoldsSlice(r, f)
    ensures |Around(r, f)| == One(r.start != f.sliceStart) + One(f.sliceLen > 0) + One(f.SliceEnd() != r.end)
  {
    var a, b, c := Region(r.start, f.sliceStart, r.kind), Region(f.sliceStart, f.SliceEnd(), Bootloader),
        Region(f.SliceEnd(), r.end, r.kind);
    assert [a, b, c][1..] == [b, c] && [b, c][1..] == [c];
    assert |NonEmpty([c])| == One(c.start != c.end);
    assert |NonEmpty([b, c])| == One(b.start != b.end) + One(c.start != c.end);
  }

  /** Whether one of the first `n` descriptors is of such a kind. */
  predicate FrontierBelow(ds: seq<Descriptor>, f: Frontier, n: nat)
    requires n <= |ds|
  {
    exists i :: 0 <= i < n && FrontierInside(ds[i], f)
  }

  predicate BeforeBelow(ds: seq<Descriptor>, f: Frontier, n: nat)
    requires n <= |ds|
  {
    exists i :: 0 <= i < n && FreeBefore(ds[i], f)
  }

  predicate BehindBelow(ds: seq<Descriptor>, f: Frontier, n: nat)
    requires n <= |ds|
  {
    exists i :: 0 <= i < n && FreeBehind(ds[i], f)
  }

  /** How many regions the first `n` descriptors give beyond their number. */
  function ExtraBelow(ds: seq<Descriptor>, f: Frontier, n: nat): nat
    requires n <= |ds|
  {
    One(FrontierBelow(ds, f, n)) + One(BeforeBelow(ds, f, n)) + One(BehindBelow(ds, f, n))
  }

  /** In tidy descriptors each of the three occurs once at most. */
  lemma ExtraOnce(ds: seq<Descriptor>, f: Frontier, n: nat)
    requires n < |ds| && Tidy(ds)
    ensures One(FrontierBelow(ds, f, n + 1)) == One(FrontierBelow(ds, f, n)) + One(FrontierInside(ds[n], f))
    ensures One(BeforeBelow(ds, f, n + 1)) == One(BeforeBelow(ds, f, n)) + One(FreeBefore(ds[n], f))
    ensures One(BehindBelow(ds, f, n + 1)) == One(BehindBelow(ds, f, n)) + One(FreeBehind(ds[n], f))
  {
    forall i | 0 <= i < n
      ensures ds[i].End() <= FreeStart(ds[n], f)
    {
    }
  }

  /** Exactly how many regions there are. */
  lemma {:induction false} MapCount(ds: seq<Descriptor>, f: Frontier, n: nat)
    requires n <= |ds| && Tidy(ds) && RegionsOfAll(ds, f, n).Ok?
    ensures |RegionsOfAll(ds, f, n).value| == n + ExtraBelow(ds, f, n) <= n + 3
  {
    hide RegionsOf, FrontierInside, FreeBefore, FreeBehind;
    if n > 0 {
      MapCount(ds, f, n - 1);
      RegionsOfCount(ds[n - 1], f);
      ExtraOnce(ds, f, n - 1);
      hide FrontierBelow, BeforeBelow, BehindBelow;
    }
  }

  /** One entry more than there are descriptors, as the doc comment of `construct_memory_map` asks for,
      suffices exactly if at most one of the three occurs. */
  lemma OneMoreSufficesIff(ds: seq<Descriptor>, f: Frontier)
    requires Tidy(ds) && RegionsOfAll(ds, f, |ds|).Ok?
    ensures |RegionsOfAll(ds, f, |ds|).value| <= |ds| + 1 <==>
            && !(FrontierBelow(ds, f, |ds|) && BeforeBelow(ds, f, |ds|))
            && !(FrontierBelow(ds, f, |ds|) && BehindBelow(ds, f, |ds|))
            && !(BeforeBelow(ds, f, |ds|) && BehindBelow(ds, f, |ds|))
  {
    MapCount(ds, f, |ds|);
    hide FrontierBelow, BeforeBelow, BehindBelow, RegionsOfAll;
  }

  /** Three more are needed for a usable descriptor with the frontier and the kernel file inside;
      the `len` plus one entries that the doc comment of `construct_memory_map` asks for are too few. */
  lemma ThreeMoreNeeded()
    ensures var ds, f := [Descriptor(0, 0x5000, Usable, true)], Frontier(0x1000, 0x2000, 0x1000);
            Tidy(ds) && RegionsOfAll(ds, f, 1).Ok? && |RegionsOfAll(ds, f, 1).value| == |ds| + 3
  {
    var d, f := Descriptor(0, 0x5000, Usable, true), Frontier(0x1000, 0x2000, 0x1000);
    var r1, r2, r3 := Region(0x1000, 0x2000, Usable), Region(0x2000, 0x3000, Bootloader),
        Region(0x3000, 0x5000, Usable);
    assert [r1, r2, r3][1..] == [r2, r3] && [r2, r3][1..] == [r3];
    assert NonEmpty([r3]) == [r3];
    assert NonEmpty([r2, r3]) == [r2, r3];
    assert NonEmpty([r1, r2, r3]) == [r1, r2, r3];
    assert RegionsOfAll([d], f, 0) == Ok([]);
  }

  // ---------------------------------------------------------------------------------------------
  // What the kernel may use

  /** Descriptors whose ends lie on page boundaries. */
  predicate PageAligned(ds: seq<Descriptor>) {
    forall d | d in ds :: d.start % 4096 == 0 && d.End() % 4096 == 0
  }

  /** Descriptors that share no byte, in any order; some may be empty. */
  ghost predicate Separate(ds: seq<Descriptor>) {
    forall i, j, b | 0 <= i < |ds| && 0 <= j < |ds| && InDescriptor(ds[i], b) && InDescriptor(ds[j], b) :: i == j
  }

  lemma TidyIsSeparate(ds: seq<Descriptor>)
    requires Tidy(ds)
    ensures Separate(ds)
  {
  }

  /** A usable region holds no byte of the kernel file, and only bytes of descriptors that are usable
      now, beyond the frontier, or once the bootloader has exited. */
  lemma UsableBytes(ds: seq<Descriptor>, f: Frontier, r: Region, b: int)
    requires RegionsOfAll(ds, f, |ds|).Ok?
    requires r in RegionsOfAll(ds, f, |ds|).value && InRegion(r, b) && r.kind == Usable
    ensures !(f.sliceStart <= b < f.SliceEnd())
    ensures exists d :: d in ds && InDescriptor(d, b) && if d.kind == Usable then f.nextFree <= b else d.usableAfterExit
  {
    MapKinds(ds, f, |ds|, r, b);
    var i :| 0 <= i < |ds| && InDescriptor(ds[i], b) && r.kind == ByteKind(ds[i], f, b);
    assert ds[i] in ds;
  }

  /** The end of the last frame with bytes of the kernel file. */
  function FileFramesEnd(f: Frontier): nat { (f.SliceEnd() + 4095) / 4096 * 4096 }

  /** The kernel file is kept from use byte by byte, not frame by frame: the rest of its last frame is
      reported as usable, unless it ends with a frame. */
  lemma FileFramesReservedIff(d: Descriptor, f: Frontier)
    requires MeetsSlice(MainPart(d, f), f) && HoldsSlice(MainPart(d, f), f)
    requires f.sliceLen > 0 && d.End() % 4096 == 0
    ensures RegionsOf(d, f).Ok?
    ensures (forall r, b | r in RegionsOf(d, f).value && InRegion(r, b) && f.sliceStart <= b < FileFramesEnd(f) ::
               r.kind != Usable)
            <==> f.SliceEnd() % 4096 == 0
  {
    var main := MainPart(d, f);
    var end := Region(f.SliceEnd(), main.end, Usable);
    AroundParts(main, f);
    if f.SliceEnd() % 4096 != 0 {
      assert end in RegionsOf(d, f).value && InRegion(end, f.SliceEnd());
    }
  }

  lemma AroundParts(r: Region, f: Frontier)
    requires f.sliceLen > 0
    ensures forall part | part in Around(r, f) :: part in [Region(r.start, f.sliceStart, r.kind),
              Region(f.sliceStart, f.SliceEnd(), Bootloader), Region(f.SliceEnd(), r.end, r.kind)]
    ensures f.SliceEnd() != r.end ==> Region(f.SliceEnd(), r.end, r.kind) in Around(r, f)
  {
    var parts := [Region(r.start, f.sliceStart, r.kind),
                  Region(f.sliceStart, f.SliceEnd(), Bootloader), Region(f.SliceEnd(), r.end, r.kind)];
    assert parts[1..] == [parts[1], parts[2]] && parts[1..][1..] == [parts[2]];
    if f.SliceEnd() != r.end {
      assert NonEmpty([parts[2]]) == [parts[2]] && NonEmpty(parts[1..]) == [parts[1], parts[2]];
    }
  }

  /** Whether a descriptor has bytes to be reported as usable that the kernel file meets but reaches out
      of: above the frontier if it is usable now, all of it if only after the bootloader's exit. */
  predicate CutsFile(d: Descriptor, f: Frontier) {
    && ReportsFree(d, f)
    && f.sliceStart < d.End() && FreeStart(d, f) < f.SliceEnd()
    && (f.sliceStart < FreeStart(d, f) || d.End() < f.SliceEnd())
  }

  /** Building the map stops with a panic exactly when the kernel file reaches out of the usable part of
      a descriptor it meets, for all descriptors and wherever the file is. */
  lemma MapFailsIff(ds: seq<Descriptor>, f: Frontier)
    ensures RegionsOfAll(ds, f, |ds|).Err? <==> exists d :: d in ds && CutsFile(d, f)
  {
    FailsSomewhere(ds, f, |ds|);
    forall i | 0 <= i < |ds|
      ensures RegionsOf(ds[i], f).Err? <==> CutsFile(ds[i], f)
    {
      RegionsOfFails(ds[i], f);
    }
    hide RegionsOf, CutsFile, RegionsOfAll;
    if i :| 0 <= i < |ds| && RegionsOf(ds[i], f).Err? {
      assert ds[i] in ds;
    }
  }

  lemma RegionsOfFails(d: Descriptor, f: Frontier)
    ensures RegionsOf(d, f).Err? <==> CutsFile(d, f)
  {
  }

  /** With the kernel file inside one of sorted descriptors, that means that the descriptor is usable and
      the allocator's frontier strictly inside the file. */
  lemma MapFails(ds: seq<Descriptor>, f: Frontier, k: nat)
    requires Tidy(ds) && k < |ds| && f.sliceLen > 0
    requires ds[k].start <= f.sliceStart && f.SliceEnd() <= ds[k].End()
    ensures RegionsOfAll(ds, f, |ds|).Err? <==> ds[k].kind == Usable && f.sliceStart < f.nextFree < f.SliceEnd()
  {
    forall i | 0 <= i < |ds| && i != k
      ensures RegionsOf(ds[i], f).Ok?
    {
      if i < k {
        assert ds[i].End() <= ds[k].start;
      } else {
        assert ds[k].End() <= ds[i].start;
      }
    }
    FailsSomewhere(ds, f, |ds|);
    assert RegionsOf(ds[k], f).Err? <==> ds[k].kind == Usable && f.sliceStart < f.nextFree < f.SliceEnd();
  }

  /** A frontier inside the file, and a file across two descriptors. */
  lemma MapsThatFail()
    ensures RegionsOfAll([Descriptor(0, 0x5000, Usable, true)], Frontier(0x2000, 0x1000, 0x2000), 1).Err?
    ensures var ds := [Descriptor(0, 0x5000, Usable, true), Descriptor(0x5000, 0x5000, Usable, true)];
            Tidy(ds) && RegionsOfAll(ds, Frontier(0x1000, 0x4000, 0x2000), 2).Err?
  {
    var d, e := Descriptor(0, 0x5000, Usable, true), Descriptor(0x5000, 0x5000, Usable, true);
    assert [d][0] == d && CutsFile(d, Frontier(0x2000, 0x1000, 0x2000));
    MapFailsIff([d], Frontier(0x2000, 0x1000, 0x2000));
    assert [d, e][0] == d && CutsFile(d, Frontier(0x1000, 0x4000, 0x2000));
    MapFailsIff([d, e], Frontier(0x1000, 0x4000, 0x2000));
  }

  lemma {:induction false} FailsSomewhere(ds: seq<Descriptor>, f: Frontier, n: nat)
    requires n <= |ds|
    ensures RegionsOfAll(ds, f, n).Err? <==> exists i :: 0 <= i < n && RegionsOf(ds[i], f).Err?
  {
    hide RegionsOf;
    if n > 0 {
      FailsSomewhere(ds, f, n - 1);
    }
  }
}
