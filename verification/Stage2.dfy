/** The order in which stage 2 loads its files, and where stage 4 starts to allocate frames. */
module Stage2 {
  import opened Bytes
  import opened Outcomes
  import opened Disk
  import opened Fat
  import opened LoadFile
  import opened Arithmetic
  import MemoryMap
  import FrameAllocator

  const STAGE_3_DST: nat := 0x0010_0000
  const STAGE_4_DST: nat := 0x0013_0000
  const KERNEL_DST: nat := 0x0100_0000

  datatype Region = Region(start: nat, len: nat) {
    function End(): nat { start + len }
  }

  /** The parts of the boot information about loaded files. */
  datatype BiosInfo = BiosInfo(stage4: Region, kernel: Region, ramdisk: Region, configFile: Region, lastUsedAddr: nat)

  /** Whether `bytes` stand at address `at` of the memory from 1 MiB on. */
  ghost predicate Holds(high: seq<Byte>, at: nat, bytes: seq<Byte>) {
    && LOW_MEMORY_END <= at && at + |bytes| <= LOW_MEMORY_END + |high|
    && high[at - LOW_MEMORY_END..][..|bytes|] == bytes
  }

  /** What one load writes where: a number of clusters, of which the first `size` bytes are the file. */
  datatype Piece = Piece(dst: nat, size: nat, bytes: seq<Byte>) {
    predicate Fits(high: nat) {
      LOW_MEMORY_END <= dst && dst + |bytes| <= LOW_MEMORY_END + high && size <= |bytes|
    }

    function File(): seq<Byte>
      requires size <= |bytes|
    {
      bytes[..size]
    }
  }

  predicate AllFit(pieces: seq<Piece>, high: nat) {
    forall i | 0 <= i < |pieces| :: pieces[i].Fits(high)
  }

  /** Memory from 1 MiB on after loading the pieces one after the other. */
  function After(high: seq<Byte>, pieces: seq<Piece>): (r: seq<Byte>)
    requires AllFit(pieces, |high|)
    ensures |r| == |high|
  {
    if pieces == [] then high
    else
      var k := |pieces| - 1;
      Splice(After(high, pieces[..k]), pieces[k].dst - LOW_MEMORY_END, pieces[k].bytes)
  }

  lemma AllFitOne(pieces: seq<Piece>, p: Piece, high: nat)
    requires AllFit(pieces, high) && p.Fits(high)
    ensures AllFit(pieces + [p], high)
  {
    hide Piece.Fits;
    forall i | 0 <= i < |pieces + [p]|
      ensures (pieces + [p])[i].Fits(high)
    {
      assert i < |pieces| ==> (pieces + [p])[i] == pieces[i];
    }
  }

  lemma AfterOne(high: seq<Byte>, pieces: seq<Piece>, p: Piece)
    requires AllFit(pieces, |high|) && p.Fits(|high|) && AllFit(pieces + [p], |high|)
    ensures After(high, pieces + [p]) == Splice(After(high, pieces), p.dst - LOW_MEMORY_END, p.bytes)
  {
    hide Splice, AllFit;
    assert (pieces + [p])[..|pieces|] == pieces && (pieces + [p])[|pieces|] == p;
  }

  /** Loading in two goes. */
  lemma {:induction false} AfterBoth(high: seq<Byte>, a: seq<Piece>, b: seq<Piece>)
    requires AllFit(a, |high|) && AllFit(b, |high|)
    ensures AllFit(a + b, |high|) && After(high, a + b) == After(After(high, a), b)
    decreases |b|
  {
    hide Splice, Piece.Fits;
    if b == [] {
      assert a + b == a;
    } else {
      var k := |b| - 1;
      AfterBoth(high, a, b[..k]);
      assert a + b == a + b[..k] + [b[k]];
      AllFitOne(a + b[..k], b[k], |high|);
      AfterOne(high, a + b[..k], b[k]);
    }
  }

  /** Loading a piece puts the file at its place. */
  lemma LoadedHolds(high: seq<Byte>, p: Piece)
    requires p.Fits(|high|)
    ensures Holds(Splice(high, p.dst - LOW_MEMORY_END, p.bytes), p.dst, p.File())
  {
  }

  /** What stands below the place of a piece stays. */
  lemma HoldsBelow(high: seq<Byte>, p: Piece, at: nat, bytes: seq<Byte>)
    requires p.Fits(|high|) && Holds(high, at, bytes) && at + |bytes| <= p.dst
    ensures Holds(Splice(high, p.dst - LOW_MEMORY_END, p.bytes), at, bytes)
  {
    var k, after := at - LOW_MEMORY_END, Splice(high, p.dst - LOW_MEMORY_END, p.bytes);
    forall i | 0 <= i < |bytes|
      ensures after[k..][..|bytes|][i] == bytes[i]
    {
      SpliceContents(high, p.dst - LOW_MEMORY_END, p.bytes, k + i);
      assert high[k..][..|bytes|][i] == high[k + i];
    }
  }

  /** Bytes below all pieces stay. */
  lemma {:induction false} HoldsBelowAll(high: seq<Byte>, pieces: seq<Piece>, at: nat, bytes: seq<Byte>)
    requires AllFit(pieces, |high|) && Holds(high, at, bytes)
    requires forall i | 0 <= i < |pieces| :: at + |bytes| <= pieces[i].dst
    ensures Holds(After(high, pieces), at, bytes)
  {
    if pieces != [] {
      var k := |pieces| - 1;
      HoldsBelowAll(high, pieces[..k], at, bytes);
      HoldsBelow(After(high, pieces[..k]), pieces[k], at, bytes);
    }
  }

  /** A file is intact after all loads if all later ones go to places behind it, whatever they write. */
  lemma {:induction false} Intact(high: seq<Byte>, pieces: seq<Piece>, n: nat)
    requires AllFit(pieces, |high|) && n < |pieces|
    requires forall i | n < i < |pieces| :: pieces[n].dst + pieces[n].size <= pieces[i].dst
    ensures Holds(After(high, pieces), pieces[n].dst, pieces[n].File())
  {
    hide Holds, Splice;
    var k := |pieces| - 1;
    if n == k {
      LoadedHolds(After(high, pieces[..k]), pieces[k]);
    } else {
      Intact(high, pieces[..k], n);
      HoldsBelow(After(high, pieces[..k]), pieces[k], pieces[n].dst, pieces[n].File());
    }
  }

  class Loader {
    const fsDisk: DiskAccess
    const disk: DiskAccess
    const bpb: Bpb
    const buffers: Buffers
    const machine: Machine
    /** What was loaded so far, into the memory `high0`. */
    ghost var pieces: seq<Piece>
    ghost const high0: seq<Byte>

    constructor (image: seq<Byte>, base: nat, bpb: Bpb, buffers: Buffers, machine: Machine)
      requires Loadable(Volume(image, base, bpb)) && buffers.Fit(machine)
      ensures Valid() && fresh(fsDisk) && fresh(disk) && pieces == [] && high0 == High(machine.ram)
      ensures Vol() == Volume(image, base, bpb) && this.buffers == buffers && this.machine == machine
    {
      this.bpb, this.buffers, this.machine := bpb, buffers, machine;
      fsDisk := new DiskAccess(image, base);
      disk := new DiskAccess(image, base);
      pieces, high0 := [], High(machine.ram);
    }

    ghost function Vol(): Volume { Volume(disk.image, disk.baseOffset, bpb) }

    ghost predicate Valid()
      reads this, machine
    {
      && fsDisk != disk && fsDisk.image == disk.image && fsDisk.baseOffset == disk.baseOffset
      && Loadable(Vol()) && buffers.Fit(machine)
      && AllFit(pieces, |high0|) && High(machine.ram) == After(high0, pieces)
    }

    /** What loading a file writes. */
    ghost function PieceOf(f: Stored, dst: nat): Piece
      requires Loadable(Vol()) && OnVolume(Vol(), f)
    {
      Piece(dst, f.file.fileSize, Written(Vol(), f))
    }

    /** Whether a file that is present is on the volume and, loaded to `dst`, fits into memory. */
    ghost predicate Fits(f: Option<Stored>, dst: nat)
      requires Loadable(Vol())
    {
      f.Some? ==> OnVolume(Vol(), f.value) && PieceOf(f.value, dst).Fits(|high0|)
    }

    /** Loads one file, which must be there and readable. */
    method Load(f: Option<Stored>, dst: nat) returns (r: Result<nat>)
      requires Valid() && Fits(f, dst)
      modifies this, fsDisk, disk, machine
      ensures r.Ok? <==> f.Some? && FileReadable(Vol(), f.value)
      ensures r.Ok? ==> Valid() && r.value == SizeOf(f) && pieces == old(pieces) + [PieceOf(f.value, dst)]
    {
      if f.None? {
        return Err(Panic("file not found"));
      }
      r := LoadPresent(f.value, dst);
    }

    /** Loads one file that is there. */
    method LoadPresent(f: Stored, dst: nat) returns (r: Result<nat>)
      requires Valid() && Fits(Some(f), dst)
      modifies this, fsDisk, disk, machine
      ensures r.Ok? <==> FileReadable(Vol(), f)
      ensures r.Ok? ==> Valid() && r.value == f.file.fileSize && pieces == old(pieces) + [PieceOf(f, dst)]
    {
      hide Splice, High, Loadable, Volume.Chain, Loaded, AllReadable, After;
      ghost var p := PieceOf(f, dst);
      r := TryLoadFile(f.file, dst, fsDisk, disk, machine, buffers, bpb, Vol(), f.clusters, f.ends);
      if r.Ok? {
        AllFitOne(pieces, p, |high0|);
        AfterOne(high0, pieces, p);
        pieces := pieces + [p];
      }
    }

    /** Loads a file that may be missing. */
    method LoadOptional(f: Option<Stored>, dst: nat) returns (r: Result<nat>)
      requires Valid() && Fits(f, dst)
      modifies this, fsDisk, disk, machine
      ensures r.Ok? <==> f.None? || FileReadable(Vol(), f.value)
      ensures r.Ok? ==> Valid() && r.value == SizeOf(f) && pieces == old(pieces) + Optional(f, dst)
    {
      if f.None? {
        return Ok(0);
      }
      r := LoadPresent(f.value, dst);
    }

    ghost function Optional(f: Option<Stored>, dst: nat): seq<Piece>
      requires Loadable(Vol()) && (f.Some? ==> OnVolume(Vol(), f.value))
    {
      if f.None? then [] else [PieceOf(f.value, dst)]
    }

    /** The five files in the order of loading, with their places. */
    ghost predicate AllPlaced(fs: Files)
      requires Loadable(Vol())
    {
      && Fits(fs.stage3, STAGE_3_DST) && Fits(fs.stage4, STAGE_4_DST) && Fits(fs.kernel, KERNEL_DST)
      && Fits(fs.ramdisk, RamdiskStart(SizeOf(fs.kernel)))
      && Fits(fs.config, RamdiskStart(SizeOf(fs.kernel)) + SizeOf(fs.ramdisk))
    }

    /** What loading kernel, ramdisk and configuration writes. */
    ghost function LaterPieces(fs: Files): seq<Piece>
      requires Loadable(Vol()) && AllPlaced(fs) && fs.kernel.Some?
    {
      var start := RamdiskStart(SizeOf(fs.kernel));
      [PieceOf(fs.kernel.value, KERNEL_DST)] + Optional(fs.ramdisk, start)
        + Optional(fs.config, start + SizeOf(fs.ramdisk))
    }

    ghost function AllPieces(fs: Files): seq<Piece>
      requires Loadable(Vol()) && AllPlaced(fs) && fs.stage3.Some? && fs.stage4.Some? && fs.kernel.Some?
    {
      [PieceOf(fs.stage3.value, STAGE_3_DST), PieceOf(fs.stage4.value, STAGE_4_DST)] + LaterPieces(fs)
    }

    /** Whether a file is there if it must be, and readable if it is there. */
    ghost predicate Usable(f: Option<Stored>, needed: bool)
      requires Loadable(Vol()) && (f.Some? ==> OnVolume(Vol(), f.value))
    {
      if f.None? then !needed else FileReadable(Vol(), f.value)
    }

    /** When the five files are all loaded. */
    ghost predicate Succeeds(fs: Files)
      requires Loadable(Vol()) && AllPlaced(fs)
    {
      && Usable(fs.stage3, true) && Usable(fs.stage4, true) && Usable(fs.kernel, true)
      && Usable(fs.ramdisk, false) && Usable(fs.config, false)
      && STAGE_3_DST + SizeOf(fs.stage3) < STAGE_4_DST && SizeOf(fs.kernel) > 0
    }

    /** Loads stage 3 and stage 4, if stage 3 ends below stage 4. */
    method LoadStages(stage3: Option<Stored>, stage4: Option<Stored>) returns (r: Result<nat>)
      requires Valid() && pieces == [] && Fits(stage3, STAGE_3_DST) && Fits(stage4, STAGE_4_DST)
      modifies this, fsDisk, disk, machine
      ensures r.Ok? <==> Usable(stage3, true) && Usable(stage4, true) && STAGE_3_DST + SizeOf(stage3) < STAGE_4_DST
      ensures r.Ok? ==> Valid() && r.value == SizeOf(stage4)
      ensures r.Ok? ==> pieces == [PieceOf(stage3.value, STAGE_3_DST), PieceOf(stage4.value, STAGE_4_DST)]
    {
      hide Loadable, OnVolume, High, Written, FileReadable, Piece.Fits, AllFit, After;
      var stage3Len :- Load(stage3, STAGE_3_DST);
      if !(STAGE_4_DST > STAGE_3_DST + stage3Len) {
        return Err(Panic("stage 3 overlaps stage 4"));
      }
      r := Load(stage4, STAGE_4_DST);
    }

    /** Loads ramdisk and configuration, one behind the other. */
    method LoadOptionals(ramdisk: Option<Stored>, config: Option<Stored>, start: nat) returns (r: Result<(nat, nat)>)
      requires Valid() && Fits(ramdisk, start) && Fits(config, start + SizeOf(ramdisk))
      modifies this, fsDisk, disk, machine
      ensures r.Ok? <==> Usable(ramdisk, false) && Usable(config, false)
      ensures r.Ok? ==> Valid() && r.value == (SizeOf(ramdisk), SizeOf(config))
      ensures r.Ok? ==> pieces == old(pieces) + Optional(ramdisk, start) + Optional(config, start + SizeOf(ramdisk))
    {
      hide Loadable, OnVolume, High, Written, FileReadable, Piece.Fits, AllFit, After;
      var ramdiskLen :- LoadOptional(ramdisk, start);
      var configLen :- LoadOptional(config, start + ramdiskLen);
      r := Ok((ramdiskLen, configLen));
    }

    /** Loads stage 3, stage 4, kernel, ramdisk and configuration, in this order. */
    method Start(fs: Files) returns (r: Result<BiosInfo>)
      requires Valid() && pieces == [] && AllPlaced(fs)
      modifies this, fsDisk, disk, machine
      ensures r.Ok? <==> Succeeds(fs)
      ensures r.Ok? ==> Valid() && pieces == AllPieces(fs)
      ensures r.Ok? ==> r.value == InfoOf(SizeOf(fs.stage4), SizeOf(fs.kernel), SizeOf(fs.ramdisk), SizeOf(fs.config))
      ensures r.Ok? ==> var info, v, high := r.value, Vol(), High(machine.ram);
        && info.stage4.start == 0x13_0000 && info.kernel.start == 0x100_0000
        && info.stage4.len == fs.stage4.value.file.fileSize
        && (info.stage4.start + info.stage4.len <= info.kernel.start ==>
              Holds(high, info.stage4.start, FileBytes(v, fs.stage4.value)))
        && info.kernel.len == fs.kernel.value.file.fileSize
        && Holds(high, info.kernel.start, FileBytes(v, fs.kernel.value))
        && (if fs.ramdisk.None? then info.ramdisk.len == 0
            else
              && info.ramdisk.len == fs.ramdisk.value.file.fileSize
              && Holds(high, info.ramdisk.start, FileBytes(v, fs.ramdisk.value)))
        && (if fs.config.None? then info.configFile.len == 0
            else
              && info.configFile.len == fs.config.value.file.fileSize
              && Holds(high, info.configFile.start, FileBytes(v, fs.config.value)))
        && info.ramdisk.start % 4096 == 0 && 0 <= info.ramdisk.start - (info.kernel.start + info.kernel.len) < 4096
        && info.configFile.start == info.ramdisk.start + info.ramdisk.len
        && info.lastUsedAddr + 1 == info.configFile.start + info.configFile.len
      ensures r.Ok? ==> Holds(High(machine.ram), 0x10_0000, FileBytes(Vol(), fs.stage3.value))
    {
      hide Loadable, OnVolume, High, Written, FileReadable, Piece.Fits, AllFit, After;
      var stage4Len :- LoadStages(fs.stage3, fs.stage4);
      var kernelLen :- Load(fs.kernel, KERNEL_DST);
      if kernelLen == 0 {
        return Err(Panic("kernel is empty"));
      }
      var kernelPageSize := (kernelLen - 1) / 4096 + 1;
      var ramdiskStart := KERNEL_DST + kernelPageSize * 4096;
      assert ramdiskStart == RamdiskStart(SizeOf(fs.kernel));
      hide RamdiskStart;
      var optional :- LoadOptionals(fs.ramdisk, fs.config, ramdiskStart);
      var (ramdiskLen, configFileLen) := optional;
      var configFileStart := ramdiskStart + ramdiskLen;
      assert pieces == AllPieces(fs);
      r := Ok(BiosInfo(Region(STAGE_4_DST, stage4Len), Region(KERNEL_DST, kernelLen),
                       Region(ramdiskStart, ramdiskLen), Region(configFileStart, configFileLen),
                       configFileStart + configFileLen - 1));
      FilesIntact(fs);
    }

    /** After the loads all files are intact at their places, but for a stage 4 that does not end below
        the kernel. */
    lemma FilesIntact(fs: Files)
      requires Valid() && AllPlaced(fs) && Succeeds(fs) && pieces == AllPieces(fs)
      ensures var v, high := Vol(), High(machine.ram);
              var start := RamdiskStart(SizeOf(fs.kernel));
              && Holds(high, STAGE_3_DST, FileBytes(v, fs.stage3.value))
              && (STAGE_4_DST + SizeOf(fs.stage4) <= KERNEL_DST ==>
                    Holds(high, STAGE_4_DST, FileBytes(v, fs.stage4.value)))
              && Holds(high, KERNEL_DST, FileBytes(v, fs.kernel.value))
              && (fs.ramdisk.Some? ==> Holds(high, start, FileBytes(v, fs.ramdisk.value)))
              && (fs.config.Some? ==> Holds(high, start + SizeOf(fs.ramdisk), FileBytes(v, fs.config.value)))
    {
      hide Loadable, OnVolume, High, Written, FileReadable, Holds, After, AllFit, Piece.Fits;
      Intact(high0, pieces, 0);
      if STAGE_4_DST + SizeOf(fs.stage4) <= KERNEL_DST {
        Intact(high0, pieces, 1);
      }
      Intact(high0, pieces, 2);
      if fs.ramdisk.Some? {
        Intact(high0, pieces, 3);
      }
      if fs.config.Some? {
        Intact(high0, pieces, |pieces| - 1);
      }
    }

    /** What is loaded after stage 4 is among what the lemmas about stage 4 speak of. */
    lemma LaterPiecesAreLater(fs: Files)
      requires Loadable(Vol()) && AllPlaced(fs) && fs.kernel.Some? && SizeOf(fs.kernel) > 0
      ensures Vol().bpb.BytesPerCluster() > 0 && Later(LaterPieces(fs), |high0|, Vol().bpb.BytesPerCluster())
    {
      hide Loadable, OnVolume, PieceOf, RamdiskStart, Bpb.BytesPerCluster, Later, WholeAt, Piece.Fits, SizeOf;
      ClustersNotEmpty(Vol());
      var c, start := Vol().bpb.BytesPerCluster(), RamdiskStart(SizeOf(fs.kernel));
      WholeClusters(fs.kernel, KERNEL_DST);
      WholeClusters(fs.ramdisk, start);
      WholeClusters(fs.config, start + SizeOf(fs.ramdisk));
      var kernel, ramdisk := PieceOf(fs.kernel.value, KERNEL_DST), Optional(fs.ramdisk, start);
      LaterFrom(kernel, ramdisk, Optional(fs.config, start + SizeOf(fs.ramdisk)), |high0|, c);
    }

    lemma WholeClusters(f: Option<Stored>, dst: nat)
      requires Loadable(Vol()) && Fits(f, dst) && Vol().bpb.BytesPerCluster() > 0
      ensures WholeAt(Optional(f, dst), |high0|, Vol().bpb.BytesPerCluster(), dst)
      ensures SizeOf(f) == if Optional(f, dst) == [] then 0 else Optional(f, dst)[0].size
    {
      if f.Some? {
        MulMod(|f.value.clusters|, Vol().bpb.BytesPerCluster());
      }
    }

    /** The memory after all loads is that after the two stages with the others loaded on top, and stage 4,
        which stands there in between, is safe from everything that may be loaded on top exactly if it
        ends below the kernel. */
    lemma StageFourAfterStart(fs: Files)
      requires Valid() && AllPlaced(fs) && Succeeds(fs) && pieces == AllPieces(fs)
      ensures var c := Vol().bpb.BytesPerCluster();
              var stages := [PieceOf(fs.stage3.value, STAGE_3_DST), PieceOf(fs.stage4.value, STAGE_4_DST)];
              var stage4 := FileBytes(Vol(), fs.stage4.value);
              && c > 0 && AllFit(stages, |high0|) && Later(LaterPieces(fs), |high0|, c)
              && var between := After(high0, stages);
                 && Holds(between, STAGE_4_DST, stage4) && High(machine.ram) == After(between, LaterPieces(fs))
                 && ((forall later | Later(later, |high0|, c) :: Holds(After(between, later), STAGE_4_DST, stage4))
                     <==> STAGE_4_DST + SizeOf(fs.stage4) <= KERNEL_DST)
    {
      hide Loadable, OnVolume, High, Written, FileReadable, Holds, After, RamdiskStart, Bpb.BytesPerCluster, Whole;
      var stages := [PieceOf(fs.stage3.value, STAGE_3_DST), PieceOf(fs.stage4.value, STAGE_4_DST)];
      LaterPiecesAreLater(fs);
      AfterBoth(high0, stages, LaterPieces(fs));
      Intact(high0, stages, 1);
      var kernel := LaterPieces(fs)[0];
      WholeMeansOne(|kernel.bytes|, Vol().bpb.BytesPerCluster());
      StageFourIntactIff(After(high0, stages), FileBytes(Vol(), fs.stage4.value), Vol().bpb.BytesPerCluster());
    }
  }

  lemma ClustersNotEmpty(v: Volume)
    requires Loadable(v)
    ensures v.bpb.BytesPerCluster() > 0
  {
    MulLessEqual(1, v.bpb.bytesPerSector, v.bpb.sectorsPerCluster);
  }

  lemma WholeMeansOne(n: nat, c: nat)
    requires n > 0 && c > 0 && Whole(n, c)
    ensures c <= n
  {
  }

  /** The files on the volume. */
  datatype Files = Files(
    stage3: Option<Stored>, stage4: Option<Stored>, kernel: Option<Stored>, ramdisk: Option<Stored>,
    config: Option<Stored>)

  function SizeOf(f: Option<Stored>): nat {
    if f.Some? then f.value.file.fileSize else 0
  }

  /** The first page after the kernel. */
  function RamdiskStart(kernelLen: nat): nat {
    if kernelLen == 0 then KERNEL_DST else KERNEL_DST + ((kernelLen - 1) / 4096 + 1) * 4096
  }

  function InfoOf(stage4: nat, kernel: nat, ramdisk: nat, config: nat): BiosInfo {
    var start := RamdiskStart(kernel);
    BiosInfo(Region(STAGE_4_DST, stage4), Region(KERNEL_DST, kernel), Region(start, ramdisk),
             Region(start + ramdisk, config), start + ramdisk + config - 1)
  }

  /** Whether `n` bytes are a number of clusters of `c` bytes. */
  predicate Whole(n: nat, c: nat)
    requires c > 0
  {
    n % c == 0
  }

  /** A kernel, and a ramdisk and a configuration that may be missing, as loading after stage 4 writes
      them: whole clusters of `c` bytes, to their places, within memory. */
  predicate Later(pieces: seq<Piece>, high: nat, c: nat)
    requires c > 0
  {
    && 1 <= |pieces| <= 3 && AllFit(pieces, high)
    && pieces[0].dst == KERNEL_DST && pieces[0].size > 0
    && (forall i | 0 <= i < |pieces| :: Whole(|pieces[i].bytes|, c))
    && (|pieces| > 1 ==> pieces[1].dst == RamdiskStart(pieces[0].size))
    && (|pieces| > 2 ==> pieces[2].dst == pieces[1].dst + pieces[1].size)
  }

  /** At most one piece, to `dst`, of whole clusters and within memory. */
  predicate WholeAt(pieces: seq<Piece>, high: nat, c: nat, dst: nat)
    requires c > 0
  {
    |pieces| <= 1 && forall p | p in pieces :: p.Fits(high) && Whole(|p.bytes|, c) && p.dst == dst
  }

  lemma LaterFrom(kernel: Piece, ramdisk: seq<Piece>, config: seq<Piece>, high: nat, c: nat)
    requires c > 0 && kernel.size > 0 && WholeAt([kernel], high, c, KERNEL_DST)
    requires WholeAt(ramdisk, high, c, RamdiskStart(kernel.size))
    requires WholeAt(config, high, c, RamdiskStart(kernel.size) + if ramdisk == [] then 0 else ramdisk[0].size)
    ensures Later([kernel] + ramdisk + config, high, c)
  {
    hide Piece.Fits, RamdiskStart, Whole;
    var all := [kernel] + ramdisk + config;
    assert kernel in [kernel];
    assert forall i | 0 < i < |all| :: all[i] in ramdisk || all[i] in config;
  }

  /** Whatever is loaded later leaves stage 4 intact exactly if it ends below the kernel. */
  lemma StageFourIntactIff(high: seq<Byte>, stage4: seq<Byte>, c: nat)
    requires c > 0 && Holds(high, STAGE_4_DST, stage4) && KERNEL_DST + c <= LOW_MEMORY_END + |high|
    ensures (forall pieces | Later(pieces, |high|, c) :: Holds(After(high, pieces), STAGE_4_DST, stage4)) <==>
            STAGE_4_DST + |stage4| <= KERNEL_DST
  {
    hide Holds, After, Piece.Fits, RamdiskStart;
    if STAGE_4_DST + |stage4| <= KERNEL_DST {
      forall pieces | Later(pieces, |high|, c)
        ensures Holds(After(high, pieces), STAGE_4_DST, stage4)
      {
        StageFourBelow(high, stage4, pieces, c);
      }
    } else {
      var kernel := StageFourDamaged(high, stage4, c);
      assert Later([kernel], |high|, c);
    }
  }

  lemma StageFourBelow(high: seq<Byte>, stage4: seq<Byte>, pieces: seq<Piece>, c: nat)
    requires c > 0 && Holds(high, STAGE_4_DST, stage4) && STAGE_4_DST + |stage4| <= KERNEL_DST
    requires Later(pieces, |high|, c)
    ensures Holds(After(high, pieces), STAGE_4_DST, stage4)
  {
    hide Holds, After;
    LaterIsBehind(pieces, |high|, c);
    HoldsBelowAll(high, pieces, STAGE_4_DST, stage4);
  }

  /** A kernel that damages a given stage 4. */
  lemma StageFourDamaged(high: seq<Byte>, stage4: seq<Byte>, c: nat) returns (kernel: Piece)
    requires c > 0 && KERNEL_DST + c <= LOW_MEMORY_END + |high| && KERNEL_DST < STAGE_4_DST + |stage4|
    ensures Later([kernel], |high|, c) && !Holds(After(high, [kernel]), STAGE_4_DST, stage4)
  {
    hide Holds, After;
    kernel := OtherKernel(if stage4[KERNEL_DST - STAGE_4_DST] == 0 then 1 else 0, c);
    KernelDamages(high, stage4, kernel);
  }

  lemma LaterIsBehind(pieces: seq<Piece>, high: nat, c: nat)
    requires c > 0 && Later(pieces, high, c)
    ensures forall i | 0 <= i < |pieces| :: KERNEL_DST <= pieces[i].dst
  {
  }

  /** A kernel of one cluster that is `b` throughout. */
  function OtherKernel(b: Byte, c: nat): Piece {
    Piece(KERNEL_DST, c, seq<Byte>(c, _ => b))
  }

  lemma KernelDamages(high: seq<Byte>, stage4: seq<Byte>, kernel: Piece)
    requires kernel.Fits(|high|) && kernel.dst == KERNEL_DST && kernel.bytes != []
    requires KERNEL_DST < STAGE_4_DST + |stage4| && stage4[KERNEL_DST - STAGE_4_DST] != kernel.bytes[0]
    ensures !Holds(After(high, [kernel]), STAGE_4_DST, stage4)
  {
    assert [kernel][..0] == [] && After(high, []) == high;
    var k, gap := STAGE_4_DST - LOW_MEMORY_END, KERNEL_DST - STAGE_4_DST;
    var after := After(high, [kernel]);
    SpliceContents(high, KERNEL_DST - LOW_MEMORY_END, kernel.bytes, k + gap);
    assert after[k + gap] == kernel.bytes[0];
    if STAGE_4_DST + |stage4| <= LOW_MEMORY_END + |after| {
      assert after[k..][..|stage4|][gap] == after[k + gap];
    }
  }

  /** A stage 4 of one byte too many, damaged by a kernel of one sector. */
  lemma LongStageFour(high: seq<Byte>, stage4: seq<Byte>)
    requires high == seq<Byte>(0x200_0000, _ => 0) && stage4 == seq<Byte>(0xED_0001, _ => 0)
    ensures Holds(high, STAGE_4_DST, stage4) && Later([OtherKernel(1, 512)], |high|, 512)
    ensures !Holds(After(high, [OtherKernel(1, 512)]), STAGE_4_DST, stage4)
  {
    assert high[STAGE_4_DST - LOW_MEMORY_END..][..|stage4|] == stage4;
    KernelDamages(high, stage4, OtherKernel(1, 512));
  }

  /** Every frame that stage 4's allocator hands out, started after the last used address, lies above
      kernel, ramdisk and configuration file, and above a stage 4 that ends below the kernel. */
  lemma FramesAboveFiles(stage4: nat, kernel: nat, ramdisk: nat, config: nat,
                         ds: seq<MemoryMap.Descriptor>, next: nat, frames: seq<int>, g: int)
    requires var info := InfoOf(stage4, kernel, ramdisk, config);
             FrameAllocator.Ascending(ds, info.lastUsedAddr / 4096 + 1, next, frames)
    requires g in frames
    ensures var info := InfoOf(stage4, kernel, ramdisk, config);
            && info.kernel.End() <= g * 4096 && info.ramdisk.End() <= g * 4096 && info.configFile.End() <= g * 4096
            && (info.stage4.End() <= KERNEL_DST ==> info.stage4.End() <= g * 4096)
  {
    var i :| 0 <= i < |frames| && frames[i] == g;
  }
}
