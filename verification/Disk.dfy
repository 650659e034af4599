/** Reading from the boot disk in stage 2: whole sectors, at most 32 in one BIOS call, into real-mode
    memory. */
module Disk {
  import opened Bytes
  import opened Outcomes

  /** Real-mode buffers lie below this address, loaded files at or above it. */
  const LOW_MEMORY_END: int := 0x10_0000

  /** Memory from 1 MiB on, where files are loaded. */
  function High(ram: seq<Byte>): (h: seq<Byte>)
    requires |ram| >= LOW_MEMORY_END
    ensures |h| == |ram| - LOW_MEMORY_END
  {
    ram[LOW_MEMORY_END..]
  }

  /** `mem` with `bytes` written at `at`. */
  function Splice(mem: seq<Byte>, at: nat, bytes: seq<Byte>): (r: seq<Byte>)
    requires at + |bytes| <= |mem|
    ensures |r| == |mem|
  {
    mem[..at] + bytes + mem[at + |bytes|..]
  }

  lemma SpliceContents(mem: seq<Byte>, at: nat, bytes: seq<Byte>, i: nat)
    requires at + |bytes| <= |mem| && i < |mem|
    ensures Splice(mem, at, bytes)[i] == if at <= i < at + |bytes| then bytes[i - at] else mem[i]
  {
  }

  /** Writing two runs of bytes one after the other is writing them together. */
  lemma SpliceTwice(mem: seq<Byte>, at: nat, a: seq<Byte>, b: seq<Byte>)
    requires at + |a| + |b| <= |mem|
    ensures Splice(Splice(mem, at, a), at + |a|, b) == Splice(mem, at, a + b)
  {
  }

  /** The sectors that hold the `len` bytes from `addr` on. */
  function FirstSector(addr: nat): nat { addr / 512 }

  function SectorCount(addr: nat, len: nat): nat
    requires addr + len > 0
  {
    (addr + len - 1) / 512 + 1 - addr / 512
  }

  /** A read that starts within a sector moves one sector more than its length asks for. */
  lemma SectorsMoved(addr: nat, len: nat)
    requires len > 0 && len % 512 == 0
    ensures SectorCount(addr, len) == len / 512 + (if addr % 512 == 0 then 0 else 1)
  {
  }

  /** Where the last of these sectors ends on the disk. */
  function SectorsEnd(addr: nat, len: nat): nat
    requires addr + len > 0
  {
    (FirstSector(addr) + SectorCount(addr, len)) * 512
  }

  lemma SectorBounds(p: nat)
    ensures p + 1024 - p % 512 <= SectorsEnd(p, 1024) <= p + 1536
  {
  }

  /** What is read for 1024 bytes from `p` on, with the position in a sector. */
  lemma ReadBounds(base: nat, offset: nat)
    requires base % 512 == 0
    ensures var p := base + offset;
      && p % 512 == offset % 512 && SectorCount(p, 1024) <= 3 && FirstSector(p) * 512 == p - offset % 512
      && SectorsEnd(p, 1024) == (FirstSector(p) + SectorCount(p, 1024)) * 512 >= p + 1024 - offset % 512
  {
  }

  /** A write below `k` leaves everything from `k` on. */
  lemma SpliceBelow(mem: seq<Byte>, at: nat, bytes: seq<Byte>, k: nat)
    requires at + |bytes| <= k <= |mem|
    ensures Splice(mem, at, bytes)[k..] == mem[k..]
  {
  }

  /** Physical memory. */
  class Machine {
    var ram: seq<Byte>
  }

  class DiskAccess {
    const image: seq<Byte>
    const baseOffset: nat
    var currentOffset: nat

    constructor (image: seq<Byte>, baseOffset: nat)
      ensures this.image == image && this.baseOffset == baseOffset && currentOffset == 0
    {
      this.image, this.baseOffset, currentOffset := image, baseOffset, 0;
    }

    method Seek(offset: nat)
      modifies this
      ensures currentOffset == offset
    {
      currentOffset := offset;
    }

    /** The contents of the sectors from `from` to below `to`. */
    function Sectors(from: nat, to: nat): (s: seq<Byte>)
      requires from <= to && to * 512 <= |image|
      ensures |s| == (to - from) * 512
    {
      image[from * 512..to * 512]
    }

    lemma SectorsJoin(from: nat, mid: nat, to: nat)
      requires from <= mid <= to && to * 512 <= |image|
      ensures Sectors(from, mid) + Sectors(mid, to) == Sectors(from, to)
    {
    }

    /** Whether `after` is `before` with the sectors from `from` to below `lba` read to `target`. */
    ghost predicate ReadSoFar(before: seq<Byte>, after: seq<Byte>, target: nat, from: nat, lba: nat) {
      if lba <= from then after == before
      else
        && lba * 512 <= |image| && target + (lba - from) * 512 <= |before|
        && after == Splice(before, target, Sectors(from, lba))
    }

    /** Reading the next sectors behind them. */
    lemma ReadNext(before: seq<Byte>, now: seq<Byte>, after: seq<Byte>, target: nat, from: nat, lba: nat, next: nat,
                   at: nat)
      requires from <= lba < next && next * 512 <= |image| && at == target + (lba - from) * 512
      requires |now| == |before| && target + (next - from) * 512 <= LOW_MEMORY_END <= |before|
      requires ReadSoFar(before, now, target, from, lba) && after == Splice(now, at, Sectors(lba, next))
      ensures ReadSoFar(before, after, target, from, next) && High(after) == High(now)
    {
      hide Splice, Sectors;
      if lba > from {
        SpliceTwice(before, target, Sectors(from, lba), Sectors(lba, next));
        SectorsJoin(from, lba, next);
      }
      SpliceBelow(now, at, Sectors(lba, next), LOW_MEMORY_END);
    }

    lemma SectorsSlice(p: nat, to: nat, len: nat)
      requires FirstSector(p) <= to && to * 512 <= |image| && p + len <= to * 512
      ensures Sectors(FirstSector(p), to)[p % 512..p % 512 + len] == image[p..p + len]
    {
    }

    /** One BIOS call. Reading beyond the end of the disk is an error, which stops the bootloader. */
    method PerformLoad(lba: nat, sectors: nat, m: Machine, target: nat) returns (r: Result<()>)
      requires target + sectors * 512 <= |m.ram|
      modifies m
      ensures r.Ok? <==> (lba + sectors) * 512 <= |image|
      ensures r.Ok? ==> m.ram == Splice(old(m.ram), target, Sectors(lba, lba + sectors))
      ensures r.Err? ==> m.ram == old(m.ram)
    {
      if (lba + sectors) * 512 > |image| {
        return Err(Panic("fail: z"));
      }
      m.ram := Splice(m.ram, target, Sectors(lba, lba + sectors));
      r := Ok(());
    }

    /** One turn of the transfer loop. */
    method ReadChunk(lba: nat, sectors: nat, m: Machine, at: nat, ghost before: seq<Byte>, ghost target: nat,
                     ghost from: nat)
      returns (r: Result<()>)
      requires from <= lba && 0 < sectors && at == target + (lba - from) * 512
      requires ReadSoFar(before, m.ram, target, from, lba) && |m.ram| == |before|
      requires target + (lba + sectors - from) * 512 <= LOW_MEMORY_END <= |before|
      modifies m
      ensures r.Ok? <==> (lba + sectors) * 512 <= |image|
      ensures r.Ok? ==> ReadSoFar(before, m.ram, target, from, lba + sectors)
      ensures |m.ram| == |before| && High(m.ram) == High(old(m.ram))
    {
      hide Splice, Sectors, ReadSoFar, High;
      ghost var now := m.ram;
      var _ :- PerformLoad(lba, sectors, m, at);
      ReadNext(before, now, m.ram, target, from, lba, lba + sectors, at);
      r := Ok(());
    }

    /** The transfer loop: reads `count` sectors, 32 at a time. */
    method ReadSectors(from: nat, count: nat, m: Machine, target: nat) returns (r: Result<()>)
      requires count > 0 && target + count * 512 <= LOW_MEMORY_END <= |m.ram|
      modifies m
      ensures r.Ok? <==> (from + count) * 512 <= |image|
      ensures r.Ok? ==> m.ram == Splice(old(m.ram), target, Sectors(from, from + count))
      ensures |m.ram| == |old(m.ram)| && High(m.ram) == High(old(m.ram))
    {
      hide Splice, Sectors, High;
      ghost var before := m.ram;
      var startLba, numberOfSectors, targetAddr := from, count, target;
      while numberOfSectors > 0
        invariant 0 <= numberOfSectors && startLba + numberOfSectors == from + count && from <= startLba
        invariant targetAddr == target + (startLba - from) * 512
        invariant ReadSoFar(before, m.ram, target, from, startLba)
        invariant |m.ram| == |before| && High(m.ram) == High(before)
      {
        hide ReadSoFar;
        var sectors := if numberOfSectors < 32 then numberOfSectors else 32;
        var _ :- ReadChunk(startLba, sectors, m, targetAddr, before, target, from);
        startLba := startLba + sectors;
        numberOfSectors := numberOfSectors - sectors;
        targetAddr := targetAddr + sectors * 512;
      }
      r := Ok(());
    }

    /** Reads the sectors that hold the next `len` bytes to address `target`. The position afterwards
        counts the start of the partition too. */
    method ReadExactInto(len: nat, m: Machine, target: nat) returns (r: Result<()>)
      requires len > 0
      requires target + SectorCount(baseOffset + currentOffset, len) * 512 <= LOW_MEMORY_END <= |m.ram|
      modifies this, m
      ensures var addr := baseOffset + old(currentOffset);
              var from, count := FirstSector(addr), SectorCount(addr, len);
              && (r.Ok? <==> len % 512 == 0 && (from + count) * 512 <= |image|)
              && (r.Ok? ==> m.ram == Splice(old(m.ram), target, Sectors(from, from + count)))
              && (r.Ok? ==> currentOffset == addr + len)
      ensures |m.ram| == |old(m.ram)| && High(m.ram) == High(old(m.ram))
    {
      if len % 512 != 0 {
        return Err(Panic("length is not a multiple of the sector size"));
      }
      var endAddr := baseOffset + currentOffset + len;
      var startLba := (baseOffset + currentOffset) / 512;
      var endLba := (endAddr - 1) / 512;
      var _ :- ReadSectors(startLba, endLba + 1 - startLba, m, target);
      currentOffset := endAddr;
      r := Ok(());
    }

    /** Reads `len` bytes at the current position through the 1024-byte buffer at `buffer`. Three sectors
        are read if the position is within a sector, which overwrites the 512 bytes after that buffer. */
    method ReadExact(len: nat, m: Machine, buffer: nat) returns (r: Result<seq<Byte>>)
      requires baseOffset % 512 == 0
      requires buffer + 1536 <= LOW_MEMORY_END <= |m.ram|
      modifies this, m
      ensures var p := baseOffset + old(currentOffset);
              && (r.Ok? <==> old(currentOffset) % 512 + len <= 1024 && SectorsEnd(p, 1024) <= |image|)
              && (r.Ok? ==> p + len <= |image| && r.value == image[p..p + len])
              && (r.Ok? ==> var from, count := FirstSector(p), SectorCount(p, 1024);
                            m.ram == Splice(old(m.ram), buffer, Sectors(from, from + count)))
      ensures |m.ram| == |old(m.ram)| && High(m.ram) == High(old(m.ram))
    {
      ghost var before := m.ram;
      var inSector := currentOffset % 512;
      if inSector + len > 1024 {
        return Err(Panic("read does not fit the buffer"));
      }
      ghost var p := baseOffset + currentOffset;
      hide Splice, FirstSector, SectorCount, SectorsEnd, Sectors;
      ReadBounds(baseOffset, currentOffset);
      var _ :- ReadExactInto(1024, m, buffer);
      ghost var sectors := Sectors(FirstSector(p), FirstSector(p) + SectorCount(p, 1024));
      SliceOfSplice(before, buffer, sectors, inSector, len);
      SectorsSlice(p, FirstSector(p) + SectorCount(p, 1024), len);
      r := Ok(m.ram[buffer + inSector..][..len]);
    }
  }

  lemma SliceOfSplice(mem: seq<Byte>, at: nat, bytes: seq<Byte>, from: nat, len: nat)
    requires at + |bytes| <= |mem| && from + len <= |bytes|
    ensures Splice(mem, at, bytes)[at + from..][..len] == bytes[from..from + len]
  {
  }
}
