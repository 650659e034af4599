/** Loading files in stage 2: cluster by cluster, through a 16 KiB buffer below 1 MiB, to memory above. */
module LoadFile {
  import opened Bytes
  import opened Outcomes
  import opened Disk
  import opened Fat
  import opened Arithmetic

  const DISK_BUFFER_SIZE := 0x4000

  datatype File = File(firstCluster: nat, fileSize: nat)

  /** The two static buffers, both in real-mode memory, with the sector behind each that a read from within
      a sector writes to. */
  datatype Buffers = Buffers(tmp: nat, disk: nat) {
    predicate Fit(m: Machine)
      reads m
    {
      tmp + 1536 <= LOW_MEMORY_END && disk + DISK_BUFFER_SIZE + 512 <= LOW_MEMORY_END <= |m.ram|
    }
  }

  lemma HighSplice(ram: seq<Byte>, at: nat, bytes: seq<Byte>)
    requires LOW_MEMORY_END <= at && at + |bytes| <= |ram|
    ensures High(Splice(ram, at, bytes)) == Splice(High(ram), at - LOW_MEMORY_END, bytes)
  {
  }

  /** What loading demands of a volume: that it is on the disk. */
  predicate Loadable(v: Volume) {
    v.Valid() && v.base + v.bpb.TotalSectors() * v.bpb.bytesPerSector <= |v.image|
  }

  /** Whether its clusters are whole sectors of the disk. */
  predicate Aligned(v: Volume) {
    v.bpb.DataOffset() % 512 == 0 && v.bpb.BytesPerCluster() % 512 == 0
  }

  /** The start of the sector that holds the byte at `p`. */
  function SectorStart(p: nat): nat { p - p % 512 }

  /** Where on the disk the last buffer ends that is read for `len` bytes from `p` on: buffers are always
      filled. */
  function BuffersEnd(p: nat, len: nat): nat
    requires len > 0
  {
    SectorsEnd(p + (len - 1) / DISK_BUFFER_SIZE * DISK_BUFFER_SIZE, DISK_BUFFER_SIZE)
  }

  /** Whether the disk goes on far enough behind cluster `n` to read it. */
  predicate Readable(v: Volume, n: nat)
    requires v.bpb.Sane() && n >= 2
  {
    v.bpb.BytesPerCluster() == 0 || BuffersEnd(v.base + v.bpb.ClusterStart(n), v.bpb.BytesPerCluster()) <= |v.image|
  }

  /** A cluster at the end of the disk can be read exactly if it starts with a sector and clusters are
      whole buffers. */
  lemma LastClusterReadableIff(v: Volume, n: nat)
    requires v.bpb.Sane() && n >= 2 && v.bpb.BytesPerCluster() > 0
    requires v.base + v.bpb.ClusterStart(n) + v.bpb.BytesPerCluster() == |v.image|
    ensures Readable(v, n) <==>
            (v.base + v.bpb.ClusterStart(n)) % 512 == 0 && v.bpb.BytesPerCluster() % DISK_BUFFER_SIZE == 0
  {
    hide Bpb.BytesPerCluster, Bpb.ClusterStart, BuffersEnd;
    BuffersEndIs(v.base + v.bpb.ClusterStart(n), v.bpb.BytesPerCluster());
  }

  predicate AllReadable(v: Volume, clusters: seq<nat>)
    requires v.bpb.Sane() && ValidClusters(v, clusters)
  {
    forall i | 0 <= i < |clusters| :: Readable(v, clusters[i])
  }

  predicate ValidClusters(v: Volume, clusters: seq<nat>)
    requires v.bpb.Sane()
  {
    forall i | 0 <= i < |clusters| :: 2 <= clusters[i] <= v.bpb.MaximumValidCluster()
  }

  /** The bytes of the clusters, one after the other. */
  function Contents(v: Volume, clusters: seq<nat>): (s: seq<Byte>)
    requires Loadable(v) && ValidClusters(v, clusters)
    ensures |s| == |clusters| * v.bpb.BytesPerCluster()
  {
    if clusters == [] then []
    else
      var k := |clusters| - 1;
      ClusterOnDisk(v, clusters[k]);
      Distribute(k, 1, v.bpb.BytesPerCluster());
      Contents(v, clusters[..k]) + v.ClusterBytes(clusters[k])
  }

  /** What is loaded for a cluster: its bytes, from the start of the sector on that it starts in. */
  function LoadedBytes(v: Volume, n: nat): (s: seq<Byte>)
    requires n >= 2 && v.base + v.bpb.ClusterStart(n) + v.bpb.BytesPerCluster() <= |v.image|
    ensures |s| == v.bpb.BytesPerCluster()
  {
    var p := SectorStart(v.base + v.bpb.ClusterStart(n));
    v.image[p..p + v.bpb.BytesPerCluster()]
  }

  /** What is loaded for the clusters, one after the other. */
  function Loaded(v: Volume, clusters: seq<nat>): (s: seq<Byte>)
    requires Loadable(v) && ValidClusters(v, clusters)
    ensures |s| == |clusters| * v.bpb.BytesPerCluster()
  {
    if clusters == [] then []
    else
      var k := |clusters| - 1;
      ClusterOnDisk(v, clusters[k]);
      Distribute(k, 1, v.bpb.BytesPerCluster());
      Loaded(v, clusters[..k]) + LoadedBytes(v, clusters[k])
  }

  /** If clusters are whole sectors, the two are the same. */
  lemma {:induction false} LoadedIsContents(v: Volume, clusters: seq<nat>)
    requires Loadable(v) && Aligned(v) && ValidClusters(v, clusters)
    ensures Loaded(v, clusters) == Contents(v, clusters)
  {
    if clusters != [] {
      var k := |clusters| - 1;
      LoadedIsContents(v, clusters[..k]);
      ClusterOnDisk(v, clusters[k]);
      ClusterInSectors(v, clusters[k]);
    }
  }

  /** What is loaded for a cluster is the cluster, whatever the disk holds, exactly if it starts with a
      sector. */
  lemma LoadedTrueIff(base: nat, bpb: Bpb, n: nat, size: nat)
    requires n >= 2 && bpb.BytesPerCluster() > 0 && base + bpb.ClusterStart(n) + bpb.BytesPerCluster() <= size
    ensures (forall image: seq<Byte> | |image| == size ::
               LoadedBytes(Volume(image, base, bpb), n) == Volume(image, base, bpb).ClusterBytes(n)) <==>
            (base + bpb.ClusterStart(n)) % 512 == 0
  {
    hide Bpb.ClusterStart, Bpb.BytesPerCluster;
    var p := base + bpb.ClusterStart(n);
    if p % 512 != 0 {
      var image := seq<Byte>(size, i => if i == p then 1 else 0);
      var v := Volume(image, base, bpb);
      assert LoadedBytes(v, n)[0] == image[SectorStart(p)] == 0;
      assert v.ClusterBytes(n)[0] == image[p] == 1;
    }
  }

  lemma ClusterOnDisk(v: Volume, n: nat)
    requires Loadable(v) && 2 <= n <= v.bpb.MaximumValidCluster()
    ensures v.base + v.bpb.ClusterStart(n) + v.bpb.BytesPerCluster() <= |v.image|
  {
    hide Bpb.DataOffset, Bpb.BytesPerCluster, Bpb.MaximumValidCluster;
    ClusterInside(v.bpb, n);
  }

  lemma ClusterInSectors(v: Volume, n: nat)
    requires v.Valid() && Aligned(v) && n >= 2
    ensures (v.base + v.bpb.ClusterStart(n)) % 512 == 0
  {
    hide Bpb.DataOffset, Bpb.BytesPerCluster;
    MulOfSectors(n - 2, v.bpb.BytesPerCluster());
    SumOfSectors(v.base, v.bpb.DataOffset(), (n - 2) * v.bpb.BytesPerCluster());
  }

  lemma SumOfSectors(a: nat, b: nat, c: nat)
    requires a % 512 == 0 && b % 512 == 0 && c % 512 == 0
    ensures (a + (b + c)) % 512 == 0
  {
    var k := a / 512 + b / 512 + c / 512;
    assert a + (b + c) == 512 * k;
  }

  lemma MulOfSectors(k: nat, c: nat)
    requires c % 512 == 0
    ensures k * c % 512 == 0
  {
    var q := c / 512;
    assert c == q * 512;
    Associate(k, q, 512);
    assert k * c == (k * q) * 512;
  }

  /** Writes bytes one by one, as unreal mode requires. */
  method CopyToProtectedMode(m: Machine, target: nat, bytes: seq<Byte>)
    requires target + |bytes| <= |m.ram|
    modifies m
    ensures m.ram == Splice(old(m.ram), target, bytes)
  {
    ghost var before := m.ram;
    for i := 0 to |bytes|
      invariant m.ram == Splice(before, target, bytes[..i])
    {
      m.ram := m.ram[target + i := bytes[i]];
      assert bytes[..i + 1] == bytes[..i] + [bytes[i]];
    }
    assert bytes[..|bytes|] == bytes;
  }

  /** One turn of the buffer loop: fills the buffer and copies `len` bytes of it to `dst`. */
  method CopyRange(disk: DiskAccess, m: Machine, b: Buffers, start: nat, len: nat, dst: nat) returns (r: Result<()>)
    requires b.Fit(m) && 0 < len <= DISK_BUFFER_SIZE
    requires LOW_MEMORY_END <= dst && dst + len <= |m.ram|
    modifies disk, m
    ensures b.Fit(m) && |m.ram| == |old(m.ram)|
    ensures r.Ok? <==> SectorsEnd(disk.baseOffset + start, DISK_BUFFER_SIZE) <= |disk.image|
    ensures r.Ok? ==> var p := SectorStart(disk.baseOffset + start);
                      && p + len <= |disk.image|
                      && High(m.ram) == Splice(High(old(m.ram)), dst - LOW_MEMORY_END, disk.image[p..p + len])
  {
    hide Splice, FirstSector, SectorCount, SectorStart, High;
    ghost var before, p := m.ram, disk.baseOffset + start;
    disk.Seek(start);
    SectorsMoved(p, DISK_BUFFER_SIZE);
    var _ :- disk.ReadExactInto(DISK_BUFFER_SIZE, m, b.disk);
    BufferStart(disk, before, m.ram, b.disk, p, len);
    var slice := m.ram[b.disk..][..len];
    HighSplice(m.ram, dst, slice);
    CopyToProtectedMode(m, dst, slice);
    r := Ok(());
  }

  /** The first bytes of a filled buffer. */
  lemma BufferStart(disk: DiskAccess, before: seq<Byte>, now: seq<Byte>, at: nat, p: nat, len: nat)
    requires SectorsEnd(p, DISK_BUFFER_SIZE) <= |disk.image| && len <= DISK_BUFFER_SIZE
    requires at + SectorCount(p, DISK_BUFFER_SIZE) * 512 <= |before|
    requires now == Splice(before, at, disk.Sectors(FirstSector(p), FirstSector(p) + SectorCount(p, DISK_BUFFER_SIZE)))
    ensures SectorStart(p) + len <= |disk.image| && at + len <= |now|
    ensures now[at..][..len] == disk.image[SectorStart(p)..SectorStart(p) + len]
  {
    hide Splice, SectorCount, FirstSector, SectorStart;
    BufferSectors(p);
    var to := FirstSector(p) + SectorCount(p, DISK_BUFFER_SIZE);
    SliceOfSplice(before, at, disk.Sectors(FirstSector(p), to), 0, len);
    disk.SectorsSlice(SectorStart(p), to, len);
  }

  lemma BufferSectors(p: nat)
    ensures SectorStart(p) % 512 == 0 && FirstSector(SectorStart(p)) == FirstSector(p)
    ensures SectorStart(p) + DISK_BUFFER_SIZE <= SectorsEnd(p, DISK_BUFFER_SIZE)
        && SectorStart(p) == FirstSector(p) * 512
  {
    SectorsMoved(p, DISK_BUFFER_SIZE);
    hide SectorCount;
  }

  lemma SliceNext(s: seq<Byte>, p: nat, mid: nat, end: nat)
    requires p <= mid <= end <= |s|
    ensures s[p..mid] + s[mid..end] == s[p..end]
  {
  }

  /** The turns of the buffer loop go on where the one before ended, also within sectors. */
  lemma NextBuffer(p: nat, offset: nat, len: nat)
    requires offset % DISK_BUFFER_SIZE == 0 && 0 < len <= DISK_BUFFER_SIZE
    ensures SectorStart(p + offset) == SectorStart(p) + offset
    ensures BuffersEnd(p, offset + len) == SectorsEnd(p + offset, DISK_BUFFER_SIZE)
  {
    assert (offset + len - 1) / DISK_BUFFER_SIZE * DISK_BUFFER_SIZE == offset;
  }

  /** Earlier buffers end earlier. */
  lemma BuffersEndGrows(p: nat, a: nat, b: nat)
    requires 0 < a <= b
    ensures BuffersEnd(p, a) <= BuffersEnd(p, b)
  {
    BuffersEndIs(p, a);
    BuffersEndIs(p, b);
    WholeBuffersGrow(a - 1, b - 1);
    hide BuffersEnd, SectorStart;
  }

  lemma WholeBuffersGrow(a: nat, b: nat)
    requires a <= b
    ensures a / DISK_BUFFER_SIZE * DISK_BUFFER_SIZE <= b / DISK_BUFFER_SIZE * DISK_BUFFER_SIZE
  {
    assert a / 0x4000 * 0x4000 <= b / 0x4000 * 0x4000;
  }

  lemma SectorsEndFrom(p: nat, buffers: nat)
    ensures SectorsEnd(p + buffers * DISK_BUFFER_SIZE, DISK_BUFFER_SIZE)
            == SectorStart(p) + buffers * DISK_BUFFER_SIZE + DISK_BUFFER_SIZE + (if p % 512 == 0 then 0 else 512)
  {
    var q := p + 512 * (32 * buffers);
    assert q % 512 == p % 512 && q / 512 == p / 512 + 32 * buffers;
    SectorsMoved(q, DISK_BUFFER_SIZE);
    hide SectorCount;
  }

  lemma BuffersEndIs(p: nat, len: nat)
    requires len > 0
    ensures BuffersEnd(p, len) == SectorStart(p) + (len - 1) / DISK_BUFFER_SIZE * DISK_BUFFER_SIZE + DISK_BUFFER_SIZE
                                  + (if p % 512 == 0 then 0 else 512)
  {
    hide SectorsEnd, SectorStart;
    var buffers := (len - 1) / DISK_BUFFER_SIZE;
    SectorsEndFrom(p, buffers);
    assert BuffersEnd(p, len) == SectorsEnd(p + buffers * DISK_BUFFER_SIZE, DISK_BUFFER_SIZE);
    hide BuffersEnd;
  }

  /** Whether a buffer of a cluster of `len` bytes may start at `offset`, or the cluster ends there. */
  predicate OnBuffer(offset: nat, len: nat) {
    offset % DISK_BUFFER_SIZE == 0 || offset == len
  }

  /** Whether `now` is `before` with `offset` bytes of the disk from `p` on copied to `at`. */
  ghost predicate Copied(image: seq<Byte>, p: nat, offset: nat, before: seq<Byte>, now: seq<Byte>, at: nat) {
    && p + offset <= |image| && at + offset <= |before|
    && now == Splice(before, at, image[p..p + offset])
  }

  lemma CopiedNone(image: seq<Byte>, p: nat, before: seq<Byte>, at: nat)
    requires p <= |image| && at <= |before|
    ensures Copied(image, p, 0, before, before, at)
  {
    SpliceNothing(before, at, image[p..p]);
  }

  lemma CopiedMore(image: seq<Byte>, before: seq<Byte>, now: seq<Byte>, after: seq<Byte>, at: nat, p: nat, offset: nat,
                   len: nat)
    requires p + offset + len <= |image| && at + offset + len <= |before|
    requires Copied(image, p, offset, before, now, at)
    requires after == Splice(now, at + offset, image[p + offset..p + offset + len])
    ensures Copied(image, p, offset + len, before, after, at)
  {
    hide Splice;
    SpliceTwice(before, at, image[p..p + offset], image[p + offset..p + offset + len]);
    SliceNext(image, p, p + offset, p + offset + len);
  }

  /** The turn of the buffer loop at `offset` into a cluster. */
  method CopyTurn(disk: DiskAccess, m: Machine, b: Buffers, c: Cluster, dst: nat, offset: nat, ghost p: nat,
                  ghost before: seq<Byte>)
    returns (r: Result<()>, len: nat)
    requires b.Fit(m) && offset < c.lenBytes && OnBuffer(offset, c.lenBytes)
    requires LOW_MEMORY_END <= dst && dst + c.lenBytes <= |m.ram| == LOW_MEMORY_END + |before|
    requires p == SectorStart(disk.baseOffset + c.startOffset)
    requires Copied(disk.image, p, offset, before, High(m.ram), dst - LOW_MEMORY_END)
    modifies disk, m
    ensures b.Fit(m) && |m.ram| == |old(m.ram)|
    ensures 0 < len && offset + len <= c.lenBytes && OnBuffer(offset + len, c.lenBytes)
    ensures r.Ok? <==> BuffersEnd(disk.baseOffset + c.startOffset, offset + len) <= |disk.image|
    ensures r.Ok? ==> Copied(disk.image, p, offset + len, before, High(m.ram), dst - LOW_MEMORY_END)
  {
    hide Splice, High, BuffersEnd, SectorStart, SectorsEnd, Copied;
    ghost var now := High(m.ram);
    var rangeStart, clusterEnd := c.startOffset + offset, c.startOffset + c.lenBytes;
    var rangeEnd := if rangeStart + DISK_BUFFER_SIZE < clusterEnd then rangeStart + DISK_BUFFER_SIZE else clusterEnd;
    len := rangeEnd - rangeStart;
    NextBuffer(disk.baseOffset + c.startOffset, offset, len);
    r := CopyRange(disk, m, b, rangeStart, len, dst + offset);
    if r.Ok? {
      CopiedMore(disk.image, before, now, High(m.ram), dst - LOW_MEMORY_END, p, offset, len);
    }
  }

  /** Copies one cluster to `dst`, a buffer at a time. */
  method CopyCluster(disk: DiskAccess, m: Machine, b: Buffers, c: Cluster, dst: nat) returns (r: Result<()>)
    requires b.Fit(m)
    requires LOW_MEMORY_END <= dst && dst + c.lenBytes <= |m.ram|
    requires disk.baseOffset + c.startOffset + c.lenBytes <= |disk.image|
    modifies disk, m
    ensures b.Fit(m) && |m.ram| == |old(m.ram)|
    ensures r.Ok? <==> c.lenBytes == 0 || BuffersEnd(disk.baseOffset + c.startOffset, c.lenBytes) <= |disk.image|
    ensures r.Ok? ==> Copied(disk.image, SectorStart(disk.baseOffset + c.startOffset), c.lenBytes,
                             High(old(m.ram)), High(m.ram), dst - LOW_MEMORY_END)
  {
    ghost var start := disk.baseOffset + c.startOffset;
    ghost var p := SectorStart(start);
    assert p <= start;
    hide Splice, High, BuffersEnd, SectorStart, OnBuffer, Copied;
    ghost var before, at := High(m.ram), dst - LOW_MEMORY_END;
    var offset: nat := 0;
    CopiedNone(disk.image, p, before, at);
    StartOnBuffer(c.lenBytes);
    while offset < c.lenBytes
      invariant offset <= c.lenBytes && OnBuffer(offset, c.lenBytes)
      invariant offset == 0 || BuffersEnd(start, offset) <= |disk.image|
      invariant b.Fit(m) && |m.ram| == |old(m.ram)|
      invariant Copied(disk.image, p, offset, before, High(m.ram), at)
    {
      var turn, len := CopyTurn(disk, m, b, c, dst, offset, p, before);
      BuffersEndGrows(start, offset + len, c.lenBytes);
      if turn.Err? {
        return turn;
      }
      offset := offset + len;
    }
    r := Ok(());
  }

  lemma StartOnBuffer(len: nat)
    ensures OnBuffer(0, len)
  {
  }

  lemma SpliceNothing(mem: seq<Byte>, at: nat, bytes: seq<Byte>)
    requires at <= |mem| && bytes == []
    ensures Splice(mem, at, bytes) == mem
  {
  }

  /** A file together with the chain of its clusters, as the table gives it. */
  datatype Stored = Stored(file: File, clusters: seq<nat>, ends: bool)

  /** Whether the chain of a file is the given one and long enough for its size. */
  ghost predicate OnVolume(v: Volume, f: Stored)
    requires Loadable(v)
  {
    && v.Chain(f.file.firstCluster, f.clusters, f.ends)
    && f.file.fileSize <= |f.clusters| * v.bpb.BytesPerCluster()
  }

  /** The clusters of a chain are valid. */
  lemma ChainIsValid(v: Volume, entry: nat, clusters: seq<nat>, ends: bool)
    requires v.bpb.Sane() && v.Chain(entry, clusters, ends)
    ensures ValidClusters(v, clusters)
  {
    forall i | 0 <= i < |clusters|
      ensures 2 <= clusters[i] <= v.bpb.MaximumValidCluster()
    {
      ChainSuffix(v, entry, clusters, ends, i);
    }
  }

  /** The bytes written to memory by loading a file: its clusters, so more than the file in general. */
  ghost function Written(v: Volume, f: Stored): (s: seq<Byte>)
    requires Loadable(v) && OnVolume(v, f)
    ensures |s| == |f.clusters| * v.bpb.BytesPerCluster() >= f.file.fileSize
  {
    ChainIsValid(v, f.file.firstCluster, f.clusters, f.ends);
    Loaded(v, f.clusters)
  }

  /** Whether a file can be loaded: its chain ends regularly, and the disk goes on far enough behind all
      its clusters. */
  ghost predicate FileReadable(v: Volume, f: Stored)
    requires Loadable(v) && OnVolume(v, f)
  {
    ChainIsValid(v, f.file.firstCluster, f.clusters, f.ends);
    f.ends && AllReadable(v, f.clusters)
  }

  /** What is loaded of a file. */
  ghost function FileBytes(v: Volume, f: Stored): (s: seq<Byte>)
    requires Loadable(v) && OnVolume(v, f)
    ensures |s| == f.file.fileSize
  {
    Written(v, f)[..f.file.fileSize]
  }

  /** If clusters are whole sectors, that is the file: the first bytes of its clusters. */
  lemma FileBytesAreStored(v: Volume, f: Stored)
    requires Loadable(v) && Aligned(v) && OnVolume(v, f)
    ensures ValidClusters(v, f.clusters) && f.file.fileSize <= |Contents(v, f.clusters)|
    ensures FileBytes(v, f) == Contents(v, f.clusters)[..f.file.fileSize]
  {
    hide Aligned, Loaded, Contents, Volume.Chain;
    ChainIsValid(v, f.file.firstCluster, f.clusters, f.ends);
    LoadedIsContents(v, f.clusters);
  }

  /** One step along a chain. */
  lemma ChainStep(v: Volume, entry: nat, clusters: seq<nat>, ends: bool, k: nat)
    requires v.bpb.Sane() && k <= |clusters| && v.Chain(entry, clusters[k..], ends)
    ensures k < |clusters| ==>
              && v.Kind(entry) == Ok(AllocatedCluster(clusters[k])) && v.EntryReadable(entry)
              && entry == clusters[k] && 2 <= entry <= v.bpb.MaximumValidCluster()
              && v.Chain(v.Next(entry), clusters[k + 1..], ends)
    ensures k == |clusters| ==>
              && (ends ==> v.Kind(entry) == Ok(EndOfFile))
              && (!ends ==> || v.Kind(entry).Err?
                            || (v.Kind(entry) == Ok(AllocatedCluster(entry)) && !v.EntryReadable(entry)))
  {
    if k < |clusters| {
      assert clusters[k..][1..] == clusters[k + 1..];
    }
  }

  lemma LoadedNext(v: Volume, clusters: seq<nat>, k: nat)
    requires Loadable(v) && ValidClusters(v, clusters) && k < |clusters|
    ensures v.base + v.bpb.ClusterStart(clusters[k]) + v.bpb.BytesPerCluster() <= |v.image|
    ensures Loaded(v, clusters[..k + 1]) == Loaded(v, clusters[..k]) + LoadedBytes(v, clusters[k])
  {
    ClusterOnDisk(v, clusters[k]);
    assert clusters[..k + 1][..k] == clusters[..k];
  }

  /** Copies cluster `n` of a volume. */
  method LoadCluster(disk: DiskAccess, m: Machine, b: Buffers, c: Cluster, dst: nat, ghost v: Volume)
    returns (r: Result<()>)
    requires b.Fit(m) && Loadable(v) && v.image == disk.image && v.base == disk.baseOffset
    requires 2 <= c.index <= v.bpb.MaximumValidCluster()
    requires c.startOffset == v.bpb.ClusterStart(c.index) && c.lenBytes == v.bpb.BytesPerCluster()
    requires LOW_MEMORY_END <= dst && dst + v.bpb.BytesPerCluster() <= |m.ram|
    modifies disk, m
    ensures b.Fit(m) && |m.ram| == |old(m.ram)|
    ensures v.base + v.bpb.ClusterStart(c.index) + v.bpb.BytesPerCluster() <= |v.image|
    ensures r.Ok? <==> Readable(v, c.index)
    ensures r.Ok? ==> High(m.ram) == Splice(High(old(m.ram)), dst - LOW_MEMORY_END, LoadedBytes(v, c.index))
  {
    hide Splice, High, Loadable, Bpb.BytesPerCluster, Bpb.ClusterStart;
    ClusterOnDisk(v, c.index);
    r := CopyCluster(disk, m, b, c, dst);
  }

  /** Follows the chain of a file and copies its clusters to `dst`. That fails if the chain leads to an
      entry that must not occur or cannot be read, or if the disk ends too soon behind a cluster. */
  method TryLoadFile(file: File, dst: nat, fsDisk: DiskAccess, disk: DiskAccess, m: Machine, b: Buffers,
                     bpb: Bpb, ghost v: Volume, ghost clusters: seq<nat>, ghost ends: bool)
    returns (r: Result<nat>)
    requires v == Volume(disk.image, disk.baseOffset, bpb) && Loadable(v)
    requires fsDisk != disk && fsDisk.image == disk.image && fsDisk.baseOffset == disk.baseOffset
    requires b.Fit(m) && v.Chain(file.firstCluster, clusters, ends)
    requires LOW_MEMORY_END <= dst && dst + |clusters| * v.bpb.BytesPerCluster() <= |m.ram|
    modifies fsDisk, disk, m
    ensures b.Fit(m) && |m.ram| == |old(m.ram)|
    ensures ValidClusters(v, clusters)
    ensures r.Ok? <==> ends && AllReadable(v, clusters)
    ensures r.Ok? ==> r.value == file.fileSize
    ensures r.Ok? ==> High(m.ram) == Splice(High(old(m.ram)), dst - LOW_MEMORY_END, Loaded(v, clusters))
    ensures r.Ok? && Aligned(v) ==> Loaded(v, clusters) == Contents(v, clusters)
  {
    hide Splice, High, Volume.Kind, Volume.Next, Volume.Chain, Bpb.BytesPerCluster, Bpb.ClusterStart, Loaded;
    hide Bpb.MaximumValidCluster, Volume.EntryReadable, Readable, Bpb.Sane, Bpb.DataOffset, Bpb.TotalSectors;
    ghost var before, at, size := High(m.ram), dst - LOW_MEMORY_END, bpb.BytesPerCluster();
    ChainIsValid(v, file.firstCluster, clusters, ends);
    var traverser := new Traverser(fsDisk, bpb, file.firstCluster);
    var totalOffset := 0;
    ghost var k := 0;
    assert clusters[0..] == clusters && |Loaded(v, clusters[..0])| == 0;
    SpliceNothing(before, at, Loaded(v, clusters[..0]));
    while true
      invariant 0 <= k <= |clusters| && totalOffset == k * size
      invariant v.Chain(traverser.currentEntry, clusters[k..], ends)
      invariant b.Fit(m) && |m.ram| == |old(m.ram)|
      invariant High(m.ram) == Splice(before, at, Loaded(v, clusters[..k]))
      invariant forall i | 0 <= i < k :: Readable(v, clusters[i])
      decreases |clusters| - k
    {
      ChainStep(v, traverser.currentEntry, clusters, ends, k);
      var next :- traverser.NextCluster(m, b.tmp, v);
      if next.None? {
        break;
      }
      MulLessEqual(k + 1, |clusters|, size);
      Distribute(k, 1, size);
      LoadedNext(v, clusters, k);
      var _ :- LoadCluster(disk, m, b, next.value, dst + totalOffset, v);
      SpliceTwice(before, at, Loaded(v, clusters[..k]), LoadedBytes(v, clusters[k]));
      totalOffset := totalOffset + next.value.lenBytes;
      k := k + 1;
    }
    assert clusters[..k] == clusters;
    if Aligned(v) {
      LoadedIsContents(v, clusters);
    }
    r := Ok(file.fileSize);
  }
}
