/** FAT12, FAT16 and FAT32 volumes as stage 2 reads them: geometry, table entries, cluster chains. */
module Fat {
  import opened Bytes
  import opened Outcomes
  import opened Disk
  import opened Arithmetic

  datatype FatType = Fat12 | Fat16 | Fat32

  /** The BIOS parameter block. */
  datatype Bpb = Bpb(
    bytesPerSector: nat, sectorsPerCluster: nat, reservedSectorCount: nat, numFats: nat,
    rootEntryCount: nat, totalSectors16: nat, fatSize16: nat, totalSectors32: nat, fatSize32: nat)
  {
    function FatSizeInSectors(): nat {
      if fatSize16 != 0 && fatSize32 == 0 then fatSize16 else fatSize32
    }

    function RootDirSectors(): nat
      requires bytesPerSector > 0
    {
      (rootEntryCount * 32 + (bytesPerSector - 1)) / bytesPerSector
    }

    function TotalSectors(): nat {
      if totalSectors16 != 0 then totalSectors16 else totalSectors32
    }

    /** The sectors before the data area. */
    function MetaSectors(): nat
      requires bytesPerSector > 0
    {
      reservedSectorCount + numFats * FatSizeInSectors() + RootDirSectors()
    }

    /** Sizes that make sense: otherwise a division or subtraction below fails. */
    predicate Sane() {
      bytesPerSector > 0 && sectorsPerCluster > 0 && MetaSectors() <= TotalSectors()
    }

    function CountOfClusters(): nat
      requires Sane()
    {
      (TotalSectors() - MetaSectors()) / sectorsPerCluster
    }

    function Type(): FatType
      requires Sane()
    {
      if CountOfClusters() < 4085 then Fat12
      else if CountOfClusters() < 65525 then Fat16
      else Fat32
    }

    function MaximumValidCluster(): nat
      requires Sane()
    {
      CountOfClusters() + 1
    }

    function FatOffset(): nat { reservedSectorCount * bytesPerSector }

    function DataOffset(): nat {
      rootEntryCount * 32 + (reservedSectorCount + FatSizeInSectors() * numFats) * bytesPerSector
    }

    function BytesPerCluster(): nat { bytesPerSector * sectorsPerCluster }

    /** Where cluster `n` starts in the volume. */
    function ClusterStart(n: nat): nat
      requires n >= 2
    {
      DataOffset() + (n - 2) * BytesPerCluster()
    }
  }

  // ---------------------------------------------------------------------------------------------
  // Geometry

  lemma RoundUp(x: nat, b: nat)
    requires b > 0
    ensures (x + (b - 1)) / b * b >= x
    ensures (x + (b - 1)) / b * b == x <==> x % b == 0
  {
    var q, r := (x + (b - 1)) / b, (x + (b - 1)) % b;
    assert x + (b - 1) == q * b + r;
    if x % b == 0 {
      var k := x / b;
      assert x == k * b;
      MulLess(q, k, b);
      MulLess(k, q, b);
    } else {
      MulMod(q, b);
    }
  }

  /** The data area starts at the sector the FAT specification gives (section "FAT Data Structure")
      exactly when the root directory fills whole sectors; the code adds its size in bytes. */
  lemma DataOffsetIff(p: Bpb)
    requires p.bytesPerSector > 0
    ensures p.DataOffset() == p.MetaSectors() * p.bytesPerSector <==> p.rootEntryCount * 32 % p.bytesPerSector == 0
    ensures p.DataOffset() <= p.MetaSectors() * p.bytesPerSector
  {
    var b := p.bytesPerSector;
    var fats := p.reservedSectorCount + p.numFats * p.FatSizeInSectors();
    RoundUp(p.rootEntryCount * 32, b);
    assert p.numFats * p.FatSizeInSectors() == p.FatSizeInSectors() * p.numFats;
    Distribute(fats, p.RootDirSectors(), b);
  }

  /** A root directory of 17 entries leaves its second sector half empty: the data area begins 480 bytes
      before the sector the FAT specification asks for. */
  lemma DataOffsetTooSmall()
    ensures var p := Bpb(512, 1, 1, 2, 17, 100, 1, 0, 0);
            && p.Sane() && p.DataOffset() == 2080 && p.MetaSectors() * p.bytesPerSector == 2560
            && p.ClusterStart(2) % 512 == 32
  {
  }

  /** Different clusters have different bytes. */
  lemma ClustersApart(p: Bpb, m: nat, n: nat)
    requires 2 <= m < n
    ensures p.ClusterStart(m) + p.BytesPerCluster() <= p.ClusterStart(n)
  {
    MulLess(m - 2, n - 2, p.BytesPerCluster());
  }

  /** Every valid cluster lies between the start of the data area and the end of the volume. */
  lemma ClusterInside(p: Bpb, n: nat)
    requires p.Sane() && 2 <= n <= p.MaximumValidCluster()
    ensures p.DataOffset() <= p.ClusterStart(n)
    ensures p.ClusterStart(n) + p.BytesPerCluster() <= p.TotalSectors() * p.bytesPerSector
  {
    DataOffsetIff(p);
    MulLessEqual(n - 1, p.CountOfClusters(), p.sectorsPerCluster);
    DivMul(p.TotalSectors() - p.MetaSectors(), p.sectorsPerCluster);
    ClustersFit(p.DataOffset(), p.MetaSectors(), p.TotalSectors(), p.bytesPerSector, p.sectorsPerCluster, n - 2);
  }

  lemma ClustersFit(start: nat, meta: nat, total: nat, b: nat, s: nat, k: nat)
    requires start <= meta * b && (k + 1) * s <= total - meta
    ensures 0 <= k * (b * s) && start + k * (b * s) + b * s <= total * b
  {
    MulLessEqual((k + 1) * s, total - meta, b);
    Associate(k + 1, s, b);
    Distribute(k, 1, b * s);
    Distribute(meta, total - meta, b);
  }

  /** Whether a parameter block gives each of its two sizes in one of the two fields for it. */
  predicate OneField(p: Bpb) {
    (p.totalSectors16 == 0 || p.totalSectors32 == 0) && (p.fatSize16 == 0 || p.fatSize32 == 0)
  }

  /** Cluster `n` exists exactly if it ends within the volume, behind reserved sectors, tables and the `r`
      sectors that the root directory takes. */
  lemma ClusterExistsIff(p: Bpb, n: nat, r: nat)
    requires p.Sane() && OneField(p) && n >= 2
    requires p.rootEntryCount * 32 <= r * p.bytesPerSector < p.rootEntryCount * 32 + p.bytesPerSector
    ensures n <= p.MaximumValidCluster() <==>
            p.reservedSectorCount + p.numFats * (p.fatSize16 + p.fatSize32) + r + (n - 1) * p.sectorsPerCluster
            <= p.totalSectors16 + p.totalSectors32
  {
    var x, b := p.rootEntryCount * 32, p.bytesPerSector;
    Distribute(r, -1, b);
    QuotientIs(x + (b - 1), b, r, x + (b - 1) - r * b);
    var data, s := p.TotalSectors() - p.MetaSectors(), p.sectorsPerCluster;
    DivMul(data, s);
    MulLess(data / s, n - 1, s);
    MulLess(n - 1, data / s, s);
  }

  /** Where the clusters lie in the volume. */
  lemma ClusterPosition(p: Bpb, n: nat)
    requires OneField(p) && n >= 2
    ensures p.ClusterStart(n) == (p.reservedSectorCount + p.numFats * (p.fatSize16 + p.fatSize32)) * p.bytesPerSector
                                 + p.rootEntryCount * 32 + (n - 2) * (p.bytesPerSector * p.sectorsPerCluster)
    ensures p.BytesPerCluster() == p.bytesPerSector * p.sectorsPerCluster
  {
    assert p.numFats * p.FatSizeInSectors() == p.FatSizeInSectors() * p.numFats;
    assert p.FatSizeInSectors() == p.fatSize16 + p.fatSize32;
  }

  // ---------------------------------------------------------------------------------------------
  // Table entries

  function DefectiveMark(t: FatType): nat {
    match t
    case Fat12 => 0xFF7
    case Fat16 => 0xFFF7
    case Fat32 => 0x0FFF_FFF7
  }

  datatype FileFatEntry = AllocatedCluster(n: nat) | EndOfFile

  function Classify(t: FatType, entry: nat, maximumValidCluster: nat): Result<FileFatEntry> {
    if entry == 0 then Err(Rejected("free cluster"))
    else if entry == 1 then Err(Rejected("unspecified entry one"))
    else if entry <= maximumValidCluster then Ok(AllocatedCluster(entry))
    else if entry < DefectiveMark(t) then Err(Rejected("reserved entry"))
    else if entry == DefectiveMark(t) then Err(Rejected("defective cluster"))
    else Ok(EndOfFile)
  }

  /** The first entry value that marks the end of a file (section "FAT Data Structure" of the FAT
      specification), by the number of clusters (section "FAT Type Determination"). */
  function EndMark(count: nat): nat {
    if count < 4085 then 0xFF8 else if count < 65525 then 0xFFF8 else 0x0FFF_FFF8
  }

  /** What the entries of a volume mean: the clusters are numbered from 2 on, everything from the mark on
      ends a file, and nothing else may occur in a chain. The limits on the number of clusters keep the
      two apart; on FAT32 that holds as long as the clusters stay below the mark. */
  lemma EntryMeaning(p: Bpb, entry: nat)
    requires p.Sane() && p.CountOfClusters() < 0x0FFF_FFF6
    ensures var kind, count := Classify(p.Type(), entry, p.MaximumValidCluster()), p.CountOfClusters();
            var end := if count < 4085 then 0xFF8 else if count < 65525 then 0xFFF8 else 0x0FFF_FFF8;
            && (kind == Ok(AllocatedCluster(entry)) <==> 2 <= entry <= count + 1)
            && (kind == Ok(EndOfFile) <==> entry >= end)
            && (kind.Err? <==> entry < 2 || count + 1 < entry < end)
  {
  }

  /** Where entry `n` starts in the table, and how many bytes are read for it. */
  function EntryOffset(t: FatType, n: nat): nat {
    match t
    case Fat12 => n + n / 2
    case Fat16 => n * 2
    case Fat32 => n * 4
  }

  function EntryLength(t: FatType): nat { if t == Fat32 then 4 else 2 }

  function DecodeEntry(t: FatType, n: nat, raw: seq<Byte>): nat {
    match t
    case Fat32 => FromLE(raw) % 0x1000_0000
    case Fat16 => FromLE(raw)
    case Fat12 => if n % 2 == 0 then FromLE(raw) % 0x1000 else FromLE(raw) / 16
  }

  predicate Below(entries: seq<nat>, limit: nat) {
    forall i | 0 <= i < |entries| :: entries[i] < limit
  }

  /** The bytes of a table with the given entries; on FAT32 the top four bits of each are reserved. */
  function Pack12(entries: seq<nat>): seq<Byte>
    requires Below(entries, 0x1000)
  {
    if entries == [] then []
    else if |entries| == 1 then [entries[0] % 256, entries[0] / 256]
    else
      [entries[0] % 256, entries[0] / 256 + entries[1] % 16 * 16, entries[1] / 16] + Pack12(entries[2..])
  }

  function PackWords(entries: seq<nat>, width: nat): (s: seq<Byte>)
    ensures |s| == |entries| * width
  {
    if entries == [] then [] else ToLE(entries[0], width) + PackWords(entries[1..], width)
  }

  /** The table of a volume type. */
  function Pack(t: FatType, entries: seq<nat>): seq<Byte>
    requires t == Fat12 ==> Below(entries, 0x1000)
  {
    match t
    case Fat12 => Pack12(entries)
    case Fat16 => PackWords(entries, 2)
    case Fat32 => PackWords(entries, 4)
  }

  /** Two entries in three bytes. */
  lemma ThreeBytes(e0: nat, e1: nat)
    requires e0 < 0x1000 && e1 < 0x1000
    ensures DecodeEntry(Fat12, 0, [e0 % 256, e0 / 256 + e1 % 16 * 16]) == e0
    ensures DecodeEntry(Fat12, 1, [e0 / 256 + e1 % 16 * 16, e1 / 16]) == e1
    ensures DecodeEntry(Fat12, 0, [e0 % 256, e0 / 256]) == e0
  {
    PairLE(e0 % 256, e0 / 256 + e1 % 16 * 16);
    PairLE(e0 / 256 + e1 % 16 * 16, e1 / 16);
    PairLE(e0 % 256, e0 / 256);
  }

  lemma {:induction false} Pack12Entry(entries: seq<nat>, n: nat)
    requires n < |entries| && Below(entries, 0x1000)
    ensures n + n / 2 + 2 <= |Pack12(entries)|
    ensures DecodeEntry(Fat12, n, Pack12(entries)[n + n / 2..n + n / 2 + 2]) == entries[n]
  {
    hide DecodeEntry;
    var s := Pack12(entries);
    ThreeBytes(entries[0], if |entries| > 1 then entries[1] else 0);
    if n < 2 {
      assert s[n..n + 2] == [s[n], s[n + 1]];
    } else {
      var m := n - 2;
      Pack12Entry(entries[2..], m);
      assert n + n / 2 == 3 + (m + m / 2);
      assert s[n + n / 2..n + n / 2 + 2] == Pack12(entries[2..])[m + m / 2..m + m / 2 + 2];
      SameParity(m, s[n + n / 2..n + n / 2 + 2]);
    }
  }

  lemma SameParity(n: nat, raw: seq<Byte>)
    ensures DecodeEntry(Fat12, n + 2, raw) == DecodeEntry(Fat12, n, raw)
  {
  }

  lemma PairLE(a: Byte, b: Byte)
    ensures FromLE([a, b]) == a + 256 * b
  {
    assert [a, b][1..] == [b];
    assert [b][1..] == [];
  }

  lemma {:induction false} PackWordsEntry(entries: seq<nat>, width: nat, n: nat)
    requires n < |entries|
    ensures n * width + width <= |PackWords(entries, width)|
    ensures PackWords(entries, width)[n * width..n * width + width] == ToLE(entries[n], width)
  {
    var first, rest := ToLE(entries[0], width), PackWords(entries[1..], width);
    if n > 0 {
      PackWordsEntry(entries[1..], width, n - 1);
      Distribute(n - 1, 1, width);
      SliceBehind(first, rest, (n - 1) * width, (n - 1) * width + width);
    }
  }

  lemma SliceBehind(a: seq<Byte>, b: seq<Byte>, from: nat, to: nat)
    requires from <= to <= |b|
    ensures (a + b)[|a| + from..|a| + to] == b[from..to]
  {
  }

  /** Looking up entry `n` in a packed table gives the entry, for every width and position; entries of
      FAT12 that share a byte included. */
  lemma LookupInvertsPack(t: FatType, entries: seq<nat>, n: nat)
    requires n < |entries|
    requires t == Fat12 ==> Below(entries, 0x1000)
    requires t == Fat16 ==> Below(entries, 0x1_0000)
    requires t == Fat32 ==> Below(entries, 0x1_0000_0000)
    ensures EntryOffset(t, n) + EntryLength(t) <= |Pack(t, entries)|
    ensures DecodeEntry(t, n, Pack(t, entries)[EntryOffset(t, n)..EntryOffset(t, n) + EntryLength(t)]) ==
            if t == Fat32 then entries[n] % 0x1000_0000 else entries[n]
  {
    hide FromLE, ToLE, Pack12, PackWords, Capacity;
    Capacities();
    match t
    case Fat12 => Pack12Entry(entries, n);
    case Fat16 =>
      PackWordsEntry(entries, 2, n);
      FromToLE(entries[n], 2);
    case Fat32 =>
      PackWordsEntry(entries, 4, n);
      FromToLE(entries[n], 4);
  }

  // ---------------------------------------------------------------------------------------------
  // Cluster chains

  /** A volume on the disk. */
  datatype Volume = Volume(image: seq<Byte>, base: nat, bpb: Bpb) {
    predicate Valid() {
      bpb.Sane() && base % 512 == 0
    }

    /** Where entry `n` of the table lies on the disk. */
    function EntryPosition(n: nat): nat
      requires bpb.Sane()
    {
      base + bpb.FatOffset() + EntryOffset(bpb.Type(), n)
    }

    /** Whether the disk has the two or three sectors that are read to look up entry `n`. */
    predicate EntryReadable(n: nat)
      requires bpb.Sane()
    {
      SectorsEnd(EntryPosition(n), 1024) <= |image|
    }

    /** The table entry of cluster `n`. */
    function Next(n: nat): nat
      requires bpb.Sane() && EntryReadable(n)
    {
      SectorBounds(EntryPosition(n));
      DecodeEntry(bpb.Type(), n, image[EntryPosition(n)..EntryPosition(n) + EntryLength(bpb.Type())])
    }

    function Kind(entry: nat): Result<FileFatEntry>
      requires bpb.Sane()
    {
      Classify(bpb.Type(), entry, bpb.MaximumValidCluster())
    }

    /** Whether `entry` is a cluster whose own entry can be looked up. */
    predicate Continues(entry: nat)
      requires bpb.Sane()
    {
      Kind(entry) == Ok(AllocatedCluster(entry)) && EntryReadable(entry)
    }

    /** Whether following the table from `entry` gives `clusters` and then ends: at the end of the file
        if `ends`, otherwise at an entry that must not occur in a chain or cannot be followed. */
    ghost predicate Chain(entry: nat, clusters: seq<nat>, ends: bool)
      requires bpb.Sane()
      decreases |clusters|
    {
      if clusters == [] then
        !Continues(entry) && (ends <==> Kind(entry) == Ok(EndOfFile))
      else
        entry == clusters[0] && Continues(entry) && Chain(Next(entry), clusters[1..], ends)
    }

    /** The entry after `k` steps along the table, if the steps can be made. */
    ghost function Walk(entry: nat, k: nat): Option<nat>
      requires bpb.Sane()
    {
      if k == 0 then Some(entry)
      else
        var before := Walk(entry, k - 1);
        if before.Some? && Continues(before.value) then Some(Next(before.value)) else None
    }

    /** Whether step `k` of the walk is at a cluster. */
    ghost predicate Visits(entry: nat, k: nat)
      requires bpb.Sane()
    {
      Walk(entry, k).Some? && Continues(Walk(entry, k).value)
    }

    /** Whether the walk is at the end of a file after `k` steps. */
    ghost predicate Ends(entry: nat, k: nat)
      requires bpb.Sane()
    {
      Walk(entry, k).Some? && Kind(Walk(entry, k).value) == Ok(EndOfFile)
    }

    /** Whether the first steps of the walk, one more than there are clusters, repeat no cluster. */
    ghost predicate RepeatsNone(entry: nat)
      requires bpb.Sane()
    {
      forall i, j | 0 <= i < j <= bpb.CountOfClusters() && Visits(entry, i) && Visits(entry, j) ::
        Walk(entry, i) != Walk(entry, j)
    }

    /** The bytes of a cluster. */
    function ClusterBytes(n: nat): seq<Byte>
      requires n >= 2 && base + bpb.ClusterStart(n) + bpb.BytesPerCluster() <= |image|
    {
      image[base + bpb.ClusterStart(n)..base + bpb.ClusterStart(n) + bpb.BytesPerCluster()]
    }
  }

  function At(s: seq<Byte>, i: int): int
    requires 0 <= i < |s|
  {
    s[i]
  }

  /** The entry of a cluster, from the bytes on the disk (section "FAT Data Structure"): 12 bits, of which
      two entries share three bytes, 16 bits, or the lower 28 of 32 bits. */
  lemma NextOnDisk(v: Volume, n: nat)
    requires v.bpb.Sane() && v.EntryReadable(n)
    ensures var count, b := v.bpb.CountOfClusters(), v.image;
            var fat := v.base + v.bpb.reservedSectorCount * v.bpb.bytesPerSector;
            if count < 4085 then
              var i := fat + n + n / 2;
              && i + 2 <= |b|
              && v.Next(n) == (if n % 2 == 0 then At(b, i) + At(b, i + 1) % 16 * 256
                               else At(b, i) / 16 + At(b, i + 1) * 16)
            else if count < 65525 then
              var i := fat + 2 * n; i + 2 <= |b| && v.Next(n) == At(b, i) + At(b, i + 1) * 256
            else
              var i := fat + 4 * n;
              && i + 4 <= |b|
              && v.Next(n) == At(b, i) + At(b, i + 1) * 256 + At(b, i + 2) * 0x1_0000 + At(b, i + 3) % 16 * 0x100_0000
  {
    var i, b := v.EntryPosition(n), v.image;
    SectorBounds(i);
    hide Volume.EntryReadable, Bpb.CountOfClusters, DecodeEntry, At;
    if v.bpb.Type() == Fat32 {
      FourBytes(b, i, n);
    } else {
      TwoBytes(b, i, n);
    }
  }

  lemma TwoBytes(b: seq<Byte>, i: nat, n: nat)
    requires i + 2 <= |b|
    ensures DecodeEntry(Fat12, n, b[i..i + 2]) == if n % 2 == 0 then At(b, i) + At(b, i + 1) % 16 * 256
                                                  else At(b, i) / 16 + At(b, i + 1) * 16
    ensures DecodeEntry(Fat16, n, b[i..i + 2]) == At(b, i) + At(b, i + 1) * 256
  {
    assert b[i..i + 2] == [b[i], b[i + 1]];
    PairLE(b[i], b[i + 1]);
    hide FromLE;
  }

  lemma FourBytes(b: seq<Byte>, i: nat, n: nat)
    requires i + 4 <= |b|
    ensures DecodeEntry(Fat32, n, b[i..i + 4]) ==
            At(b, i) + At(b, i + 1) * 256 + At(b, i + 2) * 0x1_0000 + At(b, i + 3) % 16 * 0x100_0000
  {
    assert b[i..i + 4] == [b[i], b[i + 1], b[i + 2], b[i + 3]];
    QuadLE(b[i], b[i + 1], b[i + 2], b[i + 3]);
    hide FromLE;
  }

  lemma QuadLE(a: Byte, b: Byte, c: Byte, d: Byte)
    ensures FromLE([a, b, c, d]) == a + 256 * b + 0x1_0000 * c + 0x100_0000 * d
    ensures FromLE([a, b, c, d]) % 0x1000_0000 == a + 256 * b + 0x1_0000 * c + 0x100_0000 * (d % 16)
  {
    assert [a, b, c, d][1..] == [b, c, d] && [b, c, d][1..] == [c, d];
    PairLE(c, d);
  }

  /** Whether the disk has a table with the given entries for all clusters of a volume. */
  ghost predicate HasTable(v: Volume, entries: seq<nat>)
    requires v.bpb.Sane()
  {
    var count := v.bpb.CountOfClusters();
    var t := if count < 4085 then Fat12 else if count < 65525 then Fat16 else Fat32;
    var fat := v.base + v.bpb.reservedSectorCount * v.bpb.bytesPerSector;
    && count + 2 <= |entries|
    && Below(entries, if t == Fat12 then 0x1000 else if t == Fat16 then 0x1_0000 else 0x1_0000_0000)
    && fat + |Pack(t, entries)| <= |v.image| && v.image[fat..fat + |Pack(t, entries)|] == Pack(t, entries)
    && forall n | 2 <= n <= count + 1 :: v.EntryReadable(n)
  }

  lemma NextInTable(v: Volume, entries: seq<nat>, n: nat)
    requires v.bpb.Sane() && HasTable(v, entries) && 2 <= n <= v.bpb.CountOfClusters() + 1
    ensures v.EntryReadable(n) && v.Next(n) == entries[n] % 0x1000_0000
  {
    hide Volume.EntryReadable;
    var t, fat := v.bpb.Type(), v.base + v.bpb.FatOffset();
    LookupInvertsPack(t, entries, n);
    hide Pack, Bpb.FatOffset, Bpb.CountOfClusters, DecodeEntry, EntryOffset;
    var at, len := EntryOffset(t, n), EntryLength(t);
    SliceInside(v.image, fat, |Pack(t, entries)|, at, at + len);
  }

  lemma SliceInside(s: seq<Byte>, from: nat, len: nat, a: nat, b: nat)
    requires from + len <= |s| && a <= b <= len
    ensures s[from..from + len][a..b] == s[from + a..from + b]
  {
    var part, whole := s[from..from + len][a..b], s[from + a..from + b];
    assert |part| == |whole| && forall i | 0 <= i < |part| :: part[i] == whole[i];
  }

  /** Whether `clusters` are those of a file that starts at `entry`, by the entries of a table alone. */
  ghost predicate IsFile(entries: seq<nat>, count: nat, entry: nat, clusters: seq<nat>)
    requires count + 2 <= |entries|
    decreases |clusters|
  {
    if clusters == [] then entry >= EndMark(count)
    else
      && entry == clusters[0] && 2 <= entry <= count + 1
      && IsFile(entries, count, entries[entry] % 0x1000_0000, clusters[1..])
  }

  /** On a disk with a table, the code follows the table: a chain that ends regularly is a file of it. */
  lemma {:induction false} ChainInTable(v: Volume, entries: seq<nat>, entry: nat, clusters: seq<nat>)
    requires v.bpb.Sane() && HasTable(v, entries) && v.bpb.CountOfClusters() < 0x0FFF_FFF6
    ensures v.Chain(entry, clusters, true) <==> IsFile(entries, v.bpb.CountOfClusters(), entry, clusters)
    decreases |clusters|
  {
    hide HasTable, Classify, Bpb.CountOfClusters, Volume.EntryReadable, Volume.Next, Bpb.Type;
    EntryMeaning(v.bpb, entry);
    TableIsLong(v, entries);
    if clusters != [] && entry == clusters[0] && 2 <= entry <= v.bpb.CountOfClusters() + 1 {
      NextInTable(v, entries, entry);
      ChainInTable(v, entries, v.Next(entry), clusters[1..]);
    }
  }

  lemma TableIsLong(v: Volume, entries: seq<nat>)
    requires v.bpb.Sane() && HasTable(v, entries)
    ensures v.bpb.CountOfClusters() + 2 <= |entries|
  {
  }

  /** The chain from an entry is unique. */
  lemma {:induction false} ChainUnique(v: Volume, entry: nat, a: seq<nat>, b: seq<nat>, aEnds: bool, bEnds: bool)
    requires v.bpb.Sane() && v.Chain(entry, a, aEnds) && v.Chain(entry, b, bEnds)
    ensures a == b && aEnds == bEnds
    decreases |a|
  {
    if a != [] && b != [] {
      ChainUnique(v, v.Next(entry), a[1..], b[1..], aEnds, bEnds);
      assert a == [a[0]] + a[1..] && b == [b[0]] + b[1..];
    }
  }

  /** The rest of a chain is the chain from there. */
  lemma {:induction false} ChainSuffix(v: Volume, entry: nat, clusters: seq<nat>, ends: bool, i: nat)
    requires v.bpb.Sane() && v.Chain(entry, clusters, ends) && i < |clusters|
    ensures 2 <= clusters[i] <= v.bpb.MaximumValidCluster() && v.Chain(clusters[i], clusters[i..], ends)
    decreases i
  {
    if i == 0 {
      assert clusters[0..] == clusters;
    } else {
      ChainSuffix(v, v.Next(entry), clusters[1..], ends, i - 1);
      assert clusters[1..][i - 1..] == clusters[i..];
    }
  }

  /** A chain that ends visits no cluster twice, so it has at most as many clusters as the volume. */
  lemma ChainVisitsOnce(v: Volume, entry: nat, clusters: seq<nat>, ends: bool)
    requires v.bpb.Sane() && v.Chain(entry, clusters, ends)
    ensures forall i, j | 0 <= i < j < |clusters| :: clusters[i] != clusters[j]
    ensures |clusters| <= v.bpb.CountOfClusters()
  {
    forall i, j | 0 <= i < j < |clusters|
      ensures clusters[i] != clusters[j]
    {
      if clusters[i] == clusters[j] {
        ChainSuffix(v, entry, clusters, ends, i);
        ChainSuffix(v, entry, clusters, ends, j);
        ChainUnique(v, clusters[i], clusters[i..], clusters[j..], ends, ends);
      }
    }
    forall i | 0 <= i < |clusters|
      ensures 2 <= clusters[i] < v.bpb.MaximumValidCluster() + 1
    {
      ChainSuffix(v, entry, clusters, ends, i);
    }
    Pigeonhole(clusters, 2, v.bpb.MaximumValidCluster() + 1);
  }

  /** After `i` steps along a chain the rest of it lies ahead. */
  lemma {:induction false} WalkOnChain(v: Volume, entry: nat, clusters: seq<nat>, ends: bool, i: nat)
    requires v.bpb.Sane() && v.Chain(entry, clusters, ends) && i <= |clusters|
    ensures v.Walk(entry, i).Some? && v.Chain(v.Walk(entry, i).value, clusters[i..], ends)
    ensures v.Visits(entry, i) <==> i < |clusters|
    ensures i < |clusters| ==> v.Walk(entry, i).value == clusters[i]
  {
    hide Volume.Continues, Volume.Kind, Volume.Next;
    if i == 0 {
      assert clusters[0..] == clusters;
    } else {
      WalkOnChain(v, entry, clusters, ends, i - 1);
      assert clusters[i - 1..][1..] == clusters[i..];
    }
  }

  /** A walk that has stopped goes no further. */
  lemma {:induction false} WalkStops(v: Volume, entry: nat, k: nat, i: nat)
    requires v.bpb.Sane() && k <= i && !v.Visits(entry, k)
    ensures !v.Visits(entry, i)
    decreases i
  {
    hide Volume.Continues, Volume.Next;
    if k < i {
      WalkStops(v, entry, k, i - 1);
    }
  }

  /** A walk that is at a cluster up to step `k` and not at step `k` has a chain from every step. */
  lemma {:induction false} ChainOfWalk(v: Volume, entry: nat, i: nat, k: nat) returns (clusters: seq<nat>)
    requires v.bpb.Sane() && i <= k && !v.Visits(entry, k) && forall j | 0 <= j < k :: v.Visits(entry, j)
    ensures v.Walk(entry, i).Some?
    ensures var e := v.Walk(entry, i).value; v.Chain(e, clusters, v.Ends(entry, k))
    decreases k - i
  {
    assert i > 0 ==> v.Visits(entry, i - 1);
    clusters := [];
    if i < k {
      assert v.Visits(entry, i);
      var rest := ChainOfWalk(v, entry, i + 1, k);
      clusters := [v.Walk(entry, i).value] + rest;
      assert clusters[1..] == rest;
    }
  }

  /** Following the table from an entry comes to an end exactly if it repeats no cluster within as many
      steps as there are clusters and one: the cluster loop ends on those chains and no others. */
  lemma ChainExistsIff(v: Volume, entry: nat)
    requires v.bpb.Sane()
    ensures (exists clusters, ends :: v.Chain(entry, clusters, ends)) <==> v.RepeatsNone(entry)
  {
    hide Volume.Chain, Volume.RepeatsNone;
    if clusters, ends :| v.Chain(entry, clusters, ends) {
      ChainRepeatsNone(v, entry, clusters, ends);
    }
    if v.RepeatsNone(entry) {
      var k := FirstStop(v, entry);
      var clusters := ChainOfWalk(v, entry, 0, k);
      assert v.Walk(entry, 0) == Some(entry);
    }
  }

  lemma ChainRepeatsNone(v: Volume, entry: nat, clusters: seq<nat>, ends: bool)
    requires v.bpb.Sane() && v.Chain(entry, clusters, ends)
    ensures v.RepeatsNone(entry)
  {
    hide Volume.Chain, Volume.Visits, Volume.Walk;
    ChainVisitsOnce(v, entry, clusters, ends);
    WalkOnChain(v, entry, clusters, ends, |clusters|);
    forall i, j | 0 <= i < j <= v.bpb.CountOfClusters() && v.Visits(entry, i) && v.Visits(entry, j)
      ensures v.Walk(entry, i) != v.Walk(entry, j)
    {
      if j >= |clusters| {
        WalkStops(v, entry, |clusters|, j);
      } else {
        WalkOnChain(v, entry, clusters, ends, i);
        WalkOnChain(v, entry, clusters, ends, j);
      }
    }
  }

  /** Without a repetition the walk leaves the clusters within as many steps as there are clusters. */
  lemma FirstStop(v: Volume, entry: nat) returns (k: nat)
    requires v.bpb.Sane() && v.RepeatsNone(entry)
    ensures k <= v.bpb.CountOfClusters() && !v.Visits(entry, k) && forall j | 0 <= j < k :: v.Visits(entry, j)
  {
    var n := v.bpb.CountOfClusters();
    if forall j | 0 <= j <= n :: v.Visits(entry, j) {
      var s := seq<nat>(n + 1, i requires 0 <= i < n + 1 => assert v.Visits(entry, i); v.Walk(entry, i).value);
      forall i | 0 <= i < |s|
        ensures 2 <= s[i] < v.bpb.MaximumValidCluster() + 1
      {
        assert v.Visits(entry, i);
      }
      forall i, j | 0 <= i < j < |s|
        ensures s[i] != s[j]
      {
        assert v.Visits(entry, i) && v.Visits(entry, j);
      }
      Pigeonhole(s, 2, v.bpb.MaximumValidCluster() + 1);
    }
    k := 0;
    while k <= n && v.Visits(entry, k)
      invariant 0 <= k <= n + 1 && forall j | 0 <= j < k :: v.Visits(entry, j)
    {
      k := k + 1;
    }
  }

  lemma {:induction false} Pigeonhole(s: seq<nat>, lo: nat, hi: nat)
    requires forall i | 0 <= i < |s| :: lo <= s[i] < hi
    requires forall i, j | 0 <= i < j < |s| :: s[i] != s[j]
    requires lo <= hi
    ensures |s| <= hi - lo
    decreases hi
  {
    if s != [] {
      assert lo <= s[0] < hi;
      if k :| 0 <= k < |s| && s[k] == hi - 1 {
        Pigeonhole(s[..k] + s[k + 1..], lo, hi - 1);
      } else {
        Pigeonhole(s, lo, hi - 1);
      }
    }
  }

  // ---------------------------------------------------------------------------------------------
  // Following a chain on the disk

  datatype Cluster = Cluster(index: nat, startOffset: nat, lenBytes: nat)

  /** Looks up a table entry. */
  method FatEntryOfNthCluster(disk: DiskAccess, m: Machine, buffer: nat, ghost v: Volume, t: FatType, fatStart: nat,
                              n: nat)
    returns (r: Result<nat>)
    requires v.Valid() && v.image == disk.image && v.base == disk.baseOffset
    requires t == v.bpb.Type() && fatStart == v.bpb.FatOffset()
    requires buffer + 1536 <= LOW_MEMORY_END <= |m.ram|
    modifies disk, m
    ensures r.Ok? <==> v.EntryReadable(n)
    ensures r.Ok? ==> r.value == v.Next(n)
    ensures |m.ram| == |old(m.ram)| && High(m.ram) == High(old(m.ram))
  {
    disk.Seek(fatStart + EntryOffset(t, n));
    var raw :- disk.ReadExact(EntryLength(t), m, buffer);
    r := Ok(DecodeEntry(t, n, raw));
  }

  class Traverser {
    const disk: DiskAccess
    const bpb: Bpb
    var currentEntry: nat

    constructor (disk: DiskAccess, bpb: Bpb, firstCluster: nat)
      ensures this.disk == disk && this.bpb == bpb && currentEntry == firstCluster
    {
      this.disk, this.bpb, currentEntry := disk, bpb, firstCluster;
    }

    /** Steps to the next cluster of the chain. */
    method NextCluster(m: Machine, buffer: nat, ghost v: Volume) returns (r: Result<Option<Cluster>>)
      requires v == Volume(disk.image, disk.baseOffset, bpb) && v.Valid()
      requires buffer + 1536 <= LOW_MEMORY_END <= |m.ram|
      modifies this, disk, m
      ensures match v.Kind(old(currentEntry))
              case Err(_) => r.Err?
              case Ok(EndOfFile) => r == Ok(None)
              case Ok(AllocatedCluster(n)) =>
                if !v.EntryReadable(n) then r.Err?
                else
                  && r == Ok(Some(Cluster(n, bpb.ClusterStart(n), bpb.BytesPerCluster())))
                  && currentEntry == v.Next(n)
      ensures |m.ram| == |old(m.ram)| && High(m.ram) == High(old(m.ram))
    {
      hide Bpb.DataOffset, Bpb.BytesPerCluster, Bpb.CountOfClusters, Bpb.FatOffset, Bpb.MetaSectors;
      hide Volume.EntryReadable, DecodeEntry, EntryOffset;
      var entry :- Classify(bpb.Type(), currentEntry, bpb.MaximumValidCluster());
      match entry
      case EndOfFile =>
        r := Ok(None);
      case AllocatedCluster(n) =>
        var start := bpb.DataOffset() + (n - 2) * bpb.BytesPerCluster();
        var nextEntry :- FatEntryOfNthCluster(disk, m, buffer, v, bpb.Type(), bpb.FatOffset(), n);
        var index := currentEntry;
        currentEntry := nextEntry;
        r := Ok(Some(Cluster(index, start, bpb.BytesPerCluster())));
    }
  }
}
