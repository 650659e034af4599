/** The serialized bootloader configuration in the kernel's ELF file: a printer and a strict parser. */
module ConfigCodec {
  import opened Bytes
  import opened Outcomes

  type U16 = x: int | 0 <= x < 0x1_0000
  type U64 = x: int | 0 <= x < 0x1_0000_0000_0000_0000

  datatype Mapping = Dynamic | FixedAddress(addr: U64)

  datatype ApiVersion = ApiVersion(major: U16, minor: U16, patch: U16, preRelease: bool)

  datatype Mappings = Mappings(
    kernelStack: Mapping, bootInfo: Mapping, framebuffer: Mapping,
    physicalMemory: Option<Mapping>, pageTableRecursive: Option<Mapping>, aslr: bool,
    dynamicRangeStart: Option<U64>, dynamicRangeEnd: Option<U64>, ramdiskMemory: Mapping)

  datatype FrameBuffer = FrameBuffer(minimumHeight: Option<U64>, minimumWidth: Option<U64>)

  datatype Config = Config(
    version: ApiVersion, mappings: Mappings, kernelStackSize: U64, frameBuffer: FrameBuffer)

  const UUID: seq<Byte> := [
    0x74, 0x3C, 0xA9, 0x61, 0x09, 0x36, 0x46, 0xA0, 0xBB, 0x55, 0x5C, 0x15, 0x89, 0x15, 0x25, 0x3D]

  const SERIALIZED_LEN := 124

  // ---------------------------------------------------------------------------------------------
  // Single values

  function Zeroes(n: nat): (s: seq<Byte>)
    ensures |s| == n
  {
    seq(n, i => 0)
  }

  function PrintBool(b: bool): seq<Byte> { if b then [1] else [0] }

  function ParseBool(s: seq<Byte>, error: string): Result<bool> {
    if s == [0] then Ok(false) else if s == [1] then Ok(true) else Err(Rejected(error))
  }

  function ParseWord(s: seq<Byte>): U64
    requires |s| == 8
  {
    Capacities();
    FromLE(s)
  }

  function ParseShort(s: seq<Byte>): U16
    requires |s| == 2
  {
    Capacities();
    FromLE(s)
  }

  function PrintMapping(m: Mapping): (s: seq<Byte>)
    ensures |s| == 9
  {
    match m
    case Dynamic => Zeroes(9)
    case FixedAddress(addr) => [1] + ToLE(addr, 8)
  }

  function ParseMapping(s: seq<Byte>): Result<Mapping>
    requires |s| == 9
  {
    if s[..1] == [0] && s[1..] == Zeroes(8) then Ok(Dynamic)
    else if s[..1] == [1] then Ok(FixedAddress(ParseWord(s[1..])))
    else Err(Rejected("invalid mapping value"))
  }

  /** An optional value is a flag and a payload, which is zero if there is no value. */
  function PrintOptMapping(v: Option<Mapping>): (s: seq<Byte>)
    ensures |s| == 10
  {
    if v.Some? then [1] + PrintMapping(v.value) else Zeroes(10)
  }

  function PrintOptWord(v: Option<U64>): (s: seq<Byte>)
    ensures |s| == 9
  {
    if v.Some? then [1] + ToLE(v.value, 8) else Zeroes(9)
  }

  function ParseOptMapping(s: seq<Byte>, error: string): Result<Option<Mapping>>
    requires |s| == 10
  {
    if s[..1] == [0] && s[1..] == Zeroes(9) then Ok(None)
    else if s[..1] == [1] then
      var m :- ParseMapping(s[1..]);
      Ok(Some(m))
    else Err(Rejected(error))
  }

  function ParseOptWord(s: seq<Byte>, error: string): Result<Option<U64>>
    requires |s| == 9
  {
    if s[..1] == [0] && s[1..] == Zeroes(8) then Ok(None)
    else if s[..1] == [1] then Ok(Some(ParseWord(s[1..])))
    else Err(Rejected(error))
  }

  /** Parsing a printed word gives it back, and printing a parsed word gives its bytes back. */
  lemma WordInverse(x: U64, s: seq<Byte>)
    requires |s| == 8
    ensures ParseWord(ToLE(x, 8)) == x && ToLE(ParseWord(s), 8) == s
  {
    Capacities();
    FromToLE(x, 8);
    ToFromLE(s);
  }

  lemma ShortInverse(x: U16, s: seq<Byte>)
    requires |s| == 2
    ensures ParseShort(ToLE(x, 2)) == x && ToLE(ParseShort(s), 2) == s
  {
    Capacities();
    FromToLE(x, 2);
    ToFromLE(s);
  }

  /** A flag byte and its payload. */
  lemma FlagAndRest(flag: Byte, rest: seq<Byte>, s: seq<Byte>)
    requires |s| > 0
    ensures ([flag] + rest)[..1] == [flag] && ([flag] + rest)[1..] == rest
    ensures s == s[..1] + s[1..]
    ensures [0] + Zeroes(|rest|) == Zeroes(|rest| + 1)
  {
  }

  lemma MappingInverse(m: Mapping, s: seq<Byte>)
    requires |s| == 9
    ensures ParseMapping(PrintMapping(m)) == Ok(m)
    ensures ParseMapping(s).Ok? ==> PrintMapping(ParseMapping(s).value) == s
  {
    var payload := if m.Dynamic? then Zeroes(8) else ToLE(m.addr, 8);
    WordInverse(if m.Dynamic? then 0 else m.addr, s[1..]);
    FlagAndRest(if m.Dynamic? then 0 else 1, payload, s);
  }

  lemma OptMappingInverse(v: Option<Mapping>, s: seq<Byte>, error: string)
    requires |s| == 10
    ensures ParseOptMapping(PrintOptMapping(v), error) == Ok(v)
    ensures var r := ParseOptMapping(s, error); r.Ok? ==> PrintOptMapping(r.value) == s
  {
    var payload := if v.None? then Zeroes(9) else PrintMapping(v.value);
    MappingInverse(if v.None? then Dynamic else v.value, s[1..]);
    FlagAndRest(if v.None? then 0 else 1, payload, s);
  }

  lemma OptWordInverse(v: Option<U64>, s: seq<Byte>, error: string)
    requires |s| == 9
    ensures ParseOptWord(PrintOptWord(v), error) == Ok(v)
    ensures var r := ParseOptWord(s, error); r.Ok? ==> PrintOptWord(r.value) == s
  {
    var payload := if v.None? then Zeroes(8) else ToLE(v.value, 8);
    WordInverse(if v.None? then 0 else v.value, s[1..]);
    FlagAndRest(if v.None? then 0 else 1, payload, s);
  }

  // ---------------------------------------------------------------------------------------------
  // The configuration

  function PrintVersion(v: ApiVersion): (s: seq<Byte>)
    ensures |s| == 7
  {
    ToLE(v.major, 2) + (ToLE(v.minor, 2) + (ToLE(v.patch, 2) + PrintBool(v.preRelease)))
  }

  function ParseVersion(s: seq<Byte>): Result<ApiVersion>
    requires |s| == 7
  {
    var (major, s) := (s[..2], s[2..]);
    var (minor, s) := (s[..2], s[2..]);
    var (patch, s) := (s[..2], s[2..]);
    var pre :- ParseBool(s, "invalid pre version");
    Ok(ApiVersion(ParseShort(major), ParseShort(minor), ParseShort(patch), pre))
  }

  /** The first five fields of the mappings, and the rest. */
  function PrintPlaces(m: Mappings): (s: seq<Byte>)
    ensures |s| == 47
  {
    PrintMapping(m.kernelStack) + (PrintMapping(m.bootInfo) + (PrintMapping(m.framebuffer) +
    (PrintOptMapping(m.physicalMemory) + PrintOptMapping(m.pageTableRecursive))))
  }

  function PrintRanges(m: Mappings): (s: seq<Byte>)
    ensures |s| == 28
  {
    PrintBool(m.aslr) + (PrintOptWord(m.dynamicRangeStart) +
    (PrintOptWord(m.dynamicRangeEnd) + PrintMapping(m.ramdiskMemory)))
  }

  function ParseMappings(s: seq<Byte>): Result<Mappings>
    requires |s| == 75
  {
    var (kernelStack, s) := (s[..9], s[9..]);
    var (bootInfo, s) := (s[..9], s[9..]);
    var (framebuffer, s) := (s[..9], s[9..]);
    var (physicalMemory, s) := (s[..10], s[10..]);
    var (pageTableRecursive, s) := (s[..10], s[10..]);
    var (aslr, s) := (s[..1], s[1..]);
    var (start, s) := (s[..9], s[9..]);
    var (end, s) := (s[..9], s[9..]);
    var kernelStack :- ParseMapping(kernelStack);
    var bootInfo :- ParseMapping(bootInfo);
    var framebuffer :- ParseMapping(framebuffer);
    var physicalMemory :- ParseOptMapping(physicalMemory, "invalid phys memory value");
    var pageTableRecursive :- ParseOptMapping(pageTableRecursive, "invalid page table recursive value");
    var aslr :- ParseBool(aslr, "invalid aslr value");
    var start :- ParseOptWord(start, "invalid dynamic range start value");
    var end :- ParseOptWord(end, "invalid dynamic range end value");
    var ramdiskMemory :- ParseMapping(s);
    Ok(Mappings(kernelStack, bootInfo, framebuffer, physicalMemory, pageTableRecursive, aslr,
                start, end, ramdiskMemory))
  }

  function PrintFrameBuffer(f: FrameBuffer): (s: seq<Byte>)
    ensures |s| == 18
  {
    PrintOptWord(f.minimumHeight) + PrintOptWord(f.minimumWidth)
  }

  function ParseFrameBuffer(s: seq<Byte>): Result<FrameBuffer>
    requires |s| == 18
  {
    var height :- ParseOptWord(s[..9], "minimum_framebuffer_height invalid");
    var width :- ParseOptWord(s[9..], "minimum_framebuffer_width invalid");
    Ok(FrameBuffer(height, width))
  }

  function PrintMappings(m: Mappings): (s: seq<Byte>)
    ensures |s| == 75
  {
    PrintPlaces(m) + PrintRanges(m)
  }

  function Serialize(c: Config): (s: seq<Byte>)
    ensures |s| == SERIALIZED_LEN
  {
    UUID + (PrintVersion(c.version) + (ToLE(c.kernelStackSize, 8) +
    (PrintMappings(c.mappings) + PrintFrameBuffer(c.frameBuffer))))
  }

  function Deserialize(s: seq<Byte>): Result<Config> {
    if |s| != SERIALIZED_LEN then Err(Rejected("invalid len"))
    else
      var (uuid, s) := (s[..16], s[16..]);
      if uuid != UUID then Err(Rejected("invalid UUID"))
      else
        var (version, s) := (s[..7], s[7..]);
        var version :- ParseVersion(version);
        var (kernelStackSize, s) := (s[..8], s[8..]);
        var (mappings, s) := (s[..75], s[75..]);
        var mappings :- ParseMappings(mappings);
        var frameBuffer :- ParseFrameBuffer(s);
        Ok(Config(version, mappings, ParseWord(kernelStackSize), frameBuffer))
  }

  /** Splitting a concatenation gives its parts, and joining the parts of a split gives it back. */
  lemma SplitJoin(a: seq<Byte>, b: seq<Byte>, s: seq<Byte>, n: nat)
    requires |a| == n <= |s|
    ensures (a + b)[..n] == a && (a + b)[n..] == b && s[..n] + s[n..] == s
  {
  }

  lemma VersionInverse(v: ApiVersion, s: seq<Byte>)
    requires |s| == 7
    ensures ParseVersion(PrintVersion(v)) == Ok(v)
    ensures ParseVersion(s).Ok? ==> PrintVersion(ParseVersion(s).value) == s
  {
    hide ToLE, ParseShort;
    var patch := ToLE(v.patch, 2) + PrintBool(v.preRelease);
    SplitJoin(ToLE(v.major, 2), ToLE(v.minor, 2) + patch, s, 2);
    SplitJoin(ToLE(v.minor, 2), patch, s[2..], 2);
    SplitJoin(ToLE(v.patch, 2), PrintBool(v.preRelease), s[2..][2..], 2);
    ShortInverse(v.major, s[..2]);
    ShortInverse(v.minor, s[2..][..2]);
    ShortInverse(v.patch, s[2..][2..][..2]);
  }

  lemma MappingsInverse(m: Mappings, s: seq<Byte>)
    requires |s| == 75
    ensures ParseMappings(PrintMappings(m)) == Ok(m)
    ensures ParseMappings(s).Ok? ==> PrintMappings(ParseMappings(s).value) == s
  {
    hide ParseMapping, PrintMapping, ParseOptMapping, PrintOptMapping, ParseOptWord, PrintOptWord;
    var s1, s2, s3 := s[9..], s[9..][9..], s[9..][9..][9..];
    var s4, s5 := s3[10..], s3[10..][10..];
    var s6, s7 := s5[1..], s5[1..][9..];
    var s8 := s7[9..];
    MappingInverse(m.kernelStack, s[..9]);
    MappingInverse(m.bootInfo, s1[..9]);
    MappingInverse(m.framebuffer, s2[..9]);
    OptMappingInverse(m.physicalMemory, s3[..10], "invalid phys memory value");
    OptMappingInverse(m.pageTableRecursive, s4[..10], "invalid page table recursive value");
    OptWordInverse(m.dynamicRangeStart, s6[..9], "invalid dynamic range start value");
    OptWordInverse(m.dynamicRangeEnd, s7[..9], "invalid dynamic range end value");
    MappingInverse(m.ramdiskMemory, s8);
    var p7 := PrintOptWord(m.dynamicRangeEnd) + PrintMapping(m.ramdiskMemory);
    var p6 := PrintOptWord(m.dynamicRangeStart) + p7;
    var p5 := PrintBool(m.aslr) + p6;
    var p4 := PrintOptMapping(m.pageTableRecursive) + p5;
    var p3 := PrintOptMapping(m.physicalMemory) + p4;
    var p2 := PrintMapping(m.framebuffer) + p3;
    var p1 := PrintMapping(m.bootInfo) + p2;
    assert PrintMappings(m) == PrintMapping(m.kernelStack) + p1;
    SplitJoin(PrintMapping(m.kernelStack), p1, s, 9);
    SplitJoin(PrintMapping(m.bootInfo), p2, s1, 9);
    SplitJoin(PrintMapping(m.framebuffer), p3, s2, 9);
    SplitJoin(PrintOptMapping(m.physicalMemory), p4, s3, 10);
    SplitJoin(PrintOptMapping(m.pageTableRecursive), p5, s4, 10);
    SplitJoin(PrintBool(m.aslr), p6, s5, 1);
    SplitJoin(PrintOptWord(m.dynamicRangeStart), p7, s6, 9);
    SplitJoin(PrintOptWord(m.dynamicRangeEnd), PrintMapping(m.ramdiskMemory), s7, 9);
    if ParseMappings(s).Ok? {
      var n := ParseMappings(s).value;
      assert PrintRanges(n) == s5;
      assert PrintPlaces(n) == s[..9] + (s1[..9] + (s2[..9] + (s3[..10] + s4[..10])));
    }
  }

  lemma FrameBufferInverse(f: FrameBuffer, s: seq<Byte>)
    requires |s| == 18
    ensures ParseFrameBuffer(PrintFrameBuffer(f)) == Ok(f)
    ensures ParseFrameBuffer(s).Ok? ==> PrintFrameBuffer(ParseFrameBuffer(s).value) == s
  {
    SplitJoin(PrintOptWord(f.minimumHeight), PrintOptWord(f.minimumWidth), s, 9);
    OptWordInverse(f.minimumHeight, s[..9], "minimum_framebuffer_height invalid");
    OptWordInverse(f.minimumWidth, s[9..], "minimum_framebuffer_width invalid");
  }

  /** Printing then parsing, and parsing then printing, are both the identity: every configuration is
      read back as it was written, and no two byte strings stand for the same configuration. */
  lemma ConfigInverse(c: Config, s: seq<Byte>)
    ensures Deserialize(Serialize(c)) == Ok(c)
    ensures Deserialize(s).Ok? ==> Serialize(Deserialize(s).value) == s
  {
    hide ParseVersion, PrintVersion, ParseMappings, PrintMappings, ParseFrameBuffer, PrintFrameBuffer, ParseWord;
    PrintedIsParsed(c);
    if |s| == SERIALIZED_LEN {
      var s1, s2 := s[16..], s[16..][7..];
      var s3, s4 := s2[8..], s2[8..][75..];
      VersionInverse(c.version, s1[..7]);
      WordInverse(c.kernelStackSize, s2[..8]);
      MappingsInverse(c.mappings, s3[..75]);
      FrameBufferInverse(c.frameBuffer, s4);
      assert s == s[..16] + (s1[..7] + (s2[..8] + (s3[..75] + s4)));
    }
  }

  lemma PrintedIsParsed(c: Config)
    ensures Deserialize(Serialize(c)) == Ok(c)
  {
    hide ParseVersion, PrintVersion, ParseMappings, PrintMappings, ParseFrameBuffer, PrintFrameBuffer, ParseWord;
    var p3 := PrintMappings(c.mappings) + PrintFrameBuffer(c.frameBuffer);
    var p2 := ToLE(c.kernelStackSize, 8) + p3;
    var p1 := PrintVersion(c.version) + p2;
    SplitJoin(UUID, p1, UUID + p1, 16);
    SplitJoin(PrintVersion(c.version), p2, p1, 7);
    SplitJoin(ToLE(c.kernelStackSize, 8), p3, p2, 8);
    SplitJoin(PrintMappings(c.mappings), PrintFrameBuffer(c.frameBuffer), p3, 75);
    VersionInverse(c.version, PrintVersion(c.version));
    WordInverse(c.kernelStackSize, ToLE(c.kernelStackSize, 8));
    MappingsInverse(c.mappings, PrintMappings(c.mappings));
    FrameBufferInverse(c.frameBuffer, PrintFrameBuffer(c.frameBuffer));
  }

  // ---------------------------------------------------------------------------------------------
  // The format, byte by byte

  function Digit(x: nat, i: nat): nat { x / Capacity(i) % 256 }

  /** Whether the `n` bytes from `at` on are the digits of `x` to base 256, the lowest first. */
  ghost predicate NumberAt(s: seq<Byte>, at: nat, n: nat, x: nat) {
    at + n <= |s| && forall i | 0 <= i < n :: s[at + i] == Digit(x, i)
  }

  /** Whether an address, or nothing, stands at `at`: a flag byte and eight bytes. */
  ghost predicate AddressAt(s: seq<Byte>, at: nat, addr: Option<U64>) {
    if addr.Some? then NumberAt(s, at, 1, 1) && NumberAt(s, at + 1, 8, addr.value) else NumberAt(s, at, 9, 0)
  }

  ghost predicate MappingAt(s: seq<Byte>, at: nat, m: Mapping) {
    AddressAt(s, at, if m.FixedAddress? then Some(m.addr) else None)
  }

  /** The same for a mapping that may be missing: another flag byte before. */
  ghost predicate OptMappingAt(s: seq<Byte>, at: nat, v: Option<Mapping>) {
    if v.Some? then NumberAt(s, at, 1, 1) && MappingAt(s, at + 1, v.value) else NumberAt(s, at, 10, 0)
  }

  ghost predicate BoolAt(s: seq<Byte>, at: nat, b: bool) { NumberAt(s, at, 1, if b then 1 else 0) }

  /** The 124 bytes of a configuration, each field at its place. */
  ghost predicate HasLayout(s: seq<Byte>, c: Config) {
    && |s| == 124
    && s[..16] == [0x74, 0x3C, 0xA9, 0x61, 0x09, 0x36, 0x46, 0xA0, 0xBB, 0x55, 0x5C, 0x15, 0x89, 0x15, 0x25, 0x3D]
    && NumberAt(s, 16, 2, c.version.major) && NumberAt(s, 18, 2, c.version.minor)
    && NumberAt(s, 20, 2, c.version.patch) && BoolAt(s, 22, c.version.preRelease)
    && NumberAt(s, 23, 8, c.kernelStackSize)
    && MappingAt(s, 31, c.mappings.kernelStack) && MappingAt(s, 40, c.mappings.bootInfo)
    && MappingAt(s, 49, c.mappings.framebuffer)
    && OptMappingAt(s, 58, c.mappings.physicalMemory) && OptMappingAt(s, 68, c.mappings.pageTableRecursive)
    && BoolAt(s, 78, c.mappings.aslr)
    && AddressAt(s, 79, c.mappings.dynamicRangeStart) && AddressAt(s, 88, c.mappings.dynamicRangeEnd)
    && MappingAt(s, 97, c.mappings.ramdiskMemory)
    && AddressAt(s, 106, c.frameBuffer.minimumHeight) && AddressAt(s, 115, c.frameBuffer.minimumWidth)
  }

  lemma WordHasBytes(x: nat, n: nat)
    ensures NumberAt(ToLE(x, n), 0, n, x)
  {
    forall i | 0 <= i < n
      ensures ToLE(x, n)[0 + i] == Digit(x, i)
    {
      ByteOfLE(x, n, i);
    }
  }

  lemma ZeroesAreNone(n: nat)
    ensures NumberAt(Zeroes(n), 0, n, 0)
  {
  }

  lemma FlagHasByte(b: bool)
    ensures BoolAt(PrintBool(b), 0, b)
  {
    assert Capacity(0) == 1;
  }

  /** A part keeps its bytes in the whole. */
  lemma NumberMoved(part: seq<Byte>, s: seq<Byte>, at: nat, from: nat, n: nat, x: nat)
    requires at + |part| <= |s| && s[at..at + |part|] == part && NumberAt(part, from, n, x)
    ensures NumberAt(s, at + from, n, x)
  {
    forall i | 0 <= i < n
      ensures s[at + from + i] == Digit(x, i)
    {
      assert s[at + from + i] == part[from + i];
    }
  }

  lemma OptWordHasBytes(v: Option<U64>, s: seq<Byte>, at: nat)
    requires at + 9 <= |s| && s[at..at + 9] == PrintOptWord(v)
    ensures AddressAt(s, at, v)
  {
    hide NumberAt, ToLE;
    if v.Some? {
      assert s[at..at + 1] == [1] && s[at + 1..at + 9] == ToLE(v.value, 8) by {
        assert s[at..at + 9][..1] == [1] && s[at..at + 9][1..] == ToLE(v.value, 8);
      }
      FlagHasByte(true);
      NumberMoved([1], s, at, 0, 1, 1);
      WordHasBytes(v.value, 8);
      NumberMoved(ToLE(v.value, 8), s, at + 1, 0, 8, v.value);
    } else {
      ZeroesAreNone(9);
      NumberMoved(Zeroes(9), s, at, 0, 9, 0);
    }
  }

  lemma MappingHasBytes(m: Mapping, s: seq<Byte>, at: nat)
    requires at + 9 <= |s| && s[at..at + 9] == PrintMapping(m)
    ensures MappingAt(s, at, m)
  {
    OptWordHasBytes(if m.FixedAddress? then Some(m.addr) else None, s, at);
  }

  lemma OptMappingHasBytes(v: Option<Mapping>, s: seq<Byte>, at: nat)
    requires at + 10 <= |s| && s[at..at + 10] == PrintOptMapping(v)
    ensures OptMappingAt(s, at, v)
  {
    hide NumberAt, PrintMapping, MappingAt;
    if v.Some? {
      assert s[at..at + 1] == [1] && s[at + 1..at + 10] == PrintMapping(v.value) by {
        assert s[at..at + 10][..1] == [1] && s[at..at + 10][1..] == PrintMapping(v.value);
      }
      FlagHasByte(true);
      NumberMoved([1], s, at, 0, 1, 1);
      MappingHasBytes(v.value, s, at + 1);
    } else {
      ZeroesAreNone(10);
      NumberMoved(Zeroes(10), s, at, 0, 10, 0);
    }
  }

  /** Where the parts of a concatenation are. */
  lemma PartsAt(s: seq<Byte>, at: nat, a: seq<Byte>, b: seq<Byte>)
    requires at + |a| + |b| <= |s| && s[at..at + |a| + |b|] == a + b
    ensures s[at..at + |a|] == a && s[at + |a|..at + |a| + |b|] == b
  {
    assert s[at..at + |a| + |b|][..|a|] == a && s[at..at + |a| + |b|][|a|..] == b;
  }

  lemma VersionHasBytes(v: ApiVersion, s: seq<Byte>)
    requires 23 <= |s| && s[16..23] == PrintVersion(v)
    ensures NumberAt(s, 16, 2, v.major) && NumberAt(s, 18, 2, v.minor) && NumberAt(s, 20, 2, v.patch)
    ensures BoolAt(s, 22, v.preRelease)
  {
    hide NumberAt, ToLE;
    var patch := ToLE(v.patch, 2) + PrintBool(v.preRelease);
    PartsAt(s, 16, ToLE(v.major, 2), ToLE(v.minor, 2) + patch);
    PartsAt(s, 18, ToLE(v.minor, 2), patch);
    PartsAt(s, 20, ToLE(v.patch, 2), PrintBool(v.preRelease));
    WordHasBytes(v.major, 2);
    WordHasBytes(v.minor, 2);
    WordHasBytes(v.patch, 2);
    FlagHasByte(v.preRelease);
    NumberMoved(ToLE(v.major, 2), s, 16, 0, 2, v.major);
    NumberMoved(ToLE(v.minor, 2), s, 18, 0, 2, v.minor);
    NumberMoved(ToLE(v.patch, 2), s, 20, 0, 2, v.patch);
    NumberMoved(PrintBool(v.preRelease), s, 22, 0, 1, if v.preRelease then 1 else 0);
  }

  lemma PlacesHaveBytes(m: Mappings, s: seq<Byte>)
    requires 78 <= |s| && s[31..78] == PrintPlaces(m)
    ensures MappingAt(s, 31, m.kernelStack) && MappingAt(s, 40, m.bootInfo) && MappingAt(s, 49, m.framebuffer)
    ensures OptMappingAt(s, 58, m.physicalMemory) && OptMappingAt(s, 68, m.pageTableRecursive)
  {
    hide MappingAt, OptMappingAt, PrintMapping, PrintOptMapping;
    var p3 := PrintOptMapping(m.physicalMemory) + PrintOptMapping(m.pageTableRecursive);
    var p2 := PrintMapping(m.framebuffer) + p3;
    var p1 := PrintMapping(m.bootInfo) + p2;
    PartsAt(s, 31, PrintMapping(m.kernelStack), p1);
    PartsAt(s, 40, PrintMapping(m.bootInfo), p2);
    PartsAt(s, 49, PrintMapping(m.framebuffer), p3);
    PartsAt(s, 58, PrintOptMapping(m.physicalMemory), PrintOptMapping(m.pageTableRecursive));
    MappingHasBytes(m.kernelStack, s, 31);
    MappingHasBytes(m.bootInfo, s, 40);
    MappingHasBytes(m.framebuffer, s, 49);
    OptMappingHasBytes(m.physicalMemory, s, 58);
    OptMappingHasBytes(m.pageTableRecursive, s, 68);
  }

  lemma RangesHaveBytes(m: Mappings, s: seq<Byte>)
    requires 106 <= |s| && s[78..106] == PrintRanges(m)
    ensures BoolAt(s, 78, m.aslr) && AddressAt(s, 79, m.dynamicRangeStart) && AddressAt(s, 88, m.dynamicRangeEnd)
    ensures MappingAt(s, 97, m.ramdiskMemory)
  {
    hide MappingAt, AddressAt, NumberAt, PrintMapping, PrintOptWord;
    var p2 := PrintOptWord(m.dynamicRangeEnd) + PrintMapping(m.ramdiskMemory);
    var p1 := PrintOptWord(m.dynamicRangeStart) + p2;
    PartsAt(s, 78, PrintBool(m.aslr), p1);
    PartsAt(s, 79, PrintOptWord(m.dynamicRangeStart), p2);
    PartsAt(s, 88, PrintOptWord(m.dynamicRangeEnd), PrintMapping(m.ramdiskMemory));
    FlagHasByte(m.aslr);
    NumberMoved(PrintBool(m.aslr), s, 78, 0, 1, if m.aslr then 1 else 0);
    OptWordHasBytes(m.dynamicRangeStart, s, 79);
    OptWordHasBytes(m.dynamicRangeEnd, s, 88);
    MappingHasBytes(m.ramdiskMemory, s, 97);
  }

  lemma SerializedParts(c: Config)
    ensures var s := Serialize(c);
            && s[..16] == UUID && s[16..23] == PrintVersion(c.version) && s[23..31] == ToLE(c.kernelStackSize, 8)
            && s[31..78] == PrintPlaces(c.mappings) && s[78..106] == PrintRanges(c.mappings)
            && s[106..115] == PrintOptWord(c.frameBuffer.minimumHeight)
            && s[115..124] == PrintOptWord(c.frameBuffer.minimumWidth)
  {
    hide PrintVersion, PrintPlaces, PrintRanges, PrintOptWord, ToLE;
    var s := Serialize(c);
    var p4 := PrintMappings(c.mappings) + PrintFrameBuffer(c.frameBuffer);
    var p3 := ToLE(c.kernelStackSize, 8) + p4;
    var p2 := PrintVersion(c.version) + p3;
    assert s == s[0..124] == UUID + p2;
    PartsAt(s, 0, UUID, p2);
    PartsAt(s, 16, PrintVersion(c.version), p3);
    PartsAt(s, 23, ToLE(c.kernelStackSize, 8), p4);
    PartsAt(s, 31, PrintMappings(c.mappings), PrintFrameBuffer(c.frameBuffer));
    PartsAt(s, 31, PrintPlaces(c.mappings), PrintRanges(c.mappings));
    PartsAt(s, 106, PrintOptWord(c.frameBuffer.minimumHeight), PrintOptWord(c.frameBuffer.minimumWidth));
  }

  /** Every serialized configuration has the format. */
  lemma SerializedHasLayout(c: Config)
    ensures HasLayout(Serialize(c), c)
  {
    hide MappingAt, OptMappingAt, AddressAt, NumberAt, PrintVersion, PrintPlaces, PrintRanges, PrintOptWord;
    hide ToLE, Serialize;
    var s := Serialize(c);
    SerializedParts(c);
    VersionHasBytes(c.version, s);
    WordHasBytes(c.kernelStackSize, 8);
    NumberMoved(ToLE(c.kernelStackSize, 8), s, 23, 0, 8, c.kernelStackSize);
    PlacesHaveBytes(c.mappings, s);
    RangesHaveBytes(c.mappings, s);
    OptWordHasBytes(c.frameBuffer.minimumHeight, s, 106);
    OptWordHasBytes(c.frameBuffer.minimumWidth, s, 115);
  }

  /** The bytes of a field are determined by it. */
  lemma NumberFixed(s: seq<Byte>, t: seq<Byte>, at: nat, n: nat, x: nat)
    requires NumberAt(s, at, n, x) && NumberAt(t, at, n, x)
    ensures s[at..at + n] == t[at..at + n]
  {
    var a, b := s[at..at + n], t[at..at + n];
    forall i | 0 <= i < n
      ensures a[i] == b[i]
    {
      assert s[at + i] == Digit(x, i) == t[at + i];
    }
  }

  lemma AddressFixed(s: seq<Byte>, t: seq<Byte>, at: nat, v: Option<U64>)
    requires AddressAt(s, at, v) && AddressAt(t, at, v)
    ensures at + 9 <= |s| && at + 9 <= |t| && s[at..at + 9] == t[at..at + 9]
  {
    if v.Some? {
      NumberFixed(s, t, at, 1, 1);
      NumberFixed(s, t, at + 1, 8, v.value);
      hide NumberAt;
      JoinSlices(s, at, at + 1, at + 9);
      JoinSlices(t, at, at + 1, at + 9);
    } else {
      NumberFixed(s, t, at, 9, 0);
    }
  }

  lemma OptMappingFixed(s: seq<Byte>, t: seq<Byte>, at: nat, v: Option<Mapping>)
    requires OptMappingAt(s, at, v) && OptMappingAt(t, at, v)
    ensures at + 10 <= |s| && at + 10 <= |t| && s[at..at + 10] == t[at..at + 10]
  {
    if v.Some? {
      NumberFixed(s, t, at, 1, 1);
      AddressFixed(s, t, at + 1, if v.value.FixedAddress? then Some(v.value.addr) else None);
      hide NumberAt;
      JoinSlices(s, at, at + 1, at + 10);
      JoinSlices(t, at, at + 1, at + 10);
    } else {
      NumberFixed(s, t, at, 10, 0);
    }
  }

  lemma JoinSlices(s: seq<Byte>, from: nat, mid: nat, to: nat)
    requires from <= mid <= to <= |s|
    ensures s[from..mid] + s[mid..to] == s[from..to]
  {
  }

  /** So is every byte of the format. */
  lemma LayoutFixed(s: seq<Byte>, t: seq<Byte>, c: Config)
    requires HasLayout(s, c) && HasLayout(t, c)
    ensures s == t
  {
    hide NumberAt, AddressAt, OptMappingAt;
    var m := c.mappings;
    assert s[0..16] == s[..16] && t[0..16] == t[..16];
    NumberFixed(s, t, 16, 2, c.version.major);
    NumberFixed(s, t, 18, 2, c.version.minor);
    NumberFixed(s, t, 20, 2, c.version.patch);
    NumberFixed(s, t, 22, 1, if c.version.preRelease then 1 else 0);
    NumberFixed(s, t, 23, 8, c.kernelStackSize);
    AddressFixed(s, t, 31, if m.kernelStack.FixedAddress? then Some(m.kernelStack.addr) else None);
    AddressFixed(s, t, 40, if m.bootInfo.FixedAddress? then Some(m.bootInfo.addr) else None);
    AddressFixed(s, t, 49, if m.framebuffer.FixedAddress? then Some(m.framebuffer.addr) else None);
    OptMappingFixed(s, t, 58, m.physicalMemory);
    OptMappingFixed(s, t, 68, m.pageTableRecursive);
    NumberFixed(s, t, 78, 1, if m.aslr then 1 else 0);
    AddressFixed(s, t, 79, m.dynamicRangeStart);
    AddressFixed(s, t, 88, m.dynamicRangeEnd);
    AddressFixed(s, t, 97, if m.ramdiskMemory.FixedAddress? then Some(m.ramdiskMemory.addr) else None);
    AddressFixed(s, t, 106, c.frameBuffer.minimumHeight);
    AddressFixed(s, t, 115, c.frameBuffer.minimumWidth);
    SameSlices(s, t, [0, 16, 18, 20, 22, 23, 31, 40, 49, 58, 68, 78, 79, 88, 97, 106, 115, 124]);
  }

  /** Sequences that agree between all cuts are the same. */
  lemma {:induction false} SameSlices(s: seq<Byte>, t: seq<Byte>, cuts: seq<nat>)
    requires |cuts| > 0 && forall i | 0 <= i < |cuts| :: cuts[i] <= |s| && cuts[i] <= |t|
    requires forall i | 0 <= i < |cuts| - 1 :: cuts[i] <= cuts[i + 1]
    requires forall i | 0 <= i < |cuts| - 1 :: s[cuts[i]..cuts[i + 1]] == t[cuts[i]..cuts[i + 1]]
    ensures cuts[0] <= cuts[|cuts| - 1] && s[cuts[0]..cuts[|cuts| - 1]] == t[cuts[0]..cuts[|cuts| - 1]]
  {
    var n := |cuts| - 1;
    if n > 0 {
      SameSlices(s, t, cuts[..n]);
      JoinSlices(s, cuts[0], cuts[n - 1], cuts[n]);
      JoinSlices(t, cuts[0], cuts[n - 1], cuts[n]);
      assert s[cuts[n - 1]..cuts[n]] == t[cuts[n - 1]..cuts[n]];
    }
  }

  /** The printer writes the format and nothing else, and the parser accepts exactly that: a byte string is
      read as a configuration if and only if it has the configuration's fields at their places. */
  lemma FormatIff(c: Config, s: seq<Byte>)
    ensures Serialize(c) == s <==> HasLayout(s, c)
    ensures Deserialize(s) == Ok(c) <==> HasLayout(s, c)
  {
    hide Serialize, Deserialize, HasLayout;
    SerializedHasLayout(c);
    ConfigInverse(c, s);
    if HasLayout(s, c) {
      LayoutFixed(s, Serialize(c), c);
    }
  }
}
