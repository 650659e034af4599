/** What loading an ELF file means: pure functions on the kernel's address space, one for each pass
    of the loader, with no frames and no sharing in them. */
module ElfImage {
  import opened Bytes
  import opened Outcomes
  import opened VirtualSpace

  /** Program header types the loader tells apart; `Unknown` is one that `get_type` rejects. */
  datatype Kind = Load | Tls | Dynamic | GnuRelro | Ignored | Unknown

  datatype Tag = Rela | RelaSize | RelaEnt | OtherTag | BadTag

  datatype Dyn = Dyn(tag: Tag, value: nat)

  datatype Header = Header(
    kind: Kind, offset: nat, vaddr: nat, fileSize: nat, memSize: nat, align: nat,
    writable: bool, executable: bool, dynamic: seq<Dyn>)

  /** The ELF file: its program headers, the frame it starts at in physical memory, and the
      distance between the addresses in the file and those in the kernel's address space. */
  datatype Elf = Elf(headers: seq<Header>, kernelFrame: int, addressOffset: int)

  type Memory = map<int, PageBytes>

  function ZeroPage(): (r: PageBytes)
    ensures forall i | 0 <= i < 4096 :: r[i] == 0
  {
    seq(4096, i => 0)
  }

  /** `VirtualAddressOffset + u64`. */
  function Shift(e: Elf, address: nat): (r: Result<int>)
  {
    var u := e.addressOffset + address;
    if 0 <= u < U64_LIMIT then Ok(u) else Err(Panic("address does not fit in 64 bits"))
  }

  /** Where a file address lies in the kernel's address space. */
  function Place(e: Elf, address: nat): (r: Result<int>)
    ensures r.Ok? ==> r == VirtNew(e.addressOffset + address)
  {
    var u :- Shift(e, address);
    VirtNew(u)
  }

  function FrameAt(mem: Memory, frame: int): PageBytes {
    if frame in mem then mem[frame] else ZeroPage()
  }

  /** The byte of the ELF file at `offset`. */
  function FileByte(e: Elf, mem: Memory, offset: int): Byte {
    FrameAt(mem, e.kernelFrame + offset / 4096)[offset % 4096]
  }

  // ---------------------------------------------------------------------------------------------
  // Load segments

  /** The ELF rules a load segment must follow for the image to be defined. */
  predicate WellShaped(e: Elf, h: Header) {
    && h.fileSize <= h.memSize <= HALF
    && (e.addressOffset + h.vaddr) % 4096 == h.offset % 4096
    && (Place(e, h.vaddr).Ok? ==> Place(e, h.vaddr + h.memSize).Ok?)
  }

  predicate WellPlaced(e: Elf, h: Header) {
    WellShaped(e, h) && Place(e, h.vaddr).Ok?
  }

  /** Whether none of the address computations for a segment fails: it starts at an address, does not end
      where the upper half begins, and its zeroed part does not begin in the last page. */
  predicate Placeable(e: Elf, h: Header) {
    && Place(e, h.vaddr).Ok? && Place(e, h.vaddr + h.memSize).Ok?
    && Below(Place(e, h.vaddr + h.memSize).value).Ok?
    && (h.fileSize < h.memSize ==> Place(e, h.vaddr).value + h.fileSize <= 2 * HALF - 4096)
  }

  /** The same in numbers. */
  lemma PlaceableIff(e: Elf, h: Header)
    ensures var u := e.addressOffset + h.vaddr;
            var end := u + h.memSize;
            Placeable(e, h) <==>
            && (0 <= u < 0x1_0000_0000_0000 || 0xFFFF_8000_0000_0000 <= u < 0x1_0000_0000_0000_0000)
            && (end < 0x1_0000_0000_0000 || 0xFFFF_8000_0000_0000 <= end < 0x1_0000_0000_0000_0000)
            && end != 0 && end != 0x8000_0000_0000 && end != 0xFFFF_8000_0000_0000
            && (h.fileSize < h.memSize ==>
                  (if u < 0x1_0000_0000_0000 then u else u - 0xFFFF_0000_0000_0000) + h.fileSize <= 0xFFFF_FFFF_F000)
  {
    hide Below;
  }

  function Base(e: Elf, h: Header): int
    requires Place(e, h.vaddr).Ok?
  {
    Place(e, h.vaddr).value
  }

  /** First and last page of a segment, and the last page with bytes from the file. */
  function SegFirst(e: Elf, h: Header): int
    requires Place(e, h.vaddr).Ok?
  {
    FirstPage(Base(e, h))
  }

  function SegLast(e: Elf, h: Header): int
    requires Place(e, h.vaddr).Ok?
  {
    LastPage(Base(e, h), h.memSize)
  }

  function FileLast(e: Elf, h: Header): int
    requires Place(e, h.vaddr).Ok?
  {
    LastPage(Base(e, h), h.fileSize)
  }

  /** The frame of the ELF file that page `p` of the segment is mapped to at first. */
  function FileFrame(e: Elf, h: Header, p: int): int
    requires Place(e, h.vaddr).Ok?
  {
    e.kernelFrame + h.offset / 4096 + (p - SegFirst(e, h))
  }

  function SegFlags(h: Header): Flags {
    Flags(h.writable, !h.executable, false)
  }

  /** Whether page `p` ends in bytes that are zeroed because the file does not store them. */
  predicate HasZeroTail(e: Elf, h: Header, p: int)
    requires Place(e, h.vaddr).Ok?
  {
    h.fileSize < h.memSize && Base(e, h) + h.fileSize < p * 4096 + 4096
  }

  /** `bytes` with everything from index `keep` on zeroed. */
  function ZeroFrom(bytes: PageBytes, keep: int): (r: PageBytes)
  {
    seq(4096, i requires 0 <= i < 4096 => if i < keep then bytes[i] else 0)
  }

  function SegBytes(e: Elf, mem: Memory, h: Header, p: int): PageBytes
    requires Place(e, h.vaddr).Ok?
  {
    var stored := FrameAt(mem, FileFrame(e, h, p));
    if HasZeroTail(e, h, p) then ZeroFrom(stored, Base(e, h) + h.fileSize - p * 4096) else stored
  }

  /** Page `p` of the segment. Only a page that is part file, part zeroes has been copied. */
  function SegPage(e: Elf, mem: Memory, h: Header, p: int): VPage
    requires Place(e, h.vaddr).Ok?
  {
    VPage(SegBytes(e, mem, h, p),
          SegFlags(h).(copied := HasZeroTail(e, h, p) && p * 4096 < Base(e, h) + h.fileSize))
  }

  /** The pages of the segment below page `end`. */
  function SegBelow(e: Elf, mem: Memory, h: Header, end: int): Space
    requires Place(e, h.vaddr).Ok?
  {
    map p | SegFirst(e, h) <= p < end :: SegPage(e, mem, h, p)
  }

  function SegSpace(e: Elf, mem: Memory, h: Header): Space
    requires Place(e, h.vaddr).Ok?
  {
    SegBelow(e, mem, h, SegLast(e, h) + 1)
  }

  lemma SegSpacePage(e: Elf, mem: Memory, h: Header, p: int)
    requires Place(e, h.vaddr).Ok?
    ensures p in SegSpace(e, mem, h) <==> SegFirst(e, h) <= p <= SegLast(e, h)
    ensures p in SegSpace(e, mem, h) ==> SegSpace(e, mem, h)[p] == SegPage(e, mem, h, p)
  {
  }

  /** A segment without memory takes no page exactly if it starts with one; otherwise it takes the page it
      lies in. */
  lemma EmptySegmentPagesIff(e: Elf, mem: Memory, h: Header)
    requires Place(e, h.vaddr).Ok? && h.memSize == 0
    ensures SegSpace(e, mem, h) == map[] <==> Base(e, h) % 4096 == 0
    ensures SegSpace(e, mem, h).Keys == if Base(e, h) % 4096 == 0 then {} else {Base(e, h) / 4096}
  {
    hide Place;
    var b := Base(e, h);
    assert (b - 1) / 4096 == if b % 4096 == 0 then b / 4096 - 1 else b / 4096;
    SegSpacePage(e, mem, h, b / 4096);
    if b % 4096 == 0 {
      assert SegSpace(e, mem, h) == map[];
    }
  }

  /** Every byte of a segment: the file's below `fileSize`, zero from there to `memSize`. */
  lemma SegPageByte(e: Elf, mem: Memory, h: Header, j: nat, a: int)
    requires WellPlaced(e, h) && j < h.memSize && a == Base(e, h) + j
    ensures SegFirst(e, h) <= a / 4096 <= SegLast(e, h)
    ensures SegPage(e, mem, h, a / 4096).bytes[a % 4096] ==
            if j < h.fileSize then FileByte(e, mem, h.offset + j) else 0
  {
    var b := Base(e, h);
    AddressOnPage(b, h.memSize, j);
    assert a / 4096 * 4096 + a % 4096 == a;
    SamePageOffset(b, h.offset, j);
    hide Place;
  }

  /** Addresses that agree modulo the page size move through pages in step. */
  lemma SamePageOffset(a: int, b: int, j: int)
    requires a % 4096 == b % 4096
    ensures (a + j) % 4096 == (b + j) % 4096
    ensures (a + j) / 4096 - a / 4096 == (b + j) / 4096 - b / 4096
  {
  }

  /** The pages all load segments among the first `n` headers map. */
  function MapAll(e: Elf, mem: Memory, n: nat): Space
    requires n <= |e.headers|
  {
    if n == 0 then map[]
    else
      var h := e.headers[n - 1];
      if h.kind == Load && Place(e, h.vaddr).Ok?
      then MapAll(e, mem, n - 1) + SegSpace(e, mem, h)
      else MapAll(e, mem, n - 1)
  }

  // ---------------------------------------------------------------------------------------------
  // Relocations

  datatype Relocation = Relocation(offset: nat, info: nat, addend: nat)

  function DecodeRelocation(b: seq<Byte>): Relocation
    requires |b| == 24
  {
    Relocation(FromLE(b[..8]), FromLE(b[8..16]), FromLE(b[16..]))
  }

  function ReadEntry(e: Elf, s: Space, table: nat, idx: nat): Result<Relocation> {
    var addr :- Place(e, table + 24 * idx);
    if Mapped(s, addr, 24) then Ok(DecodeRelocation(Span(s, addr, 24)))
    else Err(Panic("address is not mapped to the kernel's memory space"))
  }

  predicate LoadContains(h: Header, address: nat) {
    h.kind == Load && h.vaddr <= address < h.vaddr + h.memSize
  }

  /** Whether no header from `i` to `k` has an unknown type. */
  predicate AllKnown(headers: seq<Header>, i: nat, k: nat)
    requires k < |headers|
  {
    forall j | i <= j <= k :: headers[j].kind != Unknown
  }

  /** `check_is_in_load` on the headers from `i` on. */
  function CheckIsInLoad(headers: seq<Header>, address: nat, i: nat): (r: Result<()>)
    requires i <= |headers|
    ensures r.Ok? <==> exists k :: i <= k < |headers| && LoadContains(headers[k], address) && AllKnown(headers, i, k)
    decreases |headers| - i
  {
    if i == |headers| then Err(Rejected("offset is not in load segment"))
    else if headers[i].kind == Unknown then Err(Rejected("unknown program header type"))
    else if LoadContains(headers[i], address) then Ok(())
    else CheckIsInLoad(headers, address, i + 1)
  }

  /** Where a relocation writes and what. */
  datatype Patch = Patch(addr: int, value: nat)

  /** The checks of `apply_relocation`. */
  function ToPatch(e: Elf, r: Relocation): Result<Patch> {
    if r.info / 0x1_0000_0000 != 0 then
      Err(Panic("relocations using the symbol table are not supported"))
    else if r.info % 0x1_0000_0000 != 8 then
      Err(Panic("relocation type not supported"))
    else
      var _ :- CheckIsInLoad(e.headers, r.offset, 0);
      var addr :- Place(e, r.offset);
      var value :- Shift(e, r.addend);
      Ok(Patch(addr, value))
  }

  function ApplyPatch(s: Space, p: Patch): Result<Space> {
    if Mapped(s, p.addr, 8) then Ok(Write(s, p.addr, ToLE(p.value, 8)))
    else Err(Panic("page is not mapped"))
  }

  /** One turn of the relocation loop, reading the entry from the space as it is by then. */
  function RelocateOne(e: Elf, s: Space, table: nat, idx: nat): Result<Space> {
    var r :- ReadEntry(e, s, table, idx);
    var p :- ToPatch(e, r);
    ApplyPatch(s, p)
  }

  /** The relocation loop from entry `idx` up to `count`. */
  function Relocate(e: Elf, s: Space, table: nat, idx: nat, count: nat): Result<Space>
    requires idx <= count
    decreases count - idx
  {
    if idx == count then Ok(s)
    else
      var s' :- RelocateOne(e, s, table, idx);
      Relocate(e, s', table, idx + 1, count)
  }

  /** The values of all entries of a dynamic section with the given tag, in order. */
  function Values(dynamic: seq<Dyn>, tag: Tag): seq<nat> {
    if dynamic == [] then []
    else
      var init := Values(dynamic[..|dynamic| - 1], tag);
      var last := dynamic[|dynamic| - 1];
      if last.tag == tag then init + [last.value] else init
  }

  /** The values found in a prefix of the section are the first ones of the whole section. */
  lemma {:induction false} ValuesPrefix(dynamic: seq<Dyn>, tag: Tag, i: nat)
    requires i <= |dynamic|
    ensures Values(dynamic[..i], tag) <= Values(dynamic, tag)
  {
    if i == |dynamic| {
      assert dynamic[..i] == dynamic;
    } else {
      ValuesPrefix(dynamic[..|dynamic| - 1], tag, i);
      assert dynamic[..|dynamic| - 1][..i] == dynamic[..i];
    }
  }

  datatype RelaTable = RelaTable(table: nat, size: nat, entrySize: nat)

  /** A dynamic section is accepted when all three relocation tags occur once, or none occurs. */
  function FindRela(dynamic: seq<Dyn>): Result<Option<RelaTable>> {
    var table, size, ent := Values(dynamic, Rela), Values(dynamic, RelaSize), Values(dynamic, RelaEnt);
    if Values(dynamic, BadTag) != [] then
      Err(Rejected("invalid tag"))
    else if |table| == |size| == |ent| == 1 then
      Ok(Some(RelaTable(table[0], size[0], ent[0])))
    else if table == size == ent == [] then
      Ok(None)
    else
      Err(Rejected("relocation tags are duplicate or missing"))
  }

  /** Whether the only entry with a tag is the `i`th. */
  predicate OnlyTag(dynamic: seq<Dyn>, tag: Tag, i: int) {
    0 <= i < |dynamic| && dynamic[i].tag == tag && forall j | 0 <= j < |dynamic| && dynamic[j].tag == tag :: j == i
  }

  predicate HasTag(dynamic: seq<Dyn>, tag: Tag) {
    exists i :: 0 <= i < |dynamic| && dynamic[i].tag == tag
  }

  lemma {:induction false} ValuesOfTag(dynamic: seq<Dyn>, tag: Tag)
    ensures Values(dynamic, tag) == [] <==> !HasTag(dynamic, tag)
    ensures |Values(dynamic, tag)| == 1 <==> exists i :: OnlyTag(dynamic, tag, i)
    ensures forall i | OnlyTag(dynamic, tag, i) :: Values(dynamic, tag) == [dynamic[i].value]
  {
    if dynamic != [] {
      var n := |dynamic| - 1;
      var init, last := dynamic[..n], dynamic[n];
      ValuesOfTag(init, tag);
      assert forall j | 0 <= j < n :: init[j] == dynamic[j];
      if last.tag == tag {
        if Values(init, tag) == [] {
          assert OnlyTag(dynamic, tag, n);
          assert forall i :: OnlyTag(dynamic, tag, i) ==> i == n;
        } else {
          var k :| 0 <= k < n && init[k].tag == tag;
          assert dynamic[k].tag == tag;
          assert forall i :: !OnlyTag(dynamic, tag, i);
        }
      } else {
        assert forall i :: OnlyTag(dynamic, tag, i) <==> OnlyTag(init, tag, i);
        assert forall i | OnlyTag(dynamic, tag, i) :: dynamic[i] == init[i];
        assert HasTag(dynamic, tag) <==> HasTag(init, tag) by {
          if k :| 0 <= k < n && init[k].tag == tag {
            assert dynamic[k].tag == tag;
          }
        }
      }
    }
  }

  /** A dynamic section asks for the relocations of a table exactly if address, size and entry size of the
      table are each given by a single entry, and no entry is invalid. */
  lemma RelaIff(dynamic: seq<Dyn>, t: RelaTable)
    ensures FindRela(dynamic) == Ok(Some(t)) <==>
            && !HasTag(dynamic, BadTag)
            && (exists i :: OnlyTag(dynamic, Rela, i) && dynamic[i].value == t.table)
            && (exists i :: OnlyTag(dynamic, RelaSize, i) && dynamic[i].value == t.size)
            && (exists i :: OnlyTag(dynamic, RelaEnt, i) && dynamic[i].value == t.entrySize)
    ensures FindRela(dynamic) == Ok(None) <==>
            && !HasTag(dynamic, BadTag) && !HasTag(dynamic, Rela)
            && !HasTag(dynamic, RelaSize) && !HasTag(dynamic, RelaEnt)
  {
    hide Values, HasTag, OnlyTag;
    ValuesOfTag(dynamic, BadTag);
    ValuesOfTag(dynamic, Rela);
    ValuesOfTag(dynamic, RelaSize);
    ValuesOfTag(dynamic, RelaEnt);
  }

  function RelocateSegment(e: Elf, s: Space, h: Header): Result<Space> {
    var found :- FindRela(h.dynamic);
    match found
    case None => Ok(s)
    case Some(t) =>
      if t.entrySize != 24 then Err(Panic("unsupported entry size"))
      else Relocate(e, s, t.table, 0, t.size / t.entrySize)
  }

  function RelocateAll(e: Elf, s: Space, n: nat): Result<Space>
    requires n <= |e.headers|
  {
    if n == 0 then Ok(s)
    else
      var s' :- RelocateAll(e, s, n - 1);
      if e.headers[n - 1].kind == Dynamic then RelocateSegment(e, s', e.headers[n - 1]) else Ok(s')
  }

  // ---------------------------------------------------------------------------------------------
  // Flag passes

  datatype Bit = Writable | Copied

  function Clear(f: Flags, bit: Bit): Flags {
    match bit
    case Writable => f.(writable := false)
    case Copied => f.(copied := false)
  }

  function ClearPages(s: Space, first: int, last: int, bit: Bit): (r: Space)
    ensures r.Keys == s.Keys
  {
    map p | p in s :: if first <= p <= last then s[p].(flags := Clear(s[p].flags, bit)) else s[p]
  }

  /** The pages from `vaddr` to `vaddr + memSize`, as the two flag passes compute them. */
  function PageRange(e: Elf, h: Header): Result<(int, int)> {
    var startAddr :- Shift(e, h.vaddr);
    var start :- VirtNew(startAddr);
    var end :- VirtNew(startAddr + h.memSize);
    var last :- Below(end);
    Ok((start / 4096, last / 4096))
  }

  predicate AllMapped(s: Space, first: int, last: int) {
    forall p | first <= p <= last :: p in s
  }

  /** Clears a flag on the pages of one header. */
  function ClearHeader(e: Elf, s: Space, h: Header, bit: Bit): Result<Space> {
    var range :- PageRange(e, h);
    if AllMapped(s, range.0, range.1) then Ok(ClearPages(s, range.0, range.1, bit))
    else Err(Panic("has the elf file not been mapped correctly?"))
  }

  /** Clears a flag on the pages of all headers of one kind. */
  function ClearAll(e: Elf, s: Space, kind: Kind, bit: Bit, n: nat): Result<Space>
    requires n <= |e.headers|
  {
    if n == 0 then Ok(s)
    else
      var s' :- ClearAll(e, s, kind, bit, n - 1);
      if e.headers[n - 1].kind == kind then ClearHeader(e, s', e.headers[n - 1], bit) else Ok(s')
  }

  // ---------------------------------------------------------------------------------------------
  // The whole pipeline

  datatype TlsTemplate = TlsTemplate(startAddr: int, memSize: nat, fileSize: nat)

  /** The thread local storage template: the only TLS segment, if there is one. */
  function FindTls(e: Elf, n: nat): Result<Option<TlsTemplate>>
    requires n <= |e.headers|
  {
    if n == 0 then Ok(None)
    else
      var h := e.headers[n - 1];
      var found :- FindTls(e, n - 1);
      if h.kind != Tls then Ok(found)
      else if found.Some? then Err(Rejected("multiple TLS segments not supported"))
      else
        var start :- Shift(e, h.vaddr);
        Ok(Some(TlsTemplate(start, h.memSize, h.fileSize)))
  }

  /** Whether the only TLS segment among the first `n` headers is the `i`th. */
  predicate OnlyTls(e: Elf, n: nat, i: int)
    requires n <= |e.headers|
  {
    0 <= i < n && e.headers[i].kind == Tls && forall j | 0 <= j < n && e.headers[j].kind == Tls :: j == i
  }

  /** The template is that of the only TLS segment, if there is one, at its address in memory. */
  lemma {:induction false} TlsIff(e: Elf, n: nat)
    requires n <= |e.headers|
    ensures FindTls(e, n) == Ok(None) <==> forall i | 0 <= i < n :: e.headers[i].kind != Tls
    ensures forall t :: FindTls(e, n) == Ok(Some(t)) <==>
              exists i :: OnlyTls(e, n, i) && TemplateOf(e, e.headers[i], t)
  {
    if n > 0 {
      TlsIff(e, n - 1);
      var h, found := e.headers[n - 1], FindTls(e, n - 1);
      if h.kind != Tls {
        assert forall i :: OnlyTls(e, n, i) <==> OnlyTls(e, n - 1, i);
      } else if found == Ok(None) {
        assert OnlyTls(e, n, n - 1);
        assert forall i :: OnlyTls(e, n, i) ==> i == n - 1;
      } else {
        TlsTwice(e, n);
      }
    }
  }

  /** Whether a template describes a segment: its address in memory, its size there and in the file. */
  predicate TemplateOf(e: Elf, h: Header, t: TlsTemplate) {
    && 0 <= e.addressOffset + h.vaddr < 0x1_0000_0000_0000_0000
    && t.startAddr == e.addressOffset + h.vaddr && t.memSize == h.memSize && t.fileSize == h.fileSize
  }

  /** With another one before it there is no only one. */
  lemma TlsTwice(e: Elf, n: nat)
    requires 0 < n <= |e.headers| && e.headers[n - 1].kind == Tls
    requires exists i :: 0 <= i < n - 1 && e.headers[i].kind == Tls
    ensures forall i :: !OnlyTls(e, n, i)
  {
  }

  /** Whether the first `n` headers have known types, one TLS segment at most, and load segments
      that can be placed and keep to pages of their own. */
  predicate Mappable(e: Elf, n: nat)
    requires n <= |e.headers|
  {
    && (forall i | 0 <= i < n :: e.headers[i].kind != Unknown)
    && FindTls(e, n).Ok?
    && (forall i | 0 <= i < n && e.headers[i].kind == Load :: Placeable(e, e.headers[i]))
    && forall i, j | 0 <= i < j < n && IsLoad(e, i) && IsLoad(e, j) :: Apart(e, e.headers[i], e.headers[j])
  }

  /** Which files can be mapped: no unknown header, one TLS segment at most, at an address of 64 bits, no
      failing address of a load segment, and no page in two of them. */
  lemma MappableIff(e: Elf, n: nat)
    requires n <= |e.headers|
    ensures Mappable(e, n) <==>
            && (forall i | 0 <= i < n :: e.headers[i].kind != Unknown)
            && (forall i, j | 0 <= i < j < n :: !(e.headers[i].kind == Tls && e.headers[j].kind == Tls))
            && (forall i | 0 <= i < n && e.headers[i].kind == Tls ::
                  0 <= e.addressOffset + e.headers[i].vaddr < 0x1_0000_0000_0000_0000)
            && (forall i | 0 <= i < n && e.headers[i].kind == Load :: Placeable(e, e.headers[i]))
            && (forall i, j, p | 0 <= i < j < n && OnSegment(e, i, p) && OnSegment(e, j, p) :: false)
  {
    TlsOkIff(e, n);
    if Mappable(e, n) {
      forall i, j, p | 0 <= i < j < n && OnSegment(e, i, p) && OnSegment(e, j, p)
        ensures false
      {
        assert IsLoad(e, i) && IsLoad(e, j);
      }
    }
    if forall i, j, p | 0 <= i < j < n && OnSegment(e, i, p) && OnSegment(e, j, p) :: false {
      forall i, j | 0 <= i < j < n && IsLoad(e, i) && IsLoad(e, j)
        ensures Apart(e, e.headers[i], e.headers[j])
      {
        var g, h := e.headers[i], e.headers[j];
        var p := if SegFirst(e, g) < SegFirst(e, h) then SegFirst(e, h) else SegFirst(e, g);
        assert !(OnSegment(e, i, p) && OnSegment(e, j, p));
      }
    }
  }

  /** Whether page `p` holds bytes of load segment `i`. */
  predicate OnSegment(e: Elf, i: nat, p: int)
    requires i < |e.headers|
  {
    && e.headers[i].kind == Load && Place(e, e.headers[i].vaddr).Ok?
    && var start := Place(e, e.headers[i].vaddr).value;
       start / 4096 <= p <= (start + e.headers[i].memSize - 1) / 4096
  }

  lemma {:induction false} TlsOkIff(e: Elf, n: nat)
    requires n <= |e.headers|
    ensures FindTls(e, n).Ok? <==>
            && (forall i, j | 0 <= i < j < n :: !(e.headers[i].kind == Tls && e.headers[j].kind == Tls))
            && (forall i | 0 <= i < n && e.headers[i].kind == Tls ::
                  0 <= e.addressOffset + e.headers[i].vaddr < 0x1_0000_0000_0000_0000)
  {
    if n > 0 {
      TlsOkIff(e, n - 1);
      NoTlsIff(e, n - 1);
    }
  }

  lemma {:induction false} NoTlsIff(e: Elf, n: nat)
    requires n <= |e.headers|
    ensures FindTls(e, n) == Ok(None) <==> forall i | 0 <= i < n :: e.headers[i].kind != Tls
  {
    if n > 0 {
      NoTlsIff(e, n - 1);
    }
  }

  predicate IsLoad(e: Elf, i: nat)
    requires i < |e.headers|
  {
    e.headers[i].kind == Load && Place(e, e.headers[i].vaddr).Ok?
  }

  /** Whether two segments share no page. */
  predicate Apart(e: Elf, g: Header, h: Header)
    requires Place(e, g.vaddr).Ok? && Place(e, h.vaddr).Ok?
  {
    SegLast(e, g) < SegFirst(e, h) || SegLast(e, h) < SegFirst(e, g)
      || SegLast(e, g) < SegFirst(e, g) || SegLast(e, h) < SegFirst(e, h)
  }

  /** The mapped pages are exactly those of the load segments. */
  lemma {:induction false} MapAllKeys(e: Elf, mem: Memory, n: nat, p: int)
    requires n <= |e.headers|
    ensures p in MapAll(e, mem, n) <==>
            exists i :: 0 <= i < n && IsLoad(e, i) && SegFirst(e, e.headers[i]) <= p <= SegLast(e, e.headers[i])
  {
    hide SegSpace, SegFirst, SegLast, Place;
    if n > 0 {
      MapAllKeys(e, mem, n - 1, p);
      if IsLoad(e, n - 1) {
        SegSpacePage(e, mem, e.headers[n - 1], p);
      }
    }
  }

  /** The space after all four passes: map, relocate, apply RELRO, drop the copied marks. */
  function LoadImage(e: Elf, mem: Memory): Result<Space> {
    var n := |e.headers|;
    var relocated :- RelocateAll(e, MapAll(e, mem, n), n);
    var protected :- ClearAll(e, relocated, GnuRelro, Writable, n);
    ClearAll(e, protected, Load, Copied, n)
  }
}
