/** What the loaded image looks like: bytes, relocated values and permissions of every page. */
module KernelImage {
  import opened Bytes
  import opened Outcomes
  import opened VirtualSpace
  import opened ElfImage

  // ---------------------------------------------------------------------------------------------
  // Mapping

  /** After the first pass, each page of a load segment is as that segment alone asks for. */
  lemma {:induction false} MapAllPage(e: Elf, mem: Memory, n: nat, i: nat, p: int)
    requires i < n <= |e.headers| && Mappable(e, |e.headers|) && IsLoad(e, i)
    requires SegFirst(e, e.headers[i]) <= p <= SegLast(e, e.headers[i])
    ensures p in MapAll(e, mem, n) && MapAll(e, mem, n)[p] == SegPage(e, mem, e.headers[i], p)
  {
    hide SegSpace, SegPage, SegFirst, SegLast, Place;
    if IsLoad(e, n - 1) {
      SegSpacePage(e, mem, e.headers[n - 1], p);
    }
    if i < n - 1 {
      MapAllPage(e, mem, n - 1, i, p);
      if IsLoad(e, n - 1) {
        assert Apart(e, e.headers[i], e.headers[n - 1]);
      }
    }
  }

  // ---------------------------------------------------------------------------------------------
  // Relocations

  /** All patches written one after the other. */
  function WriteAll(s: Space, ps: seq<Patch>): (r: Space)
    ensures r.Keys == s.Keys
  {
    if ps == [] then s
    else
      var last := ps[|ps| - 1];
      Write(WriteAll(s, ps[..|ps| - 1]), last.addr, ToLE(last.value, 8))
  }

  predicate Disjoint(a: int, n: int, b: int, m: int) {
    a + n <= b || b + m <= a
  }

  predicate Covers(p: Patch, a: int) {
    p.addr <= a < p.addr + 8
  }

  lemma {:induction false} SpanAfterWriteAll(s: Space, ps: seq<Patch>, a: int, len: nat)
    requires Mapped(s, a, len)
    requires forall k | 0 <= k < |ps| :: Disjoint(ps[k].addr, 8, a, len)
    ensures Span(WriteAll(s, ps), a, len) == Span(s, a, len)
  {
    if ps != [] {
      var init := ps[..|ps| - 1];
      SpanAfterWriteAll(s, init, a, len);
      SpanAfterDisjointWrite(WriteAll(s, init), ps[|ps| - 1].addr, ToLE(ps[|ps| - 1].value, 8), a, len);
    }
  }

  /** Bytes no patch covers stay. */
  lemma {:induction false} UncoveredByte(s: Space, ps: seq<Patch>, a: int)
    requires a / 4096 in s && forall p | p in ps :: !Covers(p, a)
    ensures Get(WriteAll(s, ps), a) == Get(s, a)
  {
    if ps != [] {
      var init := ps[..|ps| - 1];
      UncoveredByte(s, init, a);
      assert ps[|ps| - 1] in ps;
      GetWrite(WriteAll(s, init), ps[|ps| - 1].addr, ToLE(ps[|ps| - 1].value, 8), a);
    }
  }

  /** A byte covered by a patch, and by no later one, has the value of that patch. */
  lemma {:induction false} CoveredByte(s: Space, ps: seq<Patch>, k: nat, a: int)
    requires a / 4096 in s && k < |ps| && Covers(ps[k], a)
    requires forall j | k < j < |ps| :: !Covers(ps[j], a)
    ensures Get(WriteAll(s, ps), a) == ToLE(ps[k].value, 8)[a - ps[k].addr]
  {
    var init, last := ps[..|ps| - 1], ps[|ps| - 1];
    GetWrite(WriteAll(s, init), last.addr, ToLE(last.value, 8), a);
    if k < |ps| - 1 {
      CoveredByte(s, init, k, a);
    }
  }

  /** Patches keep all flags but the copied mark. */
  lemma {:induction false} FlagsAfterWriteAll(s: Space, ps: seq<Patch>, p: int)
    requires p in s
    ensures WriteAll(s, ps)[p].flags.(copied := false) == s[p].flags.(copied := false)
  {
    if ps != [] {
      var init := ps[..|ps| - 1];
      FlagsAfterWriteAll(s, init, p);
      FlagsAfterWrite(WriteAll(s, init), ps[|ps| - 1].addr, ToLE(ps[|ps| - 1].value, 8), p);
    }
  }

  /** Whether entry `k` can be read from `s` and asks for a relocation that can be applied. */
  predicate SoundEntry(e: Elf, s: Space, table: nat, k: nat) {
    var r := ReadEntry(e, s, table, k);
    r.Ok? && ToPatch(e, r.value).Ok? && Mapped(s, ToPatch(e, r.value).value.addr, 8)
  }

  /** Which entries can be applied: the 24 bytes are mapped, the type is 8 (R_X86_64_RELATIVE in section
      4.4.1 of the System V AMD64 psABI) without a symbol, the offset lies in a load segment and no header
      before has an unknown type, the eight bytes there are mapped, and the value fits 64 bits. */
  lemma SoundEntryIff(e: Elf, s: Space, table: nat, k: nat)
    ensures SoundEntry(e, s, table, k) <==>
            && Place(e, table + 24 * k).Ok?
            && var at := Place(e, table + 24 * k).value;
               && Mapped(s, at, 24)
               && var b := Span(s, at, 24);
                  && b[8..16] == [8, 0, 0, 0, 0, 0, 0, 0]
                  && (exists j :: && 0 <= j < |e.headers| && e.headers[j].kind == Load
                                  && e.headers[j].vaddr <= FromLE(b[..8]) < e.headers[j].vaddr + e.headers[j].memSize
                                  && forall i | 0 <= i <= j :: e.headers[i].kind != Unknown)
                  && Place(e, FromLE(b[..8])).Ok? && Mapped(s, Place(e, FromLE(b[..8])).value, 8)
                  && 0 <= e.addressOffset + FromLE(b[16..]) < 0x1_0000_0000_0000_0000
  {
    hide CheckIsInLoad, Span, Place, FromLE;
    if Place(e, table + 24 * k).Ok? && Mapped(s, Place(e, table + 24 * k).value, 24) {
      var b := Span(s, Place(e, table + 24 * k).value, 24);
      TypeIsRelative(b[8..16]);
      InLoadIff(e.headers, FromLE(b[..8]));
    }
  }

  lemma TypeIsRelative(b: seq<Byte>)
    requires |b| == 8
    ensures FromLE(b) / 0x1_0000_0000 == 0 && FromLE(b) % 0x1_0000_0000 == 8 <==> b == [8, 0, 0, 0, 0, 0, 0, 0]
  {
    ToFromLE(b);
    ZeroDigits(7);
    assert ToLE(8, 8) == [8] + ToLE(0, 7) == [8, 0, 0, 0, 0, 0, 0, 0];
    Capacities();
    FromToLE(8, 8);
    hide FromLE, ToLE;
  }

  lemma {:induction false} ZeroDigits(n: nat)
    ensures ToLE(0, n) == seq(n, i => 0)
  {
    if n > 0 {
      ZeroDigits(n - 1);
    }
  }

  lemma InLoadIff(headers: seq<Header>, address: nat)
    ensures CheckIsInLoad(headers, address, 0).Ok? <==>
            exists j :: && 0 <= j < |headers| && headers[j].kind == Load
                        && headers[j].vaddr <= address < headers[j].vaddr + headers[j].memSize
                        && forall i | 0 <= i <= j :: headers[i].kind != Unknown
  {
    if k :| 0 <= k < |headers| && LoadContains(headers[k], address) && AllKnown(headers, 0, k) {
      assert forall i | 0 <= i <= k :: headers[i].kind != Unknown;
    }
    if j :| 0 <= j < |headers| && headers[j].kind == Load
            && headers[j].vaddr <= address < headers[j].vaddr + headers[j].memSize
            && forall i | 0 <= i <= j :: headers[i].kind != Unknown
    {
      assert LoadContains(headers[j], address) && AllKnown(headers, 0, j);
    }
  }

  function EntryPatch(e: Elf, s: Space, table: nat, k: nat): Patch
    requires SoundEntry(e, s, table, k)
  {
    ToPatch(e, ReadEntry(e, s, table, k).value).value
  }

  /** Whether relocation `j` leaves entry `k` as it is. */
  predicate Spares(e: Elf, s: Space, table: nat, j: nat, k: nat)
    requires SoundEntry(e, s, table, j) && SoundEntry(e, s, table, k)
  {
    Disjoint(EntryPatch(e, s, table, j).addr, 8, Place(e, table + 24 * k).value, 24)
  }

  /** Whether all entries are sound, and none is changed by a relocation before its turn comes. */
  predicate SoundTable(e: Elf, s: Space, table: nat, count: nat) {
    && (forall k | 0 <= k < count :: SoundEntry(e, s, table, k))
    && forall j, k | 0 <= j < k < count :: Spares(e, s, table, j, k)
  }

  /** The patches the table asks for, all read from the image before any is applied. */
  function Patches(e: Elf, s: Space, table: nat, count: nat): (ps: seq<Patch>)
    requires SoundTable(e, s, table, count)
    ensures |ps| == count
  {
    seq(count, k requires 0 <= k < count => EntryPatch(e, s, table, k))
  }

  /** When its turn comes, an entry still reads as it did in the original image. */
  lemma EntryUntouched(e: Elf, s: Space, table: nat, count: nat, idx: nat)
    requires SoundTable(e, s, table, count) && idx < count
    ensures var now := WriteAll(s, Patches(e, s, table, count)[..idx]);
            ReadEntry(e, now, table, idx) == ReadEntry(e, s, table, idx)
  {
    hide WriteAll, ToPatch;
    var ps := Patches(e, s, table, count);
    assert SoundEntry(e, s, table, idx);
    var addr := Place(e, table + 24 * idx).value;
    forall j | 0 <= j < idx
      ensures Disjoint(ps[..idx][j].addr, 8, addr, 24)
    {
      assert Spares(e, s, table, j, idx);
    }
    SpanAfterWriteAll(s, ps[..idx], addr, 24);
  }

  lemma RelocateStep(e: Elf, s: Space, table: nat, count: nat, idx: nat)
    requires SoundTable(e, s, table, count) && idx < count
    ensures var ps := Patches(e, s, table, count);
            RelocateOne(e, WriteAll(s, ps[..idx]), table, idx) == Ok(WriteAll(s, ps[..idx + 1]))
  {
    var ps := Patches(e, s, table, count);
    assert SoundEntry(e, s, table, idx);
    EntryUntouched(e, s, table, count, idx);
    WriteAllNext(s, ps, idx);
    hide SoundTable, ReadEntry, ToPatch, WriteAll, Write, ToLE, Spares, Place;
    assert ps[idx] == EntryPatch(e, s, table, idx);
    hide Patches;
  }

  lemma WriteAllNext(s: Space, ps: seq<Patch>, idx: nat)
    requires idx < |ps|
    ensures WriteAll(s, ps[..idx + 1]) == Write(WriteAll(s, ps[..idx]), ps[idx].addr, ToLE(ps[idx].value, 8))
  {
    assert ps[..idx + 1][..idx] == ps[..idx];
    hide Write, ToLE;
  }

  /** The loop, which reads each entry from memory it has already changed, does what applying the
      original table does. */
  lemma {:induction false} RelocateAtOnce(e: Elf, s: Space, table: nat, count: nat, idx: nat)
    requires SoundTable(e, s, table, count) && idx <= count
    ensures var ps := Patches(e, s, table, count);
            Relocate(e, WriteAll(s, ps[..idx]), table, idx, count) == Ok(WriteAll(s, ps))
    decreases count - idx
  {
    hide SoundTable, Patches, RelocateOne, WriteAll;
    var ps := Patches(e, s, table, count);
    if idx == count {
      assert ps[..idx] == ps;
    } else {
      RelocateStep(e, s, table, count, idx);
      RelocateAtOnce(e, s, table, count, idx + 1);
    }
  }

  /** Whether `ps` are the patches of the file, all of them sound: the file has no dynamic segment,
      or one, whose relocation table, if present, is sound in the mapped image `s`. */
  ghost predicate FilePatches(e: Elf, s: Space, ps: seq<Patch>) {
    || (ps == [] && forall i | 0 <= i < |e.headers| :: e.headers[i].kind != Dynamic)
    || exists d | 0 <= d < |e.headers| :: DynamicPatches(e, s, ps, d)
  }

  ghost predicate DynamicPatches(e: Elf, s: Space, ps: seq<Patch>, d: nat)
    requires d < |e.headers|
  {
    && (forall i | 0 <= i < |e.headers| :: e.headers[i].kind == Dynamic <==> i == d)
    && match FindRela(e.headers[d].dynamic)
       case Ok(None) => ps == []
       case Ok(Some(t)) =>
         && t.entrySize == 24
         && SoundTable(e, s, t.table, t.size / 24)
         && ps == Patches(e, s, t.table, t.size / 24)
       case Err(_) => false
  }

  lemma RelocateSegmentAtOnce(e: Elf, s: Space, ps: seq<Patch>, d: nat)
    requires d < |e.headers| && DynamicPatches(e, s, ps, d)
    ensures RelocateSegment(e, s, e.headers[d]) == Ok(WriteAll(s, ps))
  {
    hide FindRela, Relocate, SoundTable, Patches;
    match FindRela(e.headers[d].dynamic)
    case Ok(None) =>
    case Ok(Some(t)) =>
      RelocateAtOnce(e, s, t.table, t.size / 24, 0);
      assert ps[..0] == [];
  }

  lemma RelocateAllAtOnce(e: Elf, s: Space, ps: seq<Patch>)
    requires FilePatches(e, s, ps)
    ensures RelocateAll(e, s, |e.headers|) == Ok(WriteAll(s, ps))
  {
    hide RelocateSegment, FindRela, SoundTable, Patches, WriteAll;
    if d :| 0 <= d < |e.headers| && DynamicPatches(e, s, ps, d) {
      NoDynamic(e, s, 0, d);
      RelocateSegmentAtOnce(e, s, ps, d);
      NoDynamic(e, s, d + 1, |e.headers|);
    } else {
      NoDynamic(e, s, 0, |e.headers|);
      WriteNothing(s);
    }
  }

  lemma WriteNothing(s: Space)
    ensures WriteAll(s, []) == s
  {
  }

  lemma {:induction false} NoDynamic(e: Elf, s: Space, i: nat, n: nat)
    requires i <= n <= |e.headers| && forall k | i <= k < n :: e.headers[k].kind != Dynamic
    ensures RelocateAll(e, s, n) == RelocateAll(e, s, i)
  {
    hide RelocateSegment;
    if i < n {
      NoDynamic(e, s, i, n - 1);
    }
  }

  // ---------------------------------------------------------------------------------------------
  // Flags

  /** Whether page `p` is among the pages of header `h`. */
  predicate OnPages(e: Elf, h: Header, p: int) {
    PageRange(e, h).Ok? && PageRange(e, h).value.0 <= p <= PageRange(e, h).value.1
  }

  /** Whether page `p` is among the pages of one of the first `n` headers of the given kind. */
  predicate OnKind(e: Elf, kind: Kind, n: nat, p: int)
    requires n <= |e.headers|
  {
    exists i :: 0 <= i < n && e.headers[i].kind == kind && OnPages(e, e.headers[i], p)
  }

  /** The pages a flag pass works on are those from the first to the last byte of its headers. */
  lemma OnKindIff(e: Elf, kind: Kind, n: nat, p: int)
    requires n <= |e.headers|
    requires forall i | 0 <= i < n && e.headers[i].kind == kind ::
               PageRange(e, e.headers[i]).Ok? && e.headers[i].memSize <= HALF
    ensures OnKind(e, kind, n, p) <==>
            exists i :: && 0 <= i < n && e.headers[i].kind == kind && Place(e, e.headers[i].vaddr).Ok?
                        && var start := Place(e, e.headers[i].vaddr).value;
                           start / 4096 <= p <= (start + e.headers[i].memSize - 1) / 4096
  {
    hide Place;
    forall i | 0 <= i < n && e.headers[i].kind == kind
      ensures Place(e, e.headers[i].vaddr).Ok?
      ensures var start := Place(e, e.headers[i].vaddr).value;
              OnPages(e, e.headers[i], p) <==> start / 4096 <= p <= (start + e.headers[i].memSize - 1) / 4096
    {
      PagesOfHeader(e, e.headers[i]);
    }
  }

  lemma PagesOfHeader(e: Elf, h: Header)
    requires PageRange(e, h).Ok? && h.memSize <= HALF
    ensures Place(e, h.vaddr).Ok?
    ensures var start := Place(e, h.vaddr).value;
            PageRange(e, h) == Ok((start / 4096, (start + h.memSize - 1) / 4096))
  {
    VirtNewShift(e.addressOffset + h.vaddr, h.memSize);
  }

  /** A flag pass clears the flag on exactly the pages of its headers, and changes nothing else. */
  lemma {:induction false} ClearAllPage(e: Elf, s: Space, kind: Kind, bit: Bit, n: nat, p: int)
    requires n <= |e.headers| && ClearAll(e, s, kind, bit, n).Ok? && p in s
    ensures p in ClearAll(e, s, kind, bit, n).value
    ensures ClearAll(e, s, kind, bit, n).value[p] ==
            if OnKind(e, kind, n, p) then s[p].(flags := Clear(s[p].flags, bit)) else s[p]
  {
    if n > 0 {
      ClearAllPage(e, s, kind, bit, n - 1, p);
      var h := e.headers[n - 1];
      assert OnKind(e, kind, n, p) <==>
             OnKind(e, kind, n - 1, p) || (h.kind == kind && OnPages(e, h, p));
    }
  }

  lemma {:induction false} ClearAllKeys(e: Elf, s: Space, kind: Kind, bit: Bit, n: nat)
    requires n <= |e.headers| && ClearAll(e, s, kind, bit, n).Ok?
    ensures ClearAll(e, s, kind, bit, n).value.Keys == s.Keys
  {
    if n > 0 {
      ClearAllKeys(e, s, kind, bit, n - 1);
    }
  }

  lemma {:induction false} ClearAllSucceeds(e: Elf, s: Space, kind: Kind, bit: Bit, n: nat)
    requires n <= |e.headers|
    requires forall i | 0 <= i < n && e.headers[i].kind == kind ::
               PageRange(e, e.headers[i]).Ok? &&
               AllMapped(s, PageRange(e, e.headers[i]).value.0, PageRange(e, e.headers[i]).value.1)
    ensures ClearAll(e, s, kind, bit, n).Ok?
  {
    if n > 0 {
      ClearAllSucceeds(e, s, kind, bit, n - 1);
      ClearAllKeys(e, s, kind, bit, n - 1);
    }
  }

  /** The flag passes go over exactly the pages of a load segment. */
  lemma LoadPageRange(e: Elf, h: Header)
    requires WellPlaced(e, h) && Placeable(e, h)
    ensures PageRange(e, h) == Ok((SegFirst(e, h), SegLast(e, h)))
  {
    VirtNewShift(e.addressOffset + h.vaddr, h.memSize);
  }

  // ---------------------------------------------------------------------------------------------
  // The theorems

  /** A file the bootloader promises to load. */
  ghost predicate Loadable(e: Elf, mem: Memory, ps: seq<Patch>) {
    && Mappable(e, |e.headers|)
    && (forall i | 0 <= i < |e.headers| && e.headers[i].kind == Load :: WellPlaced(e, e.headers[i]))
    && FilePatches(e, MapAll(e, mem, |e.headers|), ps)
    && forall i | 0 <= i < |e.headers| && e.headers[i].kind == GnuRelro ::
         PageRange(e, e.headers[i]).Ok? &&
         AllMapped(MapAll(e, mem, |e.headers|), PageRange(e, e.headers[i]).value.0, PageRange(e, e.headers[i]).value.1)
  }

  /** Every such file has an image. */
  lemma LoadImageSucceeds(e: Elf, mem: Memory, ps: seq<Patch>)
    requires Loadable(e, mem, ps)
    ensures LoadImage(e, mem).Ok?
    ensures LoadImage(e, mem).value.Keys == MapAll(e, mem, |e.headers|).Keys
  {
    var n := |e.headers|;
    var mapped := MapAll(e, mem, n);
    RelocateAllAtOnce(e, mapped, ps);
    var relocated := WriteAll(mapped, ps);
    ClearAllSucceeds(e, relocated, GnuRelro, Writable, n);
    ClearAllKeys(e, relocated, GnuRelro, Writable, n);
    var protected := ClearAll(e, relocated, GnuRelro, Writable, n).value;
    forall i | 0 <= i < n && e.headers[i].kind == Load
      ensures PageRange(e, e.headers[i]).Ok? &&
              AllMapped(protected, PageRange(e, e.headers[i]).value.0, PageRange(e, e.headers[i]).value.1)
    {
      LoadPageRange(e, e.headers[i]);
      assert IsLoad(e, i);
      forall p | SegFirst(e, e.headers[i]) <= p <= SegLast(e, e.headers[i])
        ensures p in mapped
      {
        MapAllKeys(e, mem, n, p);
      }
    }
    ClearAllSucceeds(e, protected, Load, Copied, n);
    ClearAllKeys(e, protected, Load, Copied, n);
  }

  /** Whatever the file, if it has an image, exactly the pages of its load segments are mapped in it. */
  lemma LoadImageKeys(e: Elf, mem: Memory)
    requires LoadImage(e, mem).Ok?
    ensures LoadImage(e, mem).value.Keys == MapAll(e, mem, |e.headers|).Keys
  {
    hide MapAll, RelocateAll, ClearAll;
    var n := |e.headers|;
    RelocateAllKeys(e, MapAll(e, mem, n), n);
    var relocated := RelocateAll(e, MapAll(e, mem, n), n).value;
    ClearAllKeys(e, relocated, GnuRelro, Writable, n);
    ClearAllKeys(e, ClearAll(e, relocated, GnuRelro, Writable, n).value, Load, Copied, n);
  }

  lemma {:induction false} RelocateAllKeys(e: Elf, s: Space, n: nat)
    requires n <= |e.headers| && RelocateAll(e, s, n).Ok?
    ensures RelocateAll(e, s, n).value.Keys == s.Keys
  {
    hide Relocate, FindRela;
    if n > 0 {
      RelocateAllKeys(e, s, n - 1);
      var before := RelocateAll(e, s, n - 1).value;
      match FindRela(e.headers[n - 1].dynamic)
      case Ok(Some(t)) =>
        if e.headers[n - 1].kind == Dynamic {
          RelocateKeys(e, before, t.table, 0, t.size / 24);
        }
      case _ =>
    }
  }

  lemma {:induction false} RelocateKeys(e: Elf, s: Space, table: nat, idx: nat, count: nat)
    requires idx <= count && Relocate(e, s, table, idx, count).Ok?
    ensures Relocate(e, s, table, idx, count).value.Keys == s.Keys
    decreases count - idx
  {
    hide ReadEntry, ToPatch, Write;
    if idx < count {
      RelocateKeys(e, RelocateOne(e, s, table, idx).value, table, idx + 1, count);
    }
  }

  /** How each page of the image comes from the mapped and relocated one. */
  lemma ImagePage(e: Elf, mem: Memory, ps: seq<Patch>, p: int)
    requires Loadable(e, mem, ps) && p in MapAll(e, mem, |e.headers|)
    ensures LoadImage(e, mem).Ok? && p in LoadImage(e, mem).value
    ensures var relocated := WriteAll(MapAll(e, mem, |e.headers|), ps)[p];
            LoadImage(e, mem).value[p] ==
            VPage(relocated.bytes,
              Flags(relocated.flags.writable && !OnKind(e, GnuRelro, |e.headers|, p),
                    relocated.flags.noExecute, false))
  {
    var n := |e.headers|;
    LoadImageSucceeds(e, mem, ps);
    var mapped := MapAll(e, mem, n);
    RelocateAllAtOnce(e, mapped, ps);
    var relocated := WriteAll(mapped, ps);
    ClearAllPage(e, relocated, GnuRelro, Writable, n, p);
    var protected := ClearAll(e, relocated, GnuRelro, Writable, n).value;
    ClearAllPage(e, protected, Load, Copied, n, p);
    MapAllKeys(e, mem, n, p);
    var i :| 0 <= i < n && IsLoad(e, i) && SegFirst(e, e.headers[i]) <= p <= SegLast(e, e.headers[i]);
    LoadPageRange(e, e.headers[i]);
    assert OnPages(e, e.headers[i], p);
    assert OnKind(e, Load, n, p);
  }

  /** The byte of segment `h` at distance `j` from its start, as the file stores it. */
  function StoredByte(e: Elf, mem: Memory, h: Header, j: nat): Byte {
    if j < h.fileSize then FileByte(e, mem, h.offset + j) else 0
  }

  /** The byte the mapping pass puts at an address of a load segment. */
  lemma MappedByte(e: Elf, mem: Memory, i: nat, j: nat, a: int)
    requires Mappable(e, |e.headers|) && i < |e.headers| && IsLoad(e, i)
    requires WellPlaced(e, e.headers[i]) && j < e.headers[i].memSize && a == Base(e, e.headers[i]) + j
    ensures a / 4096 in MapAll(e, mem, |e.headers|)
    ensures Get(MapAll(e, mem, |e.headers|), a) == StoredByte(e, mem, e.headers[i], j)
  {
    hide MapAll, Mappable, SegPage, FileByte, Place;
    SegPageByte(e, mem, e.headers[i], j, a);
    MapAllPage(e, mem, |e.headers|, i, a / 4096);
  }

  /** The `n` bytes of segment `h` from distance `j` on, as the file stores them. */
  function StoredBytes(e: Elf, mem: Memory, h: Header, j: nat, n: nat): seq<Byte> {
    seq<Byte>(n, k requires 0 <= k < n => StoredByte(e, mem, h, j + k))
  }

  /** The mapping pass puts them all there. */
  lemma MappedBytes(e: Elf, mem: Memory, i: nat, j: nat, n: nat, a: int)
    requires Mappable(e, |e.headers|) && i < |e.headers| && IsLoad(e, i) && WellPlaced(e, e.headers[i])
    requires 0 < n && j + n <= e.headers[i].memSize && a == Base(e, e.headers[i]) + j
    ensures Mapped(MapAll(e, mem, |e.headers|), a, n)
    ensures Span(MapAll(e, mem, |e.headers|), a, n) == StoredBytes(e, mem, e.headers[i], j, n)
  {
    hide MapAll, Mappable, WellPlaced, StoredByte, Place;
    var mapped := MapAll(e, mem, |e.headers|);
    forall p | FirstPage(a) <= p <= LastPage(a, n)
      ensures p in mapped
    {
      var k := if p * 4096 <= a then 0 else p * 4096 - a;
      MappedByte(e, mem, i, j + k, a + k);
    }
    forall k | 0 <= k < n
      ensures Span(mapped, a, n)[k] == StoredBytes(e, mem, e.headers[i], j, n)[k]
    {
      MappedByte(e, mem, i, j + k, a + k);
    }
  }

  /** And the one in the image. */
  lemma ImageByte(e: Elf, mem: Memory, ps: seq<Patch>, i: nat, j: nat, a: int, mapped: Space)
    requires Loadable(e, mem, ps) && mapped == MapAll(e, mem, |e.headers|)
    requires i < |e.headers| && e.headers[i].kind == Load && j < e.headers[i].memSize
    requires a == Base(e, e.headers[i]) + j
    ensures a / 4096 in mapped && Get(mapped, a) == StoredByte(e, mem, e.headers[i], j)
    ensures LoadImage(e, mem).Ok? && a / 4096 in LoadImage(e, mem).value
    ensures Get(LoadImage(e, mem).value, a) == Get(WriteAll(mapped, ps), a)
  {
    hide WriteAll, LoadImage, FilePatches, Mappable, MapAll, OnKind, Place;
    assert IsLoad(e, i);
    MappedByte(e, mem, i, j, a);
    ImagePage(e, mem, ps, a / 4096);
  }

  /** A byte of a load segment that no relocation covers: the file's, or zero beyond the stored part. */
  lemma ImageStoredByte(e: Elf, mem: Memory, ps: seq<Patch>, i: nat, j: nat, a: int)
    requires Loadable(e, mem, ps)
    requires i < |e.headers| && e.headers[i].kind == Load && j < e.headers[i].memSize
    requires a == Base(e, e.headers[i]) + j && forall p | p in ps :: !Covers(p, a)
    ensures LoadImage(e, mem).Ok? && a / 4096 in LoadImage(e, mem).value
    ensures Get(LoadImage(e, mem).value, a) == StoredByte(e, mem, e.headers[i], j)
  {
    hide WriteAll, LoadImage, FilePatches, Mappable;
    ImageByte(e, mem, ps, i, j, a, MapAll(e, mem, |e.headers|));
    UncoveredByte(MapAll(e, mem, |e.headers|), ps, a);
  }

  /** A byte of a load segment that a relocation covers: the relocated value of the last such one. */
  lemma ImageRelocatedByte(e: Elf, mem: Memory, ps: seq<Patch>, i: nat, j: nat, a: int, k: nat)
    requires Loadable(e, mem, ps)
    requires i < |e.headers| && e.headers[i].kind == Load && j < e.headers[i].memSize
    requires a == Base(e, e.headers[i]) + j
    requires k < |ps| && Covers(ps[k], a) && forall m | k < m < |ps| :: !Covers(ps[m], a)
    ensures LoadImage(e, mem).Ok? && a / 4096 in LoadImage(e, mem).value
    ensures Get(LoadImage(e, mem).value, a) == ToLE(ps[k].value, 8)[a - ps[k].addr]
  {
    hide WriteAll, LoadImage, FilePatches, Mappable;
    ImageByte(e, mem, ps, i, j, a, MapAll(e, mem, |e.headers|));
    CoveredByte(MapAll(e, mem, |e.headers|), ps, k, a);
  }

  /** What the bytes of a sound entry ask for. */
  lemma EntryMeaning(e: Elf, s: Space, table: nat, k: nat, at: int, addr: int)
    requires SoundEntry(e, s, table, k)
    requires Place(e, table + 24 * k) == Ok(at) && Mapped(s, at, 24)
    requires Place(e, FromLE(Span(s, at, 24)[..8])) == Ok(addr)
    ensures EntryPatch(e, s, table, k).addr == addr && Mapped(s, addr, 8)
    ensures EntryPatch(e, s, table, k).value == e.addressOffset + FromLE(Span(s, at, 24)[16..])
  {
    hide CheckIsInLoad, Place, Span, FromLE;
  }

  /** The eight bytes a relocation writes, if no later one writes over them. */
  lemma WrittenWord(e: Elf, mem: Memory, ps: seq<Patch>, k: nat)
    requires Loadable(e, mem, ps) && k < |ps|
    requires Mapped(MapAll(e, mem, |e.headers|), ps[k].addr, 8)
    requires forall j | k < j < |ps| :: Disjoint(ps[j].addr, 8, ps[k].addr, 8)
    ensures LoadImage(e, mem).Ok? && Mapped(LoadImage(e, mem).value, ps[k].addr, 8)
    ensures Span(LoadImage(e, mem).value, ps[k].addr, 8) == ToLE(ps[k].value, 8)
  {
    hide LoadImage, MapAll, WriteAll, Loadable, OnKind, ToLE;
    LoadImageSucceeds(e, mem, ps);
    forall i | 0 <= i < 8
      ensures Span(LoadImage(e, mem).value, ps[k].addr, 8)[i] == ToLE(ps[k].value, 8)[i]
    {
      AddressOnPage(ps[k].addr, 8, i);
      ImagePage(e, mem, ps, (ps[k].addr + i) / 4096);
      CoveredByte(MapAll(e, mem, |e.headers|), ps, k, ps[k].addr + i);
      assert Get(LoadImage(e, mem).value, ps[k].addr + i)
          == Get(WriteAll(MapAll(e, mem, |e.headers|), ps), ps[k].addr + i);
    }
  }

  lemma EntryValueFits(e: Elf, s: Space, table: nat, k: nat)
    requires SoundEntry(e, s, table, k)
    ensures EntryPatch(e, s, table, k).value < Capacity(8)
  {
    hide CheckIsInLoad, Place, Span, FromLE;
    Capacities();
  }

  /** A relocation in the terms of section 4.4.1 of the System V AMD64 psABI, B + A: where entry `k` of
      the table, lying at `at`, points to, the image holds the load offset plus the addend. */
  lemma RelocatedWord(e: Elf, mem: Memory, mapped: Space, table: nat, count: nat, k: nat, at: int, addr: int)
    requires mapped == MapAll(e, mem, |e.headers|) && SoundTable(e, mapped, table, count) && k < count
    requires Loadable(e, mem, Patches(e, mapped, table, count))
    requires Place(e, table + 24 * k) == Ok(at) && Mapped(mapped, at, 24)
    requires Place(e, FromLE(Span(mapped, at, 24)[..8])) == Ok(addr)
    requires forall j | k < j < count :: Disjoint(Patches(e, mapped, table, count)[j].addr, 8, addr, 8)
    ensures LoadImage(e, mem).Ok? && Mapped(LoadImage(e, mem).value, addr, 8)
    ensures FromLE(Span(LoadImage(e, mem).value, addr, 8)) == e.addressOffset + FromLE(Span(mapped, at, 24)[16..])
  {
    hide LoadImage, MapAll, Loadable, SoundEntry, EntryPatch, Place, Span, FromLE, ToLE;
    assert SoundEntry(e, mapped, table, k);
    hide SoundTable;
    EntryMeaning(e, mapped, table, k, at, addr);
    EntryValueFits(e, mapped, table, k);
    assert Patches(e, mapped, table, count)[k] == EntryPatch(e, mapped, table, k);
    WrittenWord(e, mem, Patches(e, mapped, table, count), k);
    FromToLE(EntryPatch(e, mapped, table, k).value, 8);
  }

  /** The same for an entry that lies in load segment `i`, at distance `j` from its start: offset and addend
      are those the file stores. */
  lemma RelocatedFileWord(e: Elf, mem: Memory, mapped: Space, table: nat, count: nat, k: nat, i: nat, j: nat, addr: int)
    requires mapped == MapAll(e, mem, |e.headers|) && SoundTable(e, mapped, table, count) && k < count
    requires Loadable(e, mem, Patches(e, mapped, table, count))
    requires i < |e.headers| && e.headers[i].kind == Load && j + 24 <= e.headers[i].memSize
    requires Place(e, table + 24 * k) == Ok(Base(e, e.headers[i]) + j)
    requires Place(e, FromLE(StoredBytes(e, mem, e.headers[i], j, 24)[..8])) == Ok(addr)
    requires forall m | k < m < count :: Disjoint(Patches(e, mapped, table, count)[m].addr, 8, addr, 8)
    ensures LoadImage(e, mem).Ok? && Mapped(LoadImage(e, mem).value, addr, 8)
    ensures FromLE(Span(LoadImage(e, mem).value, addr, 8))
            == e.addressOffset + FromLE(StoredBytes(e, mem, e.headers[i], j, 24)[16..])
  {
    LoadablePlaces(e, mem, Patches(e, mapped, table, count), i);
    hide LoadImage, MapAll, Loadable, SoundTable, Patches, Place, Span, StoredBytes, FromLE, WellPlaced, Mappable;
    var at := Base(e, e.headers[i]) + j;
    MappedBytes(e, mem, i, j, 24, at);
    RelocatedWord(e, mem, mapped, table, count, k, at, addr);
  }

  lemma LoadablePlaces(e: Elf, mem: Memory, ps: seq<Patch>, i: nat)
    requires Loadable(e, mem, ps) && i < |e.headers| && e.headers[i].kind == Load
    ensures Mappable(e, |e.headers|) && IsLoad(e, i) && WellPlaced(e, e.headers[i])
  {
  }

  /** The permissions of every page of every load segment; no page keeps the copied mark, and no
      other page is mapped. */
  lemma ImagePermissions(e: Elf, mem: Memory, ps: seq<Patch>, i: nat, p: int)
    requires Loadable(e, mem, ps) && i < |e.headers| && e.headers[i].kind == Load
    requires SegFirst(e, e.headers[i]) <= p <= SegLast(e, e.headers[i])
    ensures LoadImage(e, mem).Ok? && p in LoadImage(e, mem).value
    ensures LoadImage(e, mem).value[p].flags ==
            Flags(e.headers[i].writable && !OnKind(e, GnuRelro, |e.headers|, p), !e.headers[i].executable, false)
  {
    var n := |e.headers|;
    assert IsLoad(e, i);
    MapAllPage(e, mem, n, i, p);
    ImagePage(e, mem, ps, p);
    FlagsAfterWriteAll(MapAll(e, mem, n), ps, p);
  }
}
