/** The allocator of level 4 page table entries, which places everything without a fixed address. */
module Level4Entries {
  import opened Outcomes
  import opened VirtualSpace
  import opened Arithmetic
  import opened ConfigCodec

  const ENTRY_COUNT: nat := 512
  /** 512 GiB, the size of the address range of one entry. */
  const LEVEL_4_SIZE: nat := 0x80_0000_0000

  predicate IsPowerOfTwo(a: nat) {
    a == 1 || (a > 1 && a % 2 == 0 && IsPowerOfTwo(a / 2))
  }

  lemma {:induction false} PowersDivide(a: nat, b: nat)
    requires IsPowerOfTwo(a) && IsPowerOfTwo(b) && a <= b
    ensures b % a == 0
  {
    if a > 1 {
      PowersDivide(a / 2, b / 2);
      var q := b / 2 / (a / 2);
      assert b / 2 == q * (a / 2);
      Associate(q, a / 2, 2);
      assert b == q * a;
      MulMod(q, a);
    }
  }

  lemma PowerTimes(a: nat)
    requires IsPowerOfTwo(a)
    ensures IsPowerOfTwo(8 * a)
  {
    assert 2 * a / 2 == a && IsPowerOfTwo(2 * a);
    assert 4 * a / 2 == 2 * a && IsPowerOfTwo(4 * a);
    assert 8 * a / 2 == 4 * a;
  }

  lemma PageIsPower()
    ensures IsPowerOfTwo(0x1000)
  {
    PowerTimes(1);
    PowerTimes(0x8);
    PowerTimes(0x40);
    PowerTimes(0x200);
  }

  lemma HugePageIsPower()
    ensures IsPowerOfTwo(0x20_0000)
  {
    hide IsPowerOfTwo;
    PageIsPower();
    PowerTimes(0x1000);
    PowerTimes(0x8000);
    PowerTimes(0x4_0000);
  }

  lemma LevelFourIsPower()
    ensures IsPowerOfTwo(LEVEL_4_SIZE)
  {
    hide IsPowerOfTwo;
    HugePageIsPower();
    PowerTimes(0x20_0000);
    PowerTimes(0x100_0000);
    PowerTimes(0x800_0000);
    PowerTimes(0x4000_0000);
    PowerTimes(0x2_0000_0000);
    PowerTimes(0x10_0000_0000);
  }

  /** The number of entries a range of `size` bytes needs. */
  function EntriesFor(size: nat): nat {
    (size + (LEVEL_4_SIZE - 1)) / LEVEL_4_SIZE
  }

  /** The number of aligned offsets that the random number generator chooses from, and offset `k`. */
  function Slots(size: nat, alignment: nat): nat
    requires alignment > 0
  {
    (LEVEL_4_SIZE - size % LEVEL_4_SIZE) / alignment
  }

  function SlotOffset(alignment: nat, k: nat): nat { k * alignment }

  /** A range needs the fewest entries whose 512 GiB each hold it, and the offsets to choose from are the
      aligned ones with one alignment left before what the size takes of an entry. */
  lemma EntriesAndSlotsIff(size: nat, alignment: nat, n: nat)
    requires alignment > 0
    ensures EntriesFor(size) <= n <==> size <= n * 0x80_0000_0000
    ensures n < Slots(size, alignment) <==> n * alignment + alignment + size % 0x80_0000_0000 <= 0x80_0000_0000
  {
    if n < Slots(size, alignment) {
      SlotFits(size, alignment, n);
    } else {
      var room := LEVEL_4_SIZE - size % LEVEL_4_SIZE;
      DivMul(room, alignment);
      MulLessEqual(Slots(size, alignment), n, alignment);
    }
  }

  function Power(k: nat): nat { if k == 0 then 1 else 2 * Power(k - 1) }

  lemma {:induction false} PowerOfTwoIff(a: nat)
    ensures IsPowerOfTwo(a) <==> exists k: nat :: Power(k) == a
  {
    if IsPowerOfTwo(a) {
      if a == 1 {
        assert Power(0) == a;
      } else {
        PowerOfTwoIff(a / 2);
        var k: nat :| Power(k) == a / 2;
        assert Power(k + 1) == a;
      }
    }
    forall k: nat | Power(k) == a
      ensures IsPowerOfTwo(a)
    {
      PowerIsPower(k);
    }
  }

  lemma {:induction false} PowerIsPower(k: nat)
    ensures Power(k) > 0 && IsPowerOfTwo(Power(k))
  {
    if k > 0 {
      PowerIsPower(k - 1);
      assert Power(k) / 2 == Power(k - 1) && Power(k) % 2 == 0;
    }
  }

  /** A range at a random offset stays within its entries for every choice exactly when its size is
      not a multiple of 512 GiB, or only offset 0 is aligned: for a multiple of 512 GiB the whole first
      entry is offered for the offset. */
  lemma ContainedIff(size: nat, alignment: nat)
    requires size > 0 && IsPowerOfTwo(alignment) && alignment <= LEVEL_4_SIZE
    ensures (forall k: nat | k < Slots(size, alignment) ::
               SlotOffset(alignment, k) + size <= EntriesFor(size) * LEVEL_4_SIZE) <==>
            size % LEVEL_4_SIZE != 0 || alignment == LEVEL_4_SIZE
  {
    assert alignment > 0;
    hide Slots, SlotOffset, IsPowerOfTwo;
    var total := EntriesFor(size) * LEVEL_4_SIZE;
    forall k: nat | k < Slots(size, alignment)
      ensures SlotOffset(alignment, k) + alignment <= LEVEL_4_SIZE - size % LEVEL_4_SIZE
    {
      SlotFits(size, alignment, k);
    }
    if size % LEVEL_4_SIZE == 0 {
      assert total == size;
      if alignment < LEVEL_4_SIZE {
        LastSlotIsLate(size, alignment);
        var k: nat := Slots(size, alignment) - 1;
        assert SlotOffset(alignment, k) + size > total;
      }
    } else {
      assert total == size + LEVEL_4_SIZE - size % LEVEL_4_SIZE;
    }
  }

  lemma LastSlotIsLate(size: nat, alignment: nat)
    requires IsPowerOfTwo(alignment) && alignment < LEVEL_4_SIZE && size % LEVEL_4_SIZE == 0
    ensures Slots(size, alignment) > 1 && SlotOffset(alignment, Slots(size, alignment) - 1) > 0
  {
    LevelFourIsPower();
    PowersDivide(alignment, LEVEL_4_SIZE);
    hide IsPowerOfTwo;
    LastSlot(LEVEL_4_SIZE, alignment);
  }

  lemma SlotFits(size: nat, alignment: nat, k: nat)
    requires alignment > 0 && k < Slots(size, alignment)
    ensures SlotOffset(alignment, k) + alignment <= LEVEL_4_SIZE - size % LEVEL_4_SIZE
  {
    DivMul(LEVEL_4_SIZE - size % LEVEL_4_SIZE, alignment);
    MulLess(k, Slots(size, alignment), alignment);
  }

  /** With a whole entry to choose from, the last slot is not the first. */
  lemma LastSlot(whole: nat, alignment: nat)
    requires 0 < alignment < whole && whole % alignment == 0
    ensures whole / alignment > 1 && SlotOffset(alignment, whole / alignment - 1) == whole - alignment
  {
    var slots := whole / alignment;
    assert whole == slots * alignment;
    Distribute(slots, -1, alignment);
    if slots <= 1 {
      MulLessEqual(slots, 1, alignment);
    }
  }

  /** The entry whose range holds an address. */
  function EntryOf(addr: int): int { addr / LEVEL_4_SIZE }

  type Entries = s: seq<bool> | |s| == 512 witness seq(512, i => false)

  /** Whether `num` entries from `idx` on are free. */
  predicate Free(s: Entries, idx: int, num: nat) {
    0 <= idx && idx + num <= ENTRY_COUNT && forall i | idx <= i < idx + num :: !s[i]
  }

  /** Whether no window of `num` free entries starts before `idx`. */
  ghost predicate FirstFree(s: Entries, idx: int, num: nat) {
    forall k: nat | k < idx :: !Free(s, k, num)
  }

  /** Whether there is no place for `size` bytes: no window of free entries, or no aligned offset to choose. */
  ghost predicate NoRoom(s: Entries, size: nat, alignment: nat, aslr: bool)
    requires alignment > 0
  {
    (forall k :: !Free(s, k, EntriesFor(size))) || (aslr && Slots(size, alignment) == 0)
  }

  /** `s` with the entries from `first` to `last` marked as used. */
  function Marked(s: Entries, first: int, last: int): Entries {
    seq(512, i requires 0 <= i < 512 => s[i] || first <= i <= last)
  }

  /** Whether `size` bytes from `addr` on were given entries that were free in `before`, and marking
      these is all that led to `after`. */
  predicate Reserved(addr: int, size: nat, before: Entries, after: Entries) {
    && Free(before, EntryOf(addr), EntriesFor(size))
    && after == Marked(before, EntryOf(addr), EntryOf(addr) + EntriesFor(size) - 1)
  }

  predicate Extends(before: Entries, after: Entries) {
    forall i | 0 <= i < 512 && before[i] :: after[i]
  }

  /** Whether the range of `size` bytes from `start` on can be marked: neither its end nor its last
      address leaves the canonical ones. */
  predicate RangeFits(start: int, size: nat)
    requires 0 <= start < 2 * HALF
  {
    var end := VirtNew(AsU64(start) + size);
    end.Ok? && Below(end.value).Ok?
  }

  /** Both are acceptable exactly if the end is, and is not the start of one of the two halves. */
  lemma RangeFitsIff(start: nat, size: nat)
    requires start < 0x1_0000_0000_0000
    ensures var end := (if start < 0x8000_0000_0000 then start else start + 0xFFFF_0000_0000_0000) + size;
            RangeFits(start, size) <==>
            && (end < 0x1_0000_0000_0000 || 0xFFFF_8000_0000_0000 <= end < 0x1_0000_0000_0000_0000)
            && end != 0 && end != 0x8000_0000_0000 && end != 0xFFFF_8000_0000_0000
  {
    hide Below;
  }

  /** The entry of its last address. */
  function LastEntry(start: int, size: nat): int
    requires 0 <= start < 2 * HALF && RangeFits(start, size)
  {
    EntryOf(Below(VirtNew(AsU64(start) + size).value).value)
  }

  /** Whether a mapping has a fixed address, and whether `size` bytes there meet entry `i`. */
  predicate Fixed(mapping: Option<Mapping>) {
    mapping.Some? && mapping.value.FixedAddress?
  }

  predicate FixedFits(mapping: Option<Mapping>, size: nat) {
    Fixed(mapping) ==> VirtNew(mapping.value.addr).Ok? && RangeFits(VirtNew(mapping.value.addr).value, size)
  }

  predicate FixedMeets(mapping: Option<Mapping>, size: nat, i: int) {
    && Fixed(mapping) && FixedFits(mapping, size)
    && EntryOf(VirtNew(mapping.value.addr).value) <= i <= LastEntry(VirtNew(mapping.value.addr).value, size)
  }

  /** The sizes of what may get a fixed address: the physical memory, boot info with the memory map,
      and the framebuffer, if there is one. */
  datatype Sizes = Sizes(maxPhysAddr: nat, bootInfo: nat, framebuffer: Option<nat>)

  /** Whether all fixed addresses and both bounds of the dynamic range are acceptable. */
  predicate ConfigFits(c: Config, z: Sizes) {
    && FixedFits(c.mappings.physicalMemory, z.maxPhysAddr)
    && (Fixed(c.mappings.pageTableRecursive) ==> VirtNew(c.mappings.pageTableRecursive.value.addr).Ok?)
    && FixedFits(Some(c.mappings.kernelStack), c.kernelStackSize)
    && FixedFits(Some(c.mappings.bootInfo), z.bootInfo)
    && (z.framebuffer.Some? ==> FixedFits(Some(c.mappings.framebuffer), z.framebuffer.value))
    && BoundCanonical(c.mappings.dynamicRangeStart) && BoundCanonical(c.mappings.dynamicRangeEnd)
  }

  /** Whether something at a fixed address meets entry `i`. */
  predicate FixedAt(c: Config, z: Sizes, i: int) {
    || FixedMeets(c.mappings.physicalMemory, z.maxPhysAddr, i)
    || RecursiveAt(c.mappings.pageTableRecursive, i)
    || FixedMeets(Some(c.mappings.kernelStack), c.kernelStackSize, i)
    || FixedMeets(Some(c.mappings.bootInfo), z.bootInfo, i)
    || (z.framebuffer.Some? && FixedMeets(Some(c.mappings.framebuffer), z.framebuffer.value, i))
  }

  predicate RecursiveAt(mapping: Option<Mapping>, i: int) {
    Fixed(mapping) && VirtNew(mapping.value.addr).Ok? && i == EntryOf(VirtNew(mapping.value.addr).value)
  }

  /** Whether address `a` is one of `size` bytes at a fixed address. */
  predicate InFixed(mapping: Option<Mapping>, size: nat, a: int) {
    && mapping.Some? && mapping.value.FixedAddress? && VirtNew(mapping.value.addr).Ok?
    && VirtNew(mapping.value.addr).value <= a < VirtNew(mapping.value.addr).value + size
  }

  lemma FixedMeetsIff(mapping: Option<Mapping>, size: nat, i: int)
    requires 0 < size <= HALF && FixedFits(mapping, size)
    ensures FixedMeets(mapping, size, i) <==> exists a :: InFixed(mapping, size, a) && a / LEVEL_4_SIZE == i
  {
    if Fixed(mapping) {
      var start := VirtNew(mapping.value.addr).value;
      VirtNewShift(AsU64(start), size);
      if FixedMeets(mapping, size, i) {
        var a := if i * LEVEL_4_SIZE < start then start else i * LEVEL_4_SIZE;
        assert InFixed(mapping, size, a) && a / LEVEL_4_SIZE == i;
      }
    }
  }

  /** The entries in use for fixed addresses are those that hold an address of physical memory, stack, boot
      info or framebuffer, each with its own size, or the one given for the recursive page table. */
  lemma FixedEntriesIff(c: Config, z: Sizes, i: int)
    requires ConfigFits(c, z)
    requires 0 < z.maxPhysAddr <= HALF && 0 < c.kernelStackSize <= HALF && 0 < z.bootInfo <= HALF
    requires z.framebuffer.Some? ==> 0 < z.framebuffer.value <= HALF
    ensures FixedAt(c, z, i) <==>
            exists a ::
              && a / LEVEL_4_SIZE == i
              && (|| InFixed(c.mappings.physicalMemory, z.maxPhysAddr, a)
                  || InFixed(c.mappings.pageTableRecursive, 1, a)
                  || InFixed(Some(c.mappings.kernelStack), c.kernelStackSize, a)
                  || InFixed(Some(c.mappings.bootInfo), z.bootInfo, a)
                  || (z.framebuffer.Some? && InFixed(Some(c.mappings.framebuffer), z.framebuffer.value, a)))
  {
    hide FixedMeets, InFixed;
    FixedMeetsIff(c.mappings.physicalMemory, z.maxPhysAddr, i);
    RecursiveIff(c.mappings.pageTableRecursive, i);
    FixedMeetsIff(Some(c.mappings.kernelStack), c.kernelStackSize, i);
    FixedMeetsIff(Some(c.mappings.bootInfo), z.bootInfo, i);
    if z.framebuffer.Some? {
      FixedMeetsIff(Some(c.mappings.framebuffer), z.framebuffer.value, i);
    }
  }

  lemma RecursiveIff(mapping: Option<Mapping>, i: int)
    ensures RecursiveAt(mapping, i) <==> exists a :: InFixed(mapping, 1, a) && a / LEVEL_4_SIZE == i
  {
    if RecursiveAt(mapping, i) {
      assert InFixed(mapping, 1, VirtNew(mapping.value.addr).value);
    }
  }

  predicate BoundCanonical(bound: Option<U64>) {
    bound.Some? ==> VirtNew(bound.value).Ok?
  }

  /** The first address of the page with the lower bound, and the end of the page with the upper one. */
  function RangeStart(m: Mappings): int {
    if m.dynamicRangeStart.Some? && VirtNew(m.dynamicRangeStart.value).Ok?
    then VirtNew(m.dynamicRangeStart.value).value / 4096 * 4096
    else 0
  }

  function RangeEnd(m: Mappings): int {
    if m.dynamicRangeEnd.Some? && VirtNew(m.dynamicRangeEnd.value).Ok?
    then VirtNew(m.dynamicRangeEnd.value).value / 4096 * 4096 + 4096
    else 2 * HALF
  }

  predicate StartsBefore(i: int, start: int) { i * LEVEL_4_SIZE < start }

  predicate EndsAfter(i: int, end: int) { (i + 1) * LEVEL_4_SIZE > end }

  /** Whether all addresses of entry `i` lie in a range. */
  predicate EntryInside(i: int, start: int, end: int) {
    !StartsBefore(i, start) && !EndsAfter(i, end)
  }

  /** The entries up to that of the last page before page `p`, and those from that of page `p` on. */
  lemma EntriesBefore(p: nat, start: int)
    requires start == p * 4096
    ensures forall i | 0 <= i < 512 :: StartsBefore(i, start) <==> p > 0 && i <= (p - 1) * 4096 / LEVEL_4_SIZE
  {
  }

  lemma EntriesAfter(p: nat, end: int)
    requires p <= PAGE_COUNT && end == p * 4096
    ensures forall i | 0 <= i < 512 :: EndsAfter(i, end) <==> p < PAGE_COUNT && p * 4096 / LEVEL_4_SIZE <= i
  {
  }

  /** Whether all free entries lie within a range of addresses. */
  predicate InRange(s: Entries, start: int, end: int) {
    forall i | 0 <= i < 512 && !s[i] :: EntryInside(i, start, end)
  }

  /** The entries in use before anything is placed: the first one, those something at a fixed address meets,
      and those not wholly in the range for dynamic addresses. */
  function ConfigEntries(c: Config, z: Sizes): Entries {
    seq(512, i requires 0 <= i < 512 =>
          i == 0 || FixedAt(c, z, i) || !EntryInside(i, RangeStart(c.mappings), RangeEnd(c.mappings)))
  }

  /** So every range reserved later lies there. */
  lemma ReservedInRange(addr: int, size: nat, before: Entries, after: Entries, start: int, end: int)
    requires InRange(before, start, end) && Reserved(addr, size, before, after) && size > 0
    requires addr + size <= (EntryOf(addr) + EntriesFor(size)) * LEVEL_4_SIZE
    ensures start <= addr && addr + size <= end
  {
    var first, last := EntryOf(addr), EntryOf(addr) + EntriesFor(size) - 1;
    assert !before[first] && !before[last];
  }

  class UsedLevel4Entries {
    const aslr: bool
    const entryState: array<bool>

    ghost predicate Valid() {
      entryState.Length == ENTRY_COUNT
    }

    ghost function State(): Entries
      requires Valid()
      reads entryState
    {
      entryState[..]
    }

    /** All entries free but the first. */
    constructor (aslr: bool)
      ensures Valid() && this.aslr == aslr && fresh(entryState)
      ensures State() == Marked(seq(512, i => false), 0, 0)
    {
      this.aslr := aslr;
      entryState := new bool[512](i => i == 0);
    }

    /** Marks the entries from `first` to `last`. */
    method MarkEntries(first: int, last: int)
      requires Valid() && 0 <= first && last < ENTRY_COUNT
      modifies entryState
      ensures State() == Marked(old(State()), first, last)
    {
      var i := first;
      while i <= last
        invariant first <= i && (i <= last + 1 || i == first)
        invariant State() == Marked(old(State()), first, i - 1)
      {
        entryState[i] := true;
        i := i + 1;
      }
    }

    /** Marks exactly the entries that something at a fixed address meets, and those not wholly in the
        range for dynamic addresses. */
    method MarkConfig(config: Config, z: Sizes) returns (r: Result<()>)
      requires Valid()
      modifies entryState
      ensures r.Ok? <==> ConfigFits(config, z)
      ensures r.Ok? ==> forall i | 0 <= i < 512 :: State()[i] <==>
                old(State())[i] || FixedAt(config, z, i)
                || !EntryInside(i, RangeStart(config.mappings), RangeEnd(config.mappings))
      ensures r.Ok? ==> InRange(State(), RangeStart(config.mappings), RangeEnd(config.mappings))
      ensures r.Ok? && old(State()) == Marked(seq(512, i => false), 0, 0) ==> State() == ConfigEntries(config, z)
    {
      hide FixedFits, FixedMeets, RecursiveAt, EntryInside, RangeStart, RangeEnd;
      var m := config.mappings;
      var _ :- MarkFixed(m.physicalMemory, z.maxPhysAddr);
      var _ :- MarkRecursive(m.pageTableRecursive);
      var _ :- MarkFixed(Some(m.kernelStack), config.kernelStackSize);
      var _ :- MarkFixed(Some(m.bootInfo), z.bootInfo);
      if z.framebuffer.Some? {
        var _ :- MarkFixed(Some(m.framebuffer), z.framebuffer.value);
      }
      assert forall i | 0 <= i < 512 :: State()[i] <==> old(State())[i] || FixedAt(config, z, i);
      r := MarkOutside(m);
    }

    /** Marks everything before and after the range for dynamic addresses. */
    method MarkOutside(m: Mappings) returns (r: Result<()>)
      requires Valid()
      modifies entryState
      ensures r.Ok? <==> BoundCanonical(m.dynamicRangeStart) && BoundCanonical(m.dynamicRangeEnd)
      ensures r.Ok? ==> forall i | 0 <= i < 512 :: State()[i] <==>
                old(State())[i] || !EntryInside(i, RangeStart(m), RangeEnd(m))
    {
      hide VirtNew, StartsBefore, EndsAfter;
      ghost var startPageOrFirst := 0;
      if m.dynamicRangeStart.Some? {
        var start :- VirtNew(m.dynamicRangeStart.value);
        var startPage := start / 4096;
        startPageOrFirst := startPage;
        if startPage > 0 {
          MarkEntries(0, (startPage - 1) * 4096 / LEVEL_4_SIZE);
        }
      }
      EntriesBefore(startPageOrFirst, RangeStart(m));
      assert forall i | 0 <= i < 512 :: State()[i] <==> old(State())[i] || StartsBefore(i, RangeStart(m));
      ghost var endPageOrLast := PAGE_COUNT;
      if m.dynamicRangeEnd.Some? {
        var end :- VirtNew(m.dynamicRangeEnd.value);
        var endPage := end / 4096;
        endPageOrLast := endPage + 1;
        if endPage + 1 < PAGE_COUNT {
          MarkEntries((endPage + 1) * 4096 / LEVEL_4_SIZE, 511);
        }
      }
      EntriesAfter(endPageOrLast, RangeEnd(m));
      r := Ok(());
    }

    method MarkRecursive(mapping: Option<Mapping>) returns (r: Result<()>)
      requires Valid()
      modifies entryState
      ensures r.Ok? <==> (Fixed(mapping) ==> VirtNew(mapping.value.addr).Ok?)
      ensures r.Ok? ==> forall i | 0 <= i < 512 :: State()[i] <==> old(State())[i] || RecursiveAt(mapping, i)
    {
      if mapping.Some? && mapping.value.FixedAddress? {
        var addr :- VirtNew(mapping.value.addr);
        MarkEntries(addr / LEVEL_4_SIZE, addr / LEVEL_4_SIZE);
      }
      r := Ok(());
    }

    method MarkFixed(mapping: Option<Mapping>, size: nat) returns (r: Result<()>)
      requires Valid()
      modifies entryState
      ensures r.Ok? <==> FixedFits(mapping, size)
      ensures r.Ok? ==> forall i | 0 <= i < 512 :: State()[i] <==> old(State())[i] || FixedMeets(mapping, size, i)
    {
      if mapping.Some? && mapping.value.FixedAddress? {
        r := MarkRangeAsUsed(mapping.value.addr, size);
      } else {
        r := Ok(());
      }
    }

    /** Marks all entries that the `size` bytes from `address` on meet. */
    method MarkRangeAsUsed(address: nat, size: nat) returns (r: Result<()>)
      requires Valid()
      modifies entryState
      ensures r.Ok? <==> VirtNew(address).Ok? && RangeFits(VirtNew(address).value, size)
      ensures State() == if r.Err? then old(State())
                         else
                           var start := VirtNew(address).value;
                           Marked(old(State()), EntryOf(start), LastEntry(start, size))
    {
      var start :- VirtNew(address);
      var end :- VirtNew(AsU64(start) + size);
      var last :- Below(end);
      MarkEntries(start / LEVEL_4_SIZE, last / LEVEL_4_SIZE);
      r := Ok(());
    }

    method WindowIsFree(idx: nat, num: nat) returns (free: bool)
      requires Valid() && idx + num <= ENTRY_COUNT
      ensures free <==> Free(State(), idx, num)
    {
      for i := idx to idx + num
        invariant forall k | idx <= k < i :: !State()[k]
      {
        if entryState[i] {
          return false;
        }
      }
      free := true;
    }

    /** Marks `num` contiguous free entries: the first such ones, or random ones. */
    method GetFreeEntries(num: nat) returns (r: Result<nat>)
      requires Valid()
      modifies entryState
      ensures r.Ok? ==> num > 0 && Free(old(State()), r.value, num)
      ensures r.Ok? ==> State() == Marked(old(State()), r.value, r.value + num - 1)
      ensures r.Ok? && !aslr ==> FirstFree(old(State()), r.value, num)
      ensures r.Err? ==> r.error.Panic? && State() == old(State()) && (num == 0 || forall k :: !Free(State(), k, num))
    {
      if num == 0 {
        return Err(Panic("window size must be non-zero"));
      }
      ghost var before := State();
      var candidates: seq<nat> := [];
      var idx: nat := 0;
      while idx + num <= ENTRY_COUNT
        invariant State() == before
        invariant forall i | 0 <= i < |candidates| :: candidates[i] < idx && Free(before, candidates[i], num)
        invariant forall k: nat | k < idx && Free(before, k, num) :: candidates != [] && candidates[0] <= k
      {
        var free := WindowIsFree(idx, num);
        if free {
          candidates := candidates + [idx];
        }
        idx := idx + 1;
      }
      if candidates == [] {
        return Err(Panic("no usable level 4 entries found"));
      }
      var chosen := candidates[0];
      if aslr {
        var k: nat :| k < |candidates|;
        chosen := candidates[k];
      }
      assert Free(before, chosen, num);
      MarkEntries(chosen, chosen + num - 1);
      r := Ok(chosen);
    }

    /** Finds an aligned range of `size` bytes in free entries and marks these. */
    method GetFreeAddress(size: nat, alignment: nat) returns (r: Result<int>)
      requires Valid()
      modifies entryState
      ensures Extends(old(State()), State()) && (r.Err? ==> r.error.Panic?)
      ensures r.Ok? ==> size > 0 && Reserved(r.value, size, old(State()), State())
      ensures r.Ok? ==> alignment > 0 && (alignment <= LEVEL_4_SIZE ==> r.value % alignment == 0)
      ensures r.Ok? ==> r.value % LEVEL_4_SIZE == 0
                        || r.value % LEVEL_4_SIZE + alignment <= LEVEL_4_SIZE - size % LEVEL_4_SIZE
      ensures r.Ok? && !aslr ==> r.value + size <= (EntryOf(r.value) + EntriesFor(size)) * LEVEL_4_SIZE
      ensures r.Ok? && size % LEVEL_4_SIZE != 0 ==>
                r.value + size < (EntryOf(r.value) + EntriesFor(size)) * LEVEL_4_SIZE
      ensures r.Ok? && !aslr ==>
                && r.value == EntryOf(r.value) * LEVEL_4_SIZE
                && FirstFree(old(State()), EntryOf(r.value), EntriesFor(size))
      ensures r.Ok? <==> size > 0 && IsPowerOfTwo(alignment) && !NoRoom(old(State()), size, alignment, aslr)
      ensures r.Ok? && aslr ==> Slots(size, alignment) > 0
      ensures r.Err? && size > 0 && IsPowerOfTwo(alignment) ==>
                && NoRoom(old(State()), size, alignment, aslr)
                && (State() == old(State()) || (aslr && Slots(size, alignment) == 0))
    {
      if !IsPowerOfTwo(alignment) {
        return Err(Panic("alignment is not a power of two"));
      }
      ghost var before := State();
      assert alignment > 0;
      var idx :- GetFreeEntries(EntriesFor(size));
      assert Extends(before, State());
      hide Free, FirstFree, Marked, IsPowerOfTwo, Extends, Slots;
      var offset :- ChooseOffset(size, alignment);
      AlignedSum(idx, offset, alignment);
      AddressInEntries(idx, size, offset);
      r := Ok(idx * LEVEL_4_SIZE + offset);
    }

    /** Chooses where in the first entry a range starts: at a random aligned offset, or at once. */
    method ChooseOffset(size: nat, alignment: nat) returns (r: Result<nat>)
      requires alignment > 0
      ensures r.Err? <==> aslr && Slots(size, alignment) == 0
      ensures r.Err? ==> r.error.Panic?
      ensures r.Ok? ==> r.value % alignment == 0
      ensures r.Ok? ==> r.value == 0 || (aslr && r.value + alignment <= LEVEL_4_SIZE - size % LEVEL_4_SIZE)
    {
      if !aslr {
        return Ok(0);
      }
      var slots := Slots(size, alignment);
      if slots == 0 {
        return Err(Panic("empty range"));
      }
      var k: nat :| k < slots;
      SlotFits(size, alignment, k);
      MulMod(k, alignment);
      r := Ok(SlotOffset(alignment, k));
    }
  }

  lemma AddressInEntries(idx: nat, size: nat, offset: nat)
    requires size > 0 && (offset == 0 || offset < LEVEL_4_SIZE - size % LEVEL_4_SIZE)
    ensures EntryOf(idx * LEVEL_4_SIZE + offset) == idx && (idx * LEVEL_4_SIZE + offset) % LEVEL_4_SIZE == offset
    ensures offset == 0 ==> idx * LEVEL_4_SIZE + size <= (idx + EntriesFor(size)) * LEVEL_4_SIZE
    ensures size % LEVEL_4_SIZE != 0 ==>
              idx * LEVEL_4_SIZE + offset + size < (idx + EntriesFor(size)) * LEVEL_4_SIZE
  {
  }

  lemma AlignedSum(idx: nat, offset: nat, alignment: nat)
    requires IsPowerOfTwo(alignment) && offset % alignment == 0
    ensures alignment <= LEVEL_4_SIZE ==> (idx * LEVEL_4_SIZE + offset) % alignment == 0
  {
    if alignment <= LEVEL_4_SIZE {
      LevelFourIsPower();
      PowersDivide(alignment, LEVEL_4_SIZE);
      ModProduct(idx, LEVEL_4_SIZE, alignment);
      ModSum(idx * LEVEL_4_SIZE, offset, alignment);
    }
  }
}
