/** The address space the kernel sees, with no frames in it: every mapped page owns its 4096 bytes
    and its flags. This is the specification side of the loader; module `Paging` relates it to a
    page table over shared physical frames.

    A virtual address is its index among the 2^48 canonical addresses, so that consecutive
    canonical addresses have consecutive indices even across the hole in the middle. */
module VirtualSpace {
  import opened Bytes
  import opened Outcomes

  const PAGE_COUNT: int := 0x10_0000_0000
  const HALF: int := 0x8000_0000_0000

  type PageBytes = s: seq<Byte> | |s| == 4096 witness seq(4096, _ => 0)

  /** The page table flags the loader sets; `PRESENT` is set on every mapped page. */
  datatype Flags = Flags(writable: bool, noExecute: bool, copied: bool)

  datatype VPage = VPage(bytes: PageBytes, flags: Flags)

  type Space = map<int, VPage>

  /** `VirtAddr::new`: the index of the 64-bit address `u`, if `u` is canonical or becomes so when bit
      47 is copied to the bits above it. */
  function VirtNew(u: int): (r: Result<int>)
    ensures r.Ok? ==> 0 <= r.value < 2 * HALF && r.value % 4096 == u % 4096
  {
    if 0 <= u < 2 * HALF then
      Ok(u)
    else if U64_LIMIT - HALF <= u < U64_LIMIT then
      Ok(u - U64_LIMIT + 2 * HALF)
    else
      Err(Panic("address is not canonical"))
  }

  /** An address is accepted if the bits above bit 47 are all zero or are all copies of it that are one; what
      counts of it is the lower 48 bits. */
  lemma VirtNewIff(u: int)
    requires 0 <= u < 0x1_0000_0000_0000_0000
    ensures VirtNew(u).Ok? <==> u / 0x1_0000_0000_0000 == 0 || u / 0x8000_0000_0000 == 0x1_FFFF
    ensures VirtNew(u).Ok? ==> VirtNew(u).value == u % 0x1_0000_0000_0000
  {
  }

  /** Moving inside one half of the address space moves the index by the same distance. */
  lemma VirtNewShift(u: int, d: nat)
    requires VirtNew(u).Ok? && VirtNew(u + d).Ok? && d <= HALF
    ensures VirtNew(u + d).value == VirtNew(u).value + d
  {
  }

  /** The 64-bit value of an address. */
  function AsU64(addr: int): (u: int)
    requires 0 <= addr < 2 * HALF
    ensures VirtNew(u) == Ok(addr)
  {
    if addr < HALF then addr else addr + U64_LIMIT - 2 * HALF
  }

  /** The address one below `addr`, computed on 64-bit values: there is none below the lowest address,
      and the one below the upper half is not canonical. */
  function Below(addr: int): (r: Result<int>)
    requires 0 <= addr < 2 * HALF
    ensures r.Ok? <==> addr != 0 && addr != HALF
    ensures r.Ok? ==> r.value == addr - 1
  {
    VirtNew(AsU64(addr) - 1)
  }

  function FirstPage(addr: int): int { addr / 4096 }

  /** The page holding the last of `len` bytes from `addr` on. */
  function LastPage(addr: int, len: int): int { (addr + len - 1) / 4096 }

  /** Whether every page meeting the `len` bytes from `addr` on is mapped. */
  predicate Mapped(s: Space, addr: int, len: int) {
    forall p | FirstPage(addr) <= p <= LastPage(addr, len) :: p in s
  }

  lemma AddressOnPage(addr: int, len: int, i: int)
    requires 0 <= i < len
    ensures FirstPage(addr) <= (addr + i) / 4096 <= LastPage(addr, len)
  {
  }

  /** The byte at `addr`. */
  function Get(s: Space, addr: int): Byte
    requires addr / 4096 in s
  {
    s[addr / 4096].bytes[addr % 4096]
  }

  /** The `len` bytes from `addr` on. */
  function Span(s: Space, addr: int, len: nat): (r: seq<Byte>)
    requires Mapped(s, addr, len)
    ensures |r| == len
  {
    seq<Byte>(len, i requires 0 <= i < len => AddressOnPage(addr, len, i); Get(s, addr + i))
  }

  /** Page `page` with the part of `buf` that falls on it written over `bytes`. */
  function PatchPage(bytes: PageBytes, page: int, addr: int, buf: seq<Byte>): (r: PageBytes)
  {
    seq(4096, i requires 0 <= i < 4096 =>
      var d := page * 4096 + i - addr;
      if 0 <= d < |buf| then buf[d] else bytes[i])
  }

  /** The same page, put together from slices as the copy loop does. */
  function CopyIntoPage(bytes: PageBytes, page: int, addr: int, buf: seq<Byte>): (r: PageBytes)
    requires buf != [] && FirstPage(addr) <= page <= LastPage(addr, |buf|)
    ensures r == PatchPage(bytes, page, addr, buf)
  {
    var end := addr + |buf| - 1;
    var pageStart := page * 4096;
    var startCopy := if addr > pageStart then addr else pageStart;
    var endCopy := if end < pageStart + 4095 then end else pageStart + 4095;
    var startInFrame := startCopy - pageStart;
    var copyLen := endCopy - startCopy + 1;
    bytes[..startInFrame] + buf[startCopy - addr..][..copyLen] + bytes[startInFrame + copyLen..]
  }

  /** Writes the part of `buf` that lies below page `end`, and marks the written pages as copied. */
  function WriteBelow(s: Space, addr: int, buf: seq<Byte>, end: int): (r: Space)
    ensures r.Keys == s.Keys
  {
    map p | p in s ::
      if FirstPage(addr) <= p < end
      then VPage(PatchPage(s[p].bytes, p, addr, buf), s[p].flags.(copied := true))
      else s[p]
  }

  /** Writes the part of `buf` that falls on `page`, and marks the page as copied. */
  function PatchAt(s: Space, page: int, addr: int, buf: seq<Byte>): Space
    requires page in s
  {
    s[page := VPage(PatchPage(s[page].bytes, page, addr, buf), s[page].flags.(copied := true))]
  }

  lemma WriteBelowNone(s: Space, addr: int, buf: seq<Byte>)
    ensures WriteBelow(s, addr, buf, FirstPage(addr)) == s
  {
  }

  lemma WriteBelowNext(s: Space, addr: int, buf: seq<Byte>, page: int)
    requires page in s && FirstPage(addr) <= page
    ensures WriteBelow(s, addr, buf, page + 1) == PatchAt(WriteBelow(s, addr, buf, page), page, addr, buf)
  {
  }

  /** Writes `buf` at `addr`. */
  function Write(s: Space, addr: int, buf: seq<Byte>): (r: Space)
    ensures r.Keys == s.Keys
  {
    WriteBelow(s, addr, buf, LastPage(addr, |buf|) + 1)
  }

  /** A write changes exactly the bytes it covers. */
  lemma GetWrite(s: Space, addr: int, buf: seq<Byte>, a: int)
    requires a / 4096 in s
    ensures Get(Write(s, addr, buf), a) ==
            if addr <= a < addr + |buf| then buf[a - addr] else Get(s, a)
  {
    var p := a / 4096;
    assert p * 4096 + a % 4096 == a;
    if addr <= a < addr + |buf| {
      AddressOnPage(addr, |buf|, a - addr);
    }
  }

  /** Reading back what was written returns it. */
  lemma ReadAfterWrite(s: Space, addr: int, buf: seq<Byte>)
    requires Mapped(s, addr, |buf|)
    ensures Span(Write(s, addr, buf), addr, |buf|) == buf
  {
    forall i | 0 <= i < |buf|
      ensures Span(Write(s, addr, buf), addr, |buf|)[i] == buf[i]
    {
      AddressOnPage(addr, |buf|, i);
      GetWrite(s, addr, buf, addr + i);
    }
  }

  /** A write leaves every span it does not meet as it was. */
  lemma SpanAfterDisjointWrite(s: Space, addr: int, buf: seq<Byte>, a: int, len: nat)
    requires Mapped(s, a, len)
    requires a + len <= addr || addr + |buf| <= a
    ensures Span(Write(s, addr, buf), a, len) == Span(s, a, len)
  {
    forall i | 0 <= i < len
      ensures Span(Write(s, addr, buf), a, len)[i] == Span(s, a, len)[i]
    {
      AddressOnPage(a, len, i);
      GetWrite(s, addr, buf, a + i);
    }
  }

  /** A write keeps every flag but the copied mark. */
  lemma FlagsAfterWrite(s: Space, addr: int, buf: seq<Byte>, p: int)
    requires p in s
    ensures Write(s, addr, buf)[p].flags.(copied := false) == s[p].flags.(copied := false)
  {
  }
}
