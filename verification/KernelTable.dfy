/** The kernel's page table as `set_up_mappings` fills it, with pages of 4 KiB and 2 MiB. */
module KernelTable {
  import opened Outcomes
  import opened VirtualSpace
  import opened FrameSupply

  const HUGE_COUNT: int := PAGE_COUNT / 512

  /** The level 4 entry of a page, and of a 2 MiB page. */
  function PageEntry(p: int): int { p / 0x800_0000 }

  function HugeEntry(q: int): int { q / 0x4_0000 }

  /** Consecutive pages on consecutive frames. */
  function Run(first: int, last: int, frame: int): map<int, int> {
    map p | first <= p <= last :: RunFrame(first, frame, p)
  }

  function RunFrame(first: int, frame: int, p: int): int { frame + (p - first) }

  lemma RunNext(before: map<int, int>, first: int, page: int, frame: int)
    requires first <= page
    ensures before + Run(first, page, frame) == (before + Run(first, page - 1, frame))[page := frame + (page - first)]
    ensures page in before + Run(first, page - 1, frame) <==> page in before
  {
  }

  lemma RunEmpty(before: map<int, int>, first: int, last: int, frame: int)
    requires last < first
    ensures before + Run(first, last, frame) == before
  {
  }

  /** Whether nothing is mapped at page `p`. */
  ghost predicate Vacant(small: map<int, int>, huge: map<int, int>, p: int) {
    p !in small && p / 512 !in huge
  }

  /** Whether nothing is mapped within 2 MiB page `q`. */
  ghost predicate HugeVacant(small: map<int, int>, huge: map<int, int>, q: int) {
    q !in huge && forall p | p in small :: p / 512 != q
  }

  /** The physical address behind a virtual one. */
  ghost function Translate(small: map<int, int>, huge: map<int, int>, addr: int): Option<int> {
    if addr / 4096 in small then Some(small[addr / 4096] * 4096 + addr % 4096)
    else if addr / 0x20_0000 in huge then Some(huge[addr / 0x20_0000] * 0x20_0000 + addr % 0x20_0000)
    else None
  }

  /** Whether all mappings of a table are in another. */
  ghost predicate Keeps(before: map<int, int>, after: map<int, int>) {
    forall p | p in before :: p in after && after[p] == before[p]
  }

  lemma KeepsItself(m: map<int, int>)
    ensures Keeps(m, m)
  {
  }

  /** More mappings do not change where an address leads. */
  lemma TranslateKept(s: map<int, int>, h: map<int, int>, s': map<int, int>, h': map<int, int>, addr: int)
    requires Keeps(s, s') && Keeps(h, h') && Translate(s, h, addr).Some?
    requires forall p | p in s' :: p / 512 !in h'
    ensures Translate(s', h', addr) == Translate(s, h, addr)
  {
    assert addr / 4096 / 512 == addr / 0x20_0000;
  }

  /** The number of pages from `first` to `last`. */
  function Count(first: int, last: int): nat { if first <= last then last - first + 1 else 0 }

  /** Whether nothing is mapped at the pages from `first` to `last`. */
  ghost predicate AllVacant(small: map<int, int>, huge: map<int, int>, first: int, last: int) {
    forall p | first <= p <= last :: Vacant(small, huge, p)
  }

  ghost predicate AllHugeVacant(small: map<int, int>, huge: map<int, int>, first: int, last: int) {
    forall q | first <= q <= last :: HugeVacant(small, huge, q)
  }

  /** Whether the pages are on frames of the allocator, a different one each. */
  ghost predicate FreshFrames(first: int, last: int, frames: map<int, int>, before: seq<int>, after: seq<int>) {
    && (forall p | p in frames :: first <= p <= last)
    && (forall p | first <= p <= last :: p in frames && Taken(frames[p], before, after))
    && forall p, q | p in frames && q in frames && p != q :: frames[p] != frames[q]
  }

  lemma FreshNone(first: int, before: seq<int>)
    ensures FreshFrames(first, first - 1, map[], before, before)
  {
  }

  lemma FreshNext(first: int, page: int, frames: map<int, int>, frame: int, before: seq<int>, now: seq<int>,
                  after: seq<int>)
    requires first <= page && FreshFrames(first, page - 1, frames, before, now)
    requires Taken(frame, now, after) && IsRest(now, before) && IsRest(after, now)
    ensures FreshFrames(first, page, frames[page := frame], before, after)
  {
    RestMembers(now, before);
    TakenLater(before, now, after);
    hide IsRest;
  }

  /** Adding a page that was not mapped. */
  lemma AddPage(before: map<int, int>, frames: map<int, int>, now: map<int, int>, page: int, frame: int)
    requires now == before + frames && Keeps(before, now) && page !in now
    ensures now[page := frame] == before + frames[page := frame] && Keeps(before, now[page := frame])
  {
  }

  class Table {
    var small: map<int, int>
    var huge: map<int, int>
    /** What the bootloader itself has mapped, page by page. */
    var own: map<int, int>
    /** The frames the allocator will still hand out. */
    var free: seq<int>

    ghost predicate Valid()
      reads this
    {
      && (forall p | p in small :: 0 <= p < PAGE_COUNT)
      && (forall q | q in huge :: 0 <= q < HUGE_COUNT)
      && (forall p | p in small :: p / 512 !in huge)
      && (forall i, j | 0 <= i < j < |free| :: free[i] != free[j])
    }

    /** Whether there were too few frames, less than `need`. */
    ghost predicate Lacks(e: Failure, before: seq<int>, need: int)
      reads this
    {
      e == OutOfFrames && free == [] && |before| < need
    }

    constructor (small: map<int, int>, own: map<int, int>, free: seq<int>)
      requires forall p | p in small :: 0 <= p < PAGE_COUNT
      requires forall i, j | 0 <= i < j < |free| :: free[i] != free[j]
      ensures Valid() && this.small == small && huge == map[] && this.own == own && this.free == free
    {
      this.small, huge, this.own, this.free := small, map[], own, free;
    }

    method AllocateFrame() returns (r: Result<int>)
      requires Valid()
      modifies this`free
      ensures Valid() && IsRest(free, old(free))
      ensures r.Err? ==> r.error == OutOfFrames && free == old(free) == []
      ensures r.Ok? ==> old(free) == [r.value] + free && r.value !in free
    {
      if free == [] {
        return Err(OutOfFrames);
      }
      var frame := free[0];
      free := free[1..];
      assert frame !in free;
      r := Ok(frame);
    }

    /** The frames that `map_to` takes for page tables: any number up to three. */
    method TakeTables() returns (r: Result<()>)
      requires Valid()
      modifies this`free
      ensures Valid() && IsRest(free, old(free))
      ensures |old(free)| <= |free| + 3
      ensures r.Err? ==> Lacks(r.error, old(free), 3)
    {
      var needed :| 0 <= needed <= 3;
      for i := 0 to needed
        invariant Valid() && IsRest(free, old(free)) && |old(free)| == |free| + i
      {
        ghost var now := free;
        var _ :- AllocateFrame();
        RestTwice(free, now, old(free));
      }
      r := Ok(());
    }

    method MapTo(page: int, frame: int) returns (r: Result<()>)
      requires Valid() && 0 <= page < PAGE_COUNT
      modifies this`small, this`free
      ensures Valid() && IsRest(free, old(free))
      ensures r.Ok? ==> Vacant(old(small), huge, page) && small == old(small)[page := frame]
      ensures |old(free)| <= |free| + 3
      ensures r.Err? ==> small == old(small) && (Lacks(r.error, old(free), 3) || !Vacant(old(small), huge, page))
    {
      var _ :- TakeTables();
      if page in small || page / 512 in huge {
        return Err(Rejected("page is already mapped"));
      }
      small := small[page := frame];
      r := Ok(());
    }

    method MapHuge(page: int, frame: int) returns (r: Result<()>)
      requires Valid() && 0 <= page < HUGE_COUNT
      modifies this`huge, this`free
      ensures Valid() && IsRest(free, old(free))
      ensures r.Ok? ==> HugeVacant(small, old(huge), page) && huge == old(huge)[page := frame]
      ensures |old(free)| <= |free| + 3
      ensures r.Err? ==> huge == old(huge) && (Lacks(r.error, old(free), 3) || !HugeVacant(small, old(huge), page))
    {
      var _ :- TakeTables();
      if page in huge || exists p | p in small :: p / 512 == page {
        return Err(Rejected("page is already mapped"));
      }
      huge := huge[page := frame];
      r := Ok(());
    }

    /** Maps consecutive pages to consecutive frames. */
    method MapRange(first: int, last: int, frame: int) returns (r: Result<()>)
      requires Valid() && 0 <= first && last < PAGE_COUNT
      modifies this`small, this`free
      ensures Valid() && IsRest(free, old(free))
      ensures r.Ok? ==> small == old(small) + Run(first, last, frame) && Keeps(old(small), small)
      ensures r.Ok? ==> |old(free)| <= |free| + 3 * Count(first, last)
      ensures r.Err? ==> Lacks(r.error, old(free), 3 * Count(first, last)) || !AllVacant(old(small), huge, first, last)
      ensures forall p | p in small :: p in old(small) || first <= p <= last
    {
      hide Valid, IsRest;
      RestAll(free);
      ghost var before := small;
      var page := first;
      RunEmpty(before, first, first - 1, frame);
      if last < first {
        RunEmpty(before, first, last, frame);
      }
      hide Run;
      while page <= last
        invariant first <= page && (page <= last + 1 || page == first)
        invariant forall p | p in small :: p in before || first <= p < page
        invariant IsRest(free, old(free)) && |old(free)| <= |free| + 3 * (page - first)
        invariant Valid() && small == before + Run(first, page - 1, frame) && Keeps(before, small)
      {
        RunNext(before, first, page, frame);
        assert Vacant(before, huge, page) ==> Vacant(small, huge, page);
        ghost var now := free;
        r := MapTo(page, frame + (page - first));
        RestTwice(free, now, old(free));
        if r.Err? {
          return;
        }
        page := page + 1;
      }
      r := Ok(());
    }

    /** Maps a page to a frame of the allocator. */
    method MapNew(page: int) returns (r: Result<int>)
      requires Valid() && 0 <= page < PAGE_COUNT
      modifies this`small, this`free
      ensures Valid() && IsRest(free, old(free)) && |old(free)| <= |free| + 4
      ensures r.Ok? ==> small == old(small)[page := r.value] && page !in old(small)
      ensures r.Ok? ==> Taken(r.value, old(free), free) && |free| < |old(free)|
      ensures r.Err? ==> small == old(small) && (Lacks(r.error, old(free), 4) || !Vacant(old(small), huge, page))
    {
      hide Valid, IsRest;
      ghost var start := free;
      var frame :- AllocateFrame();
      ghost var now := free;
      var mapped := MapTo(page, frame);
      RestMembers(free, now);
      RestTwice(free, now, start);
      if mapped.Err? {
        return Err(mapped.error);
      }
      r := Ok(frame);
    }

    /** Maps consecutive pages to frames of the allocator, a different one for each page. */
    method MapFresh(first: int, last: int) returns (r: Result<()>, ghost frames: map<int, int>)
      requires Valid() && 0 <= first <= last < PAGE_COUNT
      modifies this`small, this`free
      ensures Valid() && IsRest(free, old(free))
      ensures r.Ok? ==> small == old(small) + frames && Keeps(old(small), small)
      ensures r.Ok? ==> FreshFrames(first, last, frames, old(free), free)
      ensures r.Ok? ==> |free| + Count(first, last) <= |old(free)| <= |free| + 4 * Count(first, last)
      ensures r.Err? ==> Lacks(r.error, old(free), 4 * Count(first, last)) || !AllVacant(old(small), huge, first, last)
      ensures forall p | p in small :: p in old(small) || first <= p <= last
    {
      hide Valid, IsRest, FreshFrames, Keeps, Taken;
      ghost var before := small;
      RestAll(free);
      frames := map[];
      FreshNone(first, free);
      KeepsItself(before);
      var page := first;
      while page <= last
        invariant first <= page <= last + 1
        invariant Valid() && small == before + frames && Keeps(before, small)
        invariant FreshFrames(first, page - 1, frames, old(free), free)
        invariant forall p | p in small :: p in before || first <= p < page
        invariant IsRest(free, old(free)) && |free| + (page - first) <= |old(free)| <= |free| + 4 * (page - first)
      {
        ghost var start, now := free, small;
        assert Vacant(before, huge, page) ==> Vacant(small, huge, page);
        var frame := MapNew(page);
        RestTwice(free, start, old(free));
        if frame.Err? {
          return Err(frame.error), frames;
        }
        FreshNext(first, page, frames, frame.value, old(free), start, free);
        AddPage(before, frames, now, page, frame.value);
        frames := frames[page := frame.value];
        page := page + 1;
      }
      r := Ok(());
    }

    /** Maps a page in the bootloader's own table. */
    method MapOwn(page: int, frame: int) returns (r: Result<()>)
      requires Valid()
      modifies this`own, this`free
      ensures Valid() && IsRest(free, old(free)) && |old(free)| <= |free| + 3
      ensures r.Ok? ==> page !in old(own) && own == old(own)[page := frame]
      ensures r.Err? ==> own == old(own) && (Lacks(r.error, old(free), 3) || page in old(own))
    {
      var _ :- TakeTables();
      if page in own {
        return Err(Rejected("page is already mapped"));
      }
      own := own[page := frame];
      r := Ok(());
    }

    /** Maps a page to a frame of the allocator, for the kernel and for the bootloader. */
    method MapBoth(page: int) returns (r: Result<int>)
      requires Valid() && 0 <= page < PAGE_COUNT
      modifies this`small, this`own, this`free
      ensures Valid() && IsRest(free, old(free)) && |old(free)| <= |free| + 7
      ensures r.Ok? ==> small == old(small)[page := r.value] && own == old(own)[page := r.value]
      ensures r.Ok? ==> page !in old(small) && page !in old(own) && Taken(r.value, old(free), free)
      ensures r.Err? ==> Lacks(r.error, old(free), 7) || !Vacant(old(small), huge, page) || page in old(own)
      ensures r.Err? ==> forall p | p in small :: p in old(small) || p == page
    {
      hide Valid, IsRest;
      ghost var start := free;
      var frame :- MapNew(page);
      ghost var now := free;
      var mapped := MapOwn(page, frame);
      RestTwice(free, now, start);
      TakenLater(start, now, free);
      if mapped.Err? {
        return Err(mapped.error);
      }
      r := Ok(frame);
    }

    /** Maps consecutive pages to frames of the allocator, a different one for each page, both for the
        kernel and for the bootloader. */
    method MapShared(first: int, last: int) returns (r: Result<()>, ghost frames: map<int, int>)
      requires Valid() && 0 <= first <= last < PAGE_COUNT
      modifies this`small, this`own, this`free
      ensures Valid() && IsRest(free, old(free))
      ensures r.Ok? ==> small == old(small) + frames && Keeps(old(small), small)
      ensures r.Ok? ==> own == old(own) + frames && Keeps(old(own), own)
      ensures r.Ok? ==> FreshFrames(first, last, frames, old(free), free)
      ensures r.Ok? ==> |old(free)| <= |free| + 7 * Count(first, last)
      ensures r.Err? ==> || Lacks(r.error, old(free), 7 * Count(first, last))
                         || !AllVacant(old(small), huge, first, last)
                         || exists p :: first <= p <= last && p in old(own)
      ensures forall p | p in small :: p in old(small) || first <= p <= last
    {
      hide Valid, IsRest, FreshFrames, Keeps, Taken;
      ghost var before, owned := small, own;
      RestAll(free);
      frames := map[];
      FreshNone(first, free);
      KeepsItself(before);
      KeepsItself(owned);
      var page := first;
      while page <= last
        invariant first <= page <= last + 1
        invariant Valid() && small == before + frames && Keeps(before, small)
        invariant own == owned + frames && Keeps(owned, own)
        invariant FreshFrames(first, page - 1, frames, old(free), free)
        invariant forall p | p in frames :: first <= p < page
        invariant IsRest(free, old(free)) && |old(free)| <= |free| + 7 * (page - first)
      {
        ghost var start, now, ownNow := free, small, own;
        assert Vacant(before, huge, page) ==> Vacant(small, huge, page);
        var frame := MapBoth(page);
        RestTwice(free, start, old(free));
        if frame.Err? {
          return Err(frame.error), frames;
        }
        FreshNext(first, page, frames, frame.value, old(free), start, free);
        AddPage(before, frames, now, page, frame.value);
        AddPage(owned, frames, ownNow, page, frame.value);
        frames := frames[page := frame.value];
        page := page + 1;
      }
      r := Ok(());
    }

    /** Maps consecutive 2 MiB pages to consecutive frames. */
    method MapHugeRange(first: int, last: int, frame: int) returns (r: Result<()>)
      requires Valid() && 0 <= first && last < HUGE_COUNT
      modifies this`huge, this`free
      ensures Valid() && IsRest(free, old(free))
      ensures r.Ok? ==> huge == old(huge) + Run(first, last, frame) && Keeps(old(huge), huge)
      ensures r.Ok? ==> |old(free)| <= |free| + 3 * Count(first, last)
      ensures r.Err? ==>
          Lacks(r.error, old(free), 3 * Count(first, last)) || !AllHugeVacant(small, old(huge), first, last)
      ensures forall q | q in huge :: q in old(huge) || first <= q <= last
    {
      hide Valid, IsRest;
      RestAll(free);
      ghost var before := huge;
      var page := first;
      RunEmpty(before, first, first - 1, frame);
      if last < first {
        RunEmpty(before, first, last, frame);
      }
      hide Run;
      while page <= last
        invariant first <= page && (page <= last + 1 || page == first)
        invariant forall q | q in huge :: q in before || first <= q < page
        invariant IsRest(free, old(free)) && |old(free)| <= |free| + 3 * (page - first)
        invariant Valid() && huge == before + Run(first, page - 1, frame) && Keeps(before, huge)
      {
        RunNext(before, first, page, frame);
        assert HugeVacant(small, before, page) ==> HugeVacant(small, huge, page);
        ghost var now := free;
        r := MapHuge(page, frame + (page - first));
        RestTwice(free, now, old(free));
        if r.Err? {
          return;
        }
        page := page + 1;
      }
      r := Ok(());
    }
  }
}
