/** Loading an ELF executable: when it succeeds, and the segment image (System V gABI, chapter 5, Program Header). */
module Elf {
  import opened PhysMem
  import opened BuddyAllocator
  import opened PageTable
  import opened PageMaps
  import opened VmaList
  import opened UserMemory
  import opened Isolation
  import opened StackImage
  import opened Spaces = AddressSpace
  import opened ElfHeader
  import opened LoadCost
  import opened LoadPlan

  // ---------- The image of a segment ----------

  /** The byte that address `a` of the segment holds: the file's, or 0 past the end of the file data. */
  function SegmentByte(data: seq<byte>, s: Segment, a: nat): byte {
    if s.vaddr <= a < s.vaddr + s.filesz && s.offset + (a - s.vaddr) < |data| then data[s.offset + (a - s.vaddr)] else 0
  }

  /** Every address of the segment's pages reads as it should. */
  ghost predicate SegmentImage(m: Mem, x: Space, data: seq<byte>, s: Segment) {
    forall a: nat :: 4096 * FirstPage(s) <= a < 4096 * LastPage(s) ==>
      View(m, x.walks, x.areas, a) == Some(SegmentByte(data, s, a))
  }

  /** Whatever could be read before reads the same. */
  ghost predicate ViewGrows(m: Mem, x: Space, n: Mem, y: Space) {
    forall a: nat :: View(m, x.walks, x.areas, a).Some? ==> View(n, y.walks, y.areas, a) == View(m, x.walks, x.areas, a)
  }

  lemma ViewGrowsTrans(m: Mem, x: Space, n: Mem, y: Space, o: Mem, z: Space)
    requires ViewGrows(m, x, n, y) && ViewGrows(n, y, o, z)
    ensures ViewGrows(m, x, o, z)
  {
    forall a: nat | View(m, x.walks, x.areas, a).Some?
      ensures View(o, z.walks, z.areas, a) == View(m, x.walks, x.areas, a)
    {
      assert View(n, y.walks, y.areas, a) == View(m, x.walks, x.areas, a);
    }
  }

  lemma ImageKept(m: Mem, x: Space, n: Mem, y: Space, data: seq<byte>, s: Segment)
    requires SegmentImage(m, x, data, s) && ViewGrows(m, x, n, y)
    ensures SegmentImage(n, y, data, s)
  {
    forall a: nat | 4096 * FirstPage(s) <= a < 4096 * LastPage(s)
      ensures View(n, y.walks, y.areas, a) == Some(SegmentByte(data, s, a))
    {
      assert View(m, x.walks, x.areas, a) == Some(SegmentByte(data, s, a));
    }
  }

  // ---------- One page ----------

  /** The 4096 bytes of page `k` of the segment. */
  ghost predicate IsPageOf(bytes: seq<byte>, data: seq<byte>, s: Segment, k: nat) {
    |bytes| == 4096 && forall j :: 0 <= j < 4096 ==> bytes[j] == SegmentByte(data, s, 4096 * k + j)
  }

  /** A zeroed page with the overlap of page and file data copied in. */
  method PageBytes(data: seq<byte>, s: Segment, k: nat) returns (bytes: seq<byte>)
    requires s.offset + s.filesz <= |data|
    ensures IsPageOf(bytes, data, s, k)
  {
    var pageStart, pageEnd := 4096 * k, 4096 * k + 4096;
    var fileStart, fileEnd := s.vaddr, s.vaddr + s.filesz;
    var copyStart := if pageStart < fileStart then fileStart else pageStart;
    var copyEnd := if pageEnd < fileEnd then pageEnd else fileEnd;
    bytes := ZEROES;
    if copyStart < copyEnd {
      var from := s.offset + (copyStart - fileStart);
      var chunk := data[from..from + (copyEnd - copyStart)];
      bytes := Patch(ZEROES, copyStart - pageStart, chunk);
      forall j | 0 <= j < 4096 ensures bytes[j] == SegmentByte(data, s, 4096 * k + j) {
        PatchByte(ZEROES, copyStart - pageStart, chunk, j);
      }
    }
  }

  /** No page but `k` was mapped or unmapped. */
  ghost predicate OnlyPage(walks: Walks, next: Walks, k: nat) {
    forall j: nat :: j != k && j in walks ==> j in next && next[j] == walks[j]
  }

  // ---------- One segment ----------

  /** The pages from `first` to `page` read as the segment says, everything else as in `m` and `walks`. */
  ghost predicate Loaded(m: Mem, walks: Walks, n: Mem, next: Walks, vs: seq<Vma>, data: seq<byte>, s: Segment,
                         first: nat, page: nat)
  {
    forall a: nat :: View(n, next, vs, a) ==
      if 4096 * first <= a < 4096 * page then Some(SegmentByte(data, s, a)) else View(m, walks, vs, a)
  }

  lemma LoadedMore(m: Mem, walks: Walks, n: Mem, next: Walks, o: Mem, last: Walks, vs: seq<Vma>, data: seq<byte>,
                   s: Segment,
                   first: nat, page: nat, bytes: seq<byte>)
    requires Loaded(m, walks, n, next, vs, data, s, first, page) && first <= page && IsPageOf(bytes, data, s, page)
    requires PageFilled(n, next, o, last, vs, page, bytes)
    ensures Loaded(m, walks, o, last, vs, data, s, first, page + 1)
  {
    forall a: nat
      ensures View(o, last, vs, a) ==
        if 4096 * first <= a < 4096 * (page + 1) then Some(SegmentByte(data, s, a)) else View(m, walks, vs, a)
    {
      assert View(n, next, vs, a) ==
        if 4096 * first <= a < 4096 * page then Some(SegmentByte(data, s, a)) else View(m, walks, vs, a);
      if 4096 * page <= a < 4096 * page + 4096 {
        var j := a - 4096 * page;
        assert bytes[j] == SegmentByte(data, s, 4096 * page + j);
      }
    }
  }

  /** The pages from `lo` to `hi` have no frame yet. */
  ghost predicate Untouched(walks: Walks, lo: nat, hi: nat) {
    forall k: nat :: lo <= k < hi ==> k in walks && walks[k] == Unmapped
  }

  /** The pages from `lo` to `hi` have a frame. */
  ghost predicate Mapped(walks: Walks, lo: nat, hi: nat) {
    forall k: nat :: lo <= k < hi ==> k in walks && walks[k] != Unmapped
  }

  /**
   * How an error in the page loop bears on the frames: an allocation that fails loses none, a mapping that fails one.
   */
  ghost predicate ErrorLoses(s: set<nat>, x: Space, t: set<nat>, y: Space, e: Option<ElfError>) {
    match e
    case None => Conserved(s, x, t, y)
    case Some(PageMapFailed) => OneLost(s, x, t, y) && t == {}
    case Some(NoMemory) => Conserved(s, x, t, y) && t == {}
    case Some(_) => false
  }

  /** The segment's pages up to `page` are loaded, the rest of them are untouched, and nothing else has changed. */
  ghost predicate LoadingAt(m: Mem, s: set<nat>, x: Space, n: Mem, t: set<nat>, y: Space, data: seq<byte>, seg: Segment,
                            page: nat, image: Image)
  {
    && FirstPage(seg) <= page <= LastPage(seg) && y.areas == x.areas
    && Confined(m, s, x, n, t, y) && Conserved(s, x, t, y)
    && Loaded(m, x.walks, n, y.walks, x.areas, data, seg, FirstPage(seg), page)
    && SameOutside(x.walks, y.walks, FirstPage(seg), LastPage(seg)) && Untouched(y.walks, page, LastPage(seg))
    && Mapped(y.walks, FirstPage(seg), page)
    && Tidy(y.walks, y.areas, image)
  }

  /** One more page. */
  lemma LoadingNext(m: Mem, s: set<nat>, x: Space, n: Mem, t: set<nat>, y: Space, o: Mem, u: set<nat>, z: Space,
                    data: seq<byte>, seg: Segment, page: nat, image: Image, flags: Flags, bytes: seq<byte>)
    requires LoadingAt(m, s, x, n, t, y, data, seg, page, image) && page < LastPage(seg)
    requires IsPageOf(bytes, data, seg, page)
    requires PageGiven(n, t, y, o, u, z, page, flags, bytes, Given) && PageAttr(y.areas, page).Some?
    requires z.areas == y.areas
    ensures LoadingAt(m, s, x, o, u, z, data, seg, page + 1, image)
  {
    ConfinedTrans(m, s, x, n, t, y, o, u, z);
    ConservedTrans(s, x, t, y, u, z);
    LoadedMore(m, x.walks, n, y.walks, o, z.walks, x.areas, data, seg, FirstPage(seg), page, bytes);
    OnePageMore(x.walks, y.walks, z.walks, FirstPage(seg), page, LastPage(seg));
    TidyAfter(y.walks, z.walks, y.areas, z.areas, image);
  }

  lemma LoadingStops(m: Mem, s: set<nat>, x: Space, n: Mem, t: set<nat>, y: Space, o: Mem, u: set<nat>, z: Space,
                     data: seq<byte>, seg: Segment, page: nat, image: Image, flags: Flags, bytes: seq<byte>,
                     r: PageResult)
    requires LoadingAt(m, s, x, n, t, y, data, seg, page, image) && |bytes| == 4096 && r != Given
    requires PageGiven(n, t, y, o, u, z, page, flags, bytes, r) && z.areas == y.areas
    ensures Confined(m, s, x, o, u, z) && ErrorLoses(s, x, u, z, Some(if r == NoFrame then NoMemory else PageMapFailed))
    ensures Tidy(z.walks, z.areas, image)
  {
    ConfinedTrans(m, s, x, n, t, y, o, u, z);
    if r == NotMapped { LostThen(s, x, t, y, u, z); }
  }

  /** One more page was paid for, or could not be. */
  lemma PageAccounts(tabs: Tabs, free: nat, s: Segment, page: nat, mid: Tabs, left: nat, next: Tabs, rest: nat,
                     e: Option<ElfError>)
    requires Loadable(s) && FirstPage(s) <= page < LastPage(s) && Spent(tabs, free, Below(s, page), mid, left)
    requires PageErrors(e, left, Lacking(mid, page))
    requires e.None? ==> WayAdded(mid, next, page) && rest + 1 + Lacking(mid, page) == left
    requires e.Some? ==> e.value == NoMemory || e.value == PageMapFailed
    ensures e.None? ==> Spent(tabs, free, Below(s, page + 1), next, rest)
    ensures e.Some? ==> SegmentBreaks(tabs, free, s, e.value)
  {
    CoversIs(s, page);
    BelowNext(s, page);
    if e.None? {
      PageSpent(mid, left, page, next, rest);
      SpentThen(tabs, free, Below(s, page), mid, left, {page}, next, rest, Below(s, page + 1));
    } else {
      OutOfPages(tabs, free, Below(s, page), mid, left, page);
      assert RunsOut(tabs, free, Below(s, page), page, e.value);
    }
  }

  /** The pages up to `page` are loaded and paid for. */
  ghost predicate PaidUpTo(m: Mem, s: set<nat>, x: Space, n: Mem, t: set<nat>, y: Space, data: seq<byte>, seg: Segment,
                           page: nat, image: Image)
  {
    LoadingAt(m, s, x, n, t, y, data, seg, page, image) && Spent(x.tabs, |s|, Below(seg, page), y.tabs, |t|)
  }

  /** The page loop has ended with error `e`. */
  ghost predicate Broken(m: Mem, s: set<nat>, x: Space, n: Mem, t: set<nat>, y: Space, seg: Segment, image: Image,
                         e: ElfError)
  {
    && Confined(m, s, x, n, t, y) && Tidy(y.walks, y.areas, image) && ErrorLoses(s, x, t, y, Some(e))
    && SegmentBreaks(x.tabs, |s|, seg, e)
  }

  lemma NonePaid(m: Mem, s: set<nat>, x: Space, data: seq<byte>, seg: Segment, image: Image)
    requires Loadable(seg) && FirstPage(seg) <= LastPage(seg) && Untouched(x.walks, FirstPage(seg), LastPage(seg))
    requires Tidy(x.walks, x.areas, image) && SpaceOk(m, s, x)
    ensures PaidUpTo(m, s, x, m, s, x, data, seg, FirstPage(seg), image)
  {
    BelowEnds(seg);
    NothingSpent(x.tabs, |s|);
  }

  /** The page loop of a segment whose area has just been added. */
  method LoadPages(space: AddressSpace, alloc: Buddy, data: seq<byte>, s: Segment) returns (e: Option<ElfError>)
    requires space.MemoryOk(alloc, space.vmas) && s.offset + s.filesz <= |data|
    requires Tidy(space.walks, space.vmas, space.image)
    requires Loadable(s) && FirstPage(s) <= LastPage(s) <= USER_PAGES
    requires Untouched(space.walks, FirstPage(s), LastPage(s))
    requires forall k: nat :: FirstPage(s) <= k < LastPage(s) ==>
      PageAttr(space.vmas, k) == Some(Attr(s.flags, Anonymous))
    modifies space`walks, space`tabs, alloc, alloc.mem
    ensures space.MemoryOk(alloc, space.vmas)
    ensures e.None? ==>
      PaidUpTo(old(alloc.mem.cells), old(alloc.free), old(space.Here()), alloc.mem.cells, alloc.free, space.Here(),
               data, s, LastPage(s), space.image)
    ensures e.Some? ==>
      Broken(old(alloc.mem.cells), old(alloc.free), old(space.Here()), alloc.mem.cells, alloc.free, space.Here(),
             s, space.image, e.value)
  {
    ghost var m, t, x := alloc.mem.cells, alloc.free, space.Here();
    NonePaid(m, t, x, data, s, space.image);
    var page, last := FirstPage(s), LastPage(s);
    while page != last
      invariant FirstPage(s) <= page <= last && space.MemoryOk(alloc, space.vmas)
      invariant PaidUpTo(m, t, x, alloc.mem.cells, alloc.free, space.Here(), data, s, page, space.image)
    {
      var next := page + 1;
      e := LoadPage(space, alloc, data, s, page, m, t, x, next);
      if e.Some? { return; }
      page := next;
    }
    return None;
  }

  /** Gives page `page` of the segment its frame. */
  method LoadPage(space: AddressSpace, alloc: Buddy, data: seq<byte>, s: Segment, page: nat, ghost m: Mem,
                  ghost t: set<nat>, ghost x: Space, ghost next: nat)
    returns (e: Option<ElfError>)
    requires space.MemoryOk(alloc, space.vmas) && s.offset + s.filesz <= |data| && Loadable(s)
    requires FirstPage(s) <= page < LastPage(s) <= USER_PAGES && next == page + 1
    requires PaidUpTo(m, t, x, alloc.mem.cells, alloc.free, space.Here(), data, s, page, space.image)
    requires PageAttr(space.vmas, page) == Some(Attr(s.flags, Anonymous))
    modifies space`walks, space`tabs, alloc, alloc.mem
    ensures space.MemoryOk(alloc, space.vmas) && PageErrors(e, |old(alloc.free)|, Lacking(old(space.tabs), page))
    ensures e.None? ==> PaidUpTo(m, t, x, alloc.mem.cells, alloc.free, space.Here(), data, s, next, space.image)
    ensures e.Some? ==> Broken(m, t, x, alloc.mem.cells, alloc.free, space.Here(), s, space.image, e.value)
  {
    ghost var n, u, y := alloc.mem.cells, alloc.free, space.Here();
    var bytes := PageBytes(data, s, page);
    var flags := PageFlags(s.flags);
    var r := space.GivePage(alloc, page, bytes, flags);
    e := if r == Given then None else Some(if r == NoFrame then NoMemory else PageMapFailed);
    PageAccounts(x.tabs, |t|, s, page, y.tabs, |u|, space.tabs, |alloc.free|, e);
    if r == Given {
      LoadingNext(m, t, x, n, u, y, alloc.mem.cells, alloc.free, space.Here(), data, s, page, space.image, flags,
                  bytes);
    } else {
      LoadingStops(m, t, x, n, u, y, alloc.mem.cells, alloc.free, space.Here(), data, s, page, space.image, flags,
                   bytes, r);
    }
  }

  /** Which error the loading of a page ends with, by how many pages are free and how many tables are missing. */
  predicate PageErrors(e: Option<ElfError>, free: nat, lacking: nat) {
    && (e == Some(NoMemory) <==> free == 0)
    && (e == Some(PageMapFailed) <==> 1 <= free <= lacking)
    && (e == None <==> free > lacking)
  }

  /** Pages outside the range are mapped as before. */
  ghost predicate SameOutside(walks: Walks, next: Walks, lo: nat, hi: nat) {
    forall j: nat :: !(lo <= j < hi) && j in walks ==> j in next && next[j] == walks[j]
  }

  lemma OnePageMore(walks: Walks, mid: Walks, next: Walks, lo: nat, page: nat, hi: nat)
    requires lo <= page < hi && SameOutside(walks, mid, lo, hi) && OnlyPage(mid, next, page) && Untouched(mid, page, hi)
    requires Mapped(mid, lo, page) && page in next && next[page] != Unmapped
    ensures SameOutside(walks, next, lo, hi) && Untouched(next, page + 1, hi) && Mapped(next, lo, page + 1)
  {
  }

  /** A new area that reads as zero where nothing could be read hides nothing. */
  lemma ZeroAreaGrows(m: Mem, x: Space, y: Space, v: Vma)
    requires ZeroArea(m, x, m, y, v) && forall a: nat :: v.Contains(a) ==> View(m, x.walks, x.areas, a).None?
    ensures ViewGrows(m, x, m, y)
  {
  }

  lemma LoadedImage(m: Mem, x: Space, n: Mem, y: Space, data: seq<byte>, s: Segment)
    requires y.areas == x.areas && Loaded(m, x.walks, n, y.walks, x.areas, data, s, FirstPage(s), LastPage(s))
    ensures SegmentImage(n, y, data, s)
  {
  }

  /** Addresses that had no area keep their bytes while a segment over other pages is loaded. */
  lemma LoadedGrows(m: Mem, x: Space, mid: Space, n: Mem, y: Space, data: seq<byte>, s: Segment)
    requires ViewGrows(m, x, m, mid) && y.areas == mid.areas
    requires Loaded(m, mid.walks, n, y.walks, mid.areas, data, s, FirstPage(s), LastPage(s))
    requires forall a: nat :: 4096 * FirstPage(s) <= a < 4096 * LastPage(s) ==> View(m, x.walks, x.areas, a).None?
    ensures ViewGrows(m, x, n, y)
  {
    forall a: nat | View(m, x.walks, x.areas, a).Some?
      ensures View(n, y.walks, y.areas, a) == View(m, x.walks, x.areas, a)
    {
      assert View(m, mid.walks, mid.areas, a) == View(m, x.walks, x.areas, a);
    }
  }

  lemma VacantView(m: Mem, x: Space, first: nat, last: nat)
    requires Vacant(x.areas, 4096 * first, 4096 * last)
    ensures forall a: nat :: 4096 * first <= a < 4096 * last ==> View(m, x.walks, x.areas, a).None?
  {
    forall a: nat | 4096 * first <= a < 4096 * last ensures View(m, x.walks, x.areas, a).None? {
      var k := a / 4096;
      PageSplit(k, a);
      assert first <= k < last;
      assert Lookup(x.areas, k * 4096).None?;
    }
  }

  /** The pages between the segment's first and last are a real range. */
  lemma SpanFacts(s: Segment)
    requires s.memsz > 0
    ensures FirstPage(s) < LastPage(s) && 4096 * FirstPage(s) <= s.vaddr && s.vaddr + s.memsz <= 4096 * LastPage(s)
  {
  }

  /** What a segment loaded without error leaves: its image, and everything else as it was. */
  ghost predicate SegmentLoaded(m: Mem, x: Space, n: Mem, y: Space, data: seq<byte>, s: Segment) {
    && SegmentImage(n, y, data, s) && ViewGrows(m, x, n, y) && SameOutside(x.walks, y.walks, FirstPage(s), LastPage(s))
    && PagesAdded(x.areas, y.areas, s) && Mapped(y.walks, FirstPage(s), LastPage(s))
  }

  /** The segment's pages have its attributes, the others are as before. */
  ghost predicate PagesAdded(vs: seq<Vma>, ws: seq<Vma>, s: Segment) {
    forall k: nat ::
      PageAttr(ws, k) == if FirstPage(s) <= k < LastPage(s) then Some(Attr(s.flags, Anonymous)) else PageAttr(vs, k)
  }

  lemma SegmentComplete(m: Mem, x: Space, mid: Space, n: Mem, y: Space, data: seq<byte>, s: Segment)
    requires ViewGrows(m, x, m, mid) && mid == x.(areas := mid.areas) && y.areas == mid.areas
    requires Vacant(x.areas, 4096 * FirstPage(s), 4096 * LastPage(s))
    requires Loaded(m, mid.walks, n, y.walks, mid.areas, data, s, FirstPage(s), LastPage(s))
    requires SameOutside(mid.walks, y.walks, FirstPage(s), LastPage(s)) && Mapped(y.walks, FirstPage(s), LastPage(s))
    requires PagesAdded(x.areas, mid.areas, s)
    ensures SegmentLoaded(m, x, n, y, data, s)
  {
    LoadedImage(m, mid, n, y, data, s);
    VacantView(m, x, FirstPage(s), LastPage(s));
    LoadedGrows(m, x, mid, n, y, data, s);
  }

  /** What loading a segment whose file data is there does, by its outcome. */
  ghost predicate SegmentMeans(m: Mem, t: set<nat>, x: Space, n: Mem, u: set<nat>, y: Space, data: seq<byte>,
                               s: Segment, r: Option<ElfError>)
  {
    && (r == Some(AreaTaken) <==> !Vacant(x.areas, 4096 * FirstPage(s), 4096 * LastPage(s)))
    && (r == Some(AreaTaken) ==> u == t && n == m && y == x)
    && (r != Some(AreaTaken) ==> ErrorLoses(t, x, u, y, r))
    && (r.None? ==> SegmentLoaded(m, x, n, y, data, s))
    && (r.None? ==> Spent(x.tabs, |t|, Below(s, USER_PAGES), y.tabs, |u|))
    && (r.Some? && r != Some(AreaTaken) ==> SegmentBreaks(x.tabs, |t|, s, r.value))
  }

  /** Adds the area of a segment and fills its pages. */
  method MapSegment(space: AddressSpace, alloc: Buddy, data: seq<byte>, s: Segment) returns (r: Option<ElfError>)
    requires space.MemoryOk(alloc, space.vmas) && Canonical(space.vmas) && UserAreas(space.vmas)
    requires Loadable(s) && LastPage(s) <= USER_PAGES && s.offset + s.filesz <= |data|
    requires Tidy(space.walks, space.vmas, space.image) && space.image.Avoids(FirstPage(s), LastPage(s))
    modifies space`vmas, space`walks, space`tabs, alloc, alloc.mem
    ensures space.MemoryOk(alloc, space.vmas) && Canonical(space.vmas) && UserAreas(space.vmas)
    ensures Tidy(space.walks, space.vmas, space.image)
    ensures Confined(old(alloc.mem.cells), old(alloc.free), old(space.Here()), alloc.mem.cells, alloc.free,
                     space.Here())
    ensures SegmentMeans(old(alloc.mem.cells), old(alloc.free), old(space.Here()), alloc.mem.cells, alloc.free,
                         space.Here(), data, s, r)
  {
    SpanFacts(s);
    BelowEnds(s);
    ghost var m, t, x := alloc.mem.cells, alloc.free, space.Here();
    var ok := AddSegmentArea(space, alloc, s);
    if !ok { return Some(AreaTaken); }
    ghost var mid := space.Here();
    r := LoadPages(space, alloc, data, s);
    ConfinedTrans(m, t, x, m, t, mid, alloc.mem.cells, alloc.free, space.Here());
    ErrorThen(t, x, mid, alloc.free, space.Here(), r);
    if r.None? { SegmentComplete(m, x, mid, alloc.mem.cells, space.Here(), data, s); }
  }

  /** Loads one segment: checks its file range, adds its area, fills its pages. */
  method LoadSegment(space: AddressSpace, alloc: Buddy, data: seq<byte>, s: Segment) returns (r: Option<ElfError>)
    requires space.MemoryOk(alloc, space.vmas) && Canonical(space.vmas) && UserAreas(space.vmas)
    requires Loadable(s) && LastPage(s) <= USER_PAGES
    requires Tidy(space.walks, space.vmas, space.image) && space.image.Avoids(FirstPage(s), LastPage(s))
    modifies space`vmas, space`walks, space`tabs, alloc, alloc.mem
    ensures space.MemoryOk(alloc, space.vmas) && Canonical(space.vmas) && UserAreas(space.vmas)
    ensures Tidy(space.walks, space.vmas, space.image)
    ensures Confined(old(alloc.mem.cells), old(alloc.free), old(space.Here()), alloc.mem.cells, alloc.free,
                     space.Here())
    ensures r == Some(DataOverflow) <==> s.offset + s.filesz >= 0x1_0000_0000_0000_0000
    ensures r == Some(DataOutOfBounds) <==> |data| < s.offset + s.filesz < 0x1_0000_0000_0000_0000
    ensures if r == Some(DataOverflow) || r == Some(DataOutOfBounds)
            then
              && alloc.free == old(alloc.free) && space.Here() == old(space.Here())
              && alloc.mem.cells == old(alloc.mem.cells)
            else SegmentMeans(old(alloc.mem.cells), old(alloc.free), old(space.Here()), alloc.mem.cells, alloc.free,
                              space.Here(), data, s, r)
  {
    if s.offset + s.filesz >= 0x1_0000_0000_0000_0000 { return Some(DataOverflow); }
    if s.offset + s.filesz > |data| { return Some(DataOutOfBounds); }
    r := MapSegment(space, alloc, data, s);
  }

  lemma ErrorThen(s: set<nat>, x: Space, y: Space, t: set<nat>, z: Space, e: Option<ElfError>)
    requires Conserved(s, x, s, y) && ErrorLoses(s, y, t, z, e)
    ensures ErrorLoses(s, x, t, z, e)
  {
    if e == Some(PageMapFailed) { LostThen(s, x, s, y, t, z); }
  }

  /** Adds the segment's area to the list. */
  method AddSegmentArea(space: AddressSpace, ghost alloc: Buddy, s: Segment) returns (ok: bool)
    requires space.MemoryOk(alloc, space.vmas) && Canonical(space.vmas) && UserAreas(space.vmas)
    requires Tidy(space.walks, space.vmas, space.image) && space.image.Avoids(FirstPage(s), LastPage(s))
    requires FirstPage(s) < LastPage(s) <= USER_PAGES
    modifies space`vmas
    ensures space.MemoryOk(alloc, space.vmas) && Canonical(space.vmas) && UserAreas(space.vmas)
    ensures Tidy(space.walks, space.vmas, space.image)
    ensures ok <==> Vacant(old(space.vmas), 4096 * FirstPage(s), 4096 * LastPage(s))
    ensures !ok ==> space.vmas == old(space.vmas)
    ensures Confined(alloc.mem.cells, alloc.free, old(space.Here()), alloc.mem.cells, alloc.free, space.Here())
    ensures Conserved(alloc.free, old(space.Here()), alloc.free, space.Here())
    ensures ok ==> ViewGrows(alloc.mem.cells, old(space.Here()), alloc.mem.cells, space.Here())
    ensures ok ==> Untouched(space.walks, FirstPage(s), LastPage(s)) && PagesAdded(old(space.vmas), space.vmas, s)
  {
    ghost var m, x := alloc.mem.cells, space.Here();
    var v := Vma(4096 * FirstPage(s), 4096 * LastPage(s), Attr(s.flags, Anonymous));
    PageBoundary(FirstPage(s));
    PageBoundary(LastPage(s));
    ok := space.AddVma(v);
    if ok {
      AreaMapped(m, alloc.free, x, space.Here(), v, space.image);
      VacantView(m, x, FirstPage(s), LastPage(s));
      ZeroAreaGrows(m, x, space.Here(), v);
      NewAreaPages(x.areas, space.vmas, v);
      VacantUntouched(x.walks, x.areas, space.image, FirstPage(s), LastPage(s));
    }
  }

  lemma VacantUntouched(walks: Walks, vs: seq<Vma>, image: Image, first: nat, last: nat)
    requires Tidy(walks, vs, image) && image.Avoids(first, last) && Vacant(vs, 4096 * first, 4096 * last)
    requires last <= USER_PAGES
    ensures Untouched(walks, first, last)
  {
    forall k: nat | first <= k < last ensures PageAttr(vs, k).None? { assert Lookup(vs, k * 4096).None?; }
    TidyUnmapped(walks, vs, image, first, last);
  }

  // ---------- The whole file ----------

  /** The first `n` segments read as they should. */
  ghost predicate ImagesUpTo(m: Mem, x: Space, data: seq<byte>, segs: seq<Segment>, n: nat)
    requires n <= |segs|
  {
    forall i :: 0 <= i < n && Loadable(segs[i]) ==> SegmentImage(m, x, data, segs[i])
  }

  lemma ImagesMore(m: Mem, x: Space, n: Mem, y: Space, data: seq<byte>, segs: seq<Segment>, i: nat)
    requires i < |segs| && ImagesUpTo(m, x, data, segs, i) && SegmentLoaded(m, x, n, y, data, segs[i])
    ensures ImagesUpTo(n, y, data, segs, i + 1)
  {
    forall j | 0 <= j < i && Loadable(segs[j])
      ensures SegmentImage(n, y, data, segs[j])
    {
      ImageKept(m, x, n, y, data, segs[j]);
    }
  }

  lemma LossThen(s: set<nat>, x: Space, t: set<nat>, y: Space, u: set<nat>, z: Space, e: Option<ElfError>)
    requires Conserved(s, x, t, y)
    requires ErrorLoses(t, y, u, z, e) || (u == t && z == y && e != Some(PageMapFailed))
    ensures if e == Some(PageMapFailed) then OneLost(s, x, u, z) else Conserved(s, x, u, z)
  {
    if e == Some(PageMapFailed) { LostThen(s, x, t, y, u, z); }
  }

  /** A page belongs to an area of `ws` if it did to one of `vs`, or if one of the first `n` segments covers it. */
  ghost predicate AreasTaken(vs: seq<Vma>, ws: seq<Vma>, segs: seq<Segment>, n: nat) {
    forall k: nat :: PageAttr(ws, k).Some? <==> PageAttr(vs, k).Some? || CoveredBefore(segs, n, k)
  }

  /** The pages of the first `n` segments have frames and the attributes of their segment. */
  ghost predicate Furnished(walks: Walks, ws: seq<Vma>, segs: seq<Segment>, n: nat)
    requires n <= |segs|
  {
    forall i, k: nat :: 0 <= i < n && Covers(segs[i], k) ==>
      k in walks && walks[k] != Unmapped && PageAttr(ws, k) == Some(Attr(segs[i].flags, Anonymous))
  }

  /** The first `i` segments are loaded and paid for. */
  ghost predicate LoadedUpTo(m: Mem, s: set<nat>, x: Space, n: Mem, t: set<nat>, y: Space, data: seq<byte>,
                             segs: seq<Segment>, i: nat)
    requires i <= |segs|
  {
    && Confined(m, s, x, n, t, y) && Conserved(s, x, t, y) && ViewGrows(m, x, n, y) && ImagesUpTo(n, y, data, segs, i)
    && Fine(data, x.areas, segs, i) && AreasTaken(x.areas, y.areas, segs, i) && Furnished(y.walks, y.areas, segs, i)
    && Spent(x.tabs, |s|, Covered(segs, i), y.tabs, |t|)
  }

  lemma NoneLoaded(m: Mem, s: set<nat>, x: Space, data: seq<byte>, segs: seq<Segment>)
    requires SpaceOk(m, s, x)
    ensures LoadedUpTo(m, s, x, m, s, x, data, segs, 0)
  {
    NothingSpent(x.tabs, |s|);
    assert Covered(segs, 0) == {};
  }

  /** A segment that is not to be loaded covers nothing. */
  lemma SegmentSkipped(m: Mem, s: set<nat>, x: Space, n: Mem, t: set<nat>, y: Space, data: seq<byte>,
                       segs: seq<Segment>, i: nat, next: nat)
    requires next == i + 1 <= |segs| && LoadedUpTo(m, s, x, n, t, y, data, segs, i)
    requires !(segs[i].kind == 1 && segs[i].memsz > 0)
    ensures LoadedUpTo(m, s, x, n, t, y, data, segs, next)
  {
    NothingCovered(segs, i, next);
    assert SpanFree(x.areas, segs, i);
  }

  lemma NothingCovered(segs: seq<Segment>, i: nat, next: nat)
    requires next == i + 1 <= |segs| && !(segs[i].kind == 1 && segs[i].memsz > 0)
    ensures Covered(segs, next) == Covered(segs, i)
    ensures forall k: nat :: CoveredBefore(segs, next, k) <==> CoveredBefore(segs, i, k)
  {
    forall k: nat ensures CoveredBefore(segs, next, k) <==> CoveredBefore(segs, i, k) {
      if j :| 0 <= j < next && Covers(segs[j], k) { assert j < i; }
    }
  }

  /** The pages of the span are free now exactly if they were and no earlier segment covers them. */
  lemma SpanNow(vs: seq<Vma>, ws: seq<Vma>, segs: seq<Segment>, i: nat)
    requires i < |segs| && Loadable(segs[i]) && AreasTaken(vs, ws, segs, i) && Sorted(ws) && UserAreas(ws)
    ensures Vacant(ws, 4096 * FirstPage(segs[i]), 4096 * LastPage(segs[i])) <==> SpanFree(vs, segs, i)
  {
    var s := segs[i];
    VacantPages(ws, FirstPage(s), LastPage(s));
    forall k: nat ensures Covers(s, k) <==> FirstPage(s) <= k < LastPage(s) { CoversIs(s, k); }
  }

  lemma VacantPages(vs: seq<Vma>, first: nat, last: nat)
    requires Sorted(vs) && UserAreas(vs)
    ensures Vacant(vs, 4096 * first, 4096 * last) <==> forall k: nat :: first <= k < last ==> PageAttr(vs, k).None?
  {
    if Vacant(vs, 4096 * first, 4096 * last) {
      forall k: nat | first <= k < last ensures PageAttr(vs, k).None? { assert Lookup(vs, k * 4096).None?; }
    }
    if forall k: nat :: first <= k < last ==> PageAttr(vs, k).None? {
      forall a: nat | 4096 * first <= a < 4096 * last ensures Lookup(vs, a).None? {
        PageLookup(vs, a);
        assert first <= a / 4096 < last;
      }
    }
  }

  /** One more segment. */
  lemma SegmentDone(m: Mem, s: set<nat>, x: Space, n: Mem, t: set<nat>, y: Space, o: Mem, u: set<nat>, z: Space,
                    data: seq<byte>, segs: seq<Segment>, i: nat, next: nat)
    requires next == i + 1 <= |segs| && LoadedUpTo(m, s, x, n, t, y, data, segs, i)
    requires Loadable(segs[i]) && FileInside(data, segs[i]) && Sorted(y.areas) && UserAreas(y.areas)
    requires Confined(n, t, y, o, u, z) && SegmentMeans(n, t, y, o, u, z, data, segs[i], None)
    ensures LoadedUpTo(m, s, x, o, u, z, data, segs, next)
  {
    ConfinedTrans(m, s, x, n, t, y, o, u, z);
    ConservedTrans(s, x, t, y, u, z);
    ViewGrowsTrans(m, x, n, y, o, z);
    ImagesMore(n, y, o, z, data, segs, i);
    SpanNow(x.areas, y.areas, segs, i);
    AreasMore(x.areas, y.areas, z.areas, segs, i, next);
    FurnishedMore(x.areas, y.walks, y.areas, z.walks, z.areas, segs, i, next);
    PaidMore(x.areas, x.tabs, |s|, y.tabs, |t|, z.tabs, |u|, segs, i, next);
  }

  lemma AreasMore(vs: seq<Vma>, ws: seq<Vma>, us: seq<Vma>, segs: seq<Segment>, i: nat, next: nat)
    requires next == i + 1 <= |segs| && AreasTaken(vs, ws, segs, i) && Loadable(segs[i]) && PagesAdded(ws, us, segs[i])
    ensures AreasTaken(vs, us, segs, next)
  {
    forall k: nat ensures PageAttr(us, k).Some? <==> PageAttr(vs, k).Some? || CoveredBefore(segs, next, k) {
      CoversIs(segs[i], k);
      assert CoveredBefore(segs, next, k) <==> CoveredBefore(segs, i, k) || Covers(segs[i], k);
    }
  }

  lemma FurnishedMore(vs: seq<Vma>, walks: Walks, ws: seq<Vma>, after: Walks, us: seq<Vma>, segs: seq<Segment>, i: nat,
                      next: nat)
    requires next == i + 1 <= |segs| && Furnished(walks, ws, segs, i) && Loadable(segs[i]) && SpanFree(vs, segs, i)
    requires PagesAdded(ws, us, segs[i]) && Mapped(after, FirstPage(segs[i]), LastPage(segs[i]))
    requires SameOutside(walks, after, FirstPage(segs[i]), LastPage(segs[i]))
    ensures Furnished(after, us, segs, next)
  {
    forall j, k: nat | 0 <= j < next && Covers(segs[j], k)
      ensures k in after && after[k] != Unmapped && PageAttr(us, k) == Some(Attr(segs[j].flags, Anonymous))
    {
      CoversIs(segs[i], k);
      if j < i { assert CoveredBefore(segs, i, k); }
    }
  }

  lemma PaidMore(vs: seq<Vma>, tabs: Tabs, free: nat, mid: Tabs, left: nat, after: Tabs, rest: nat, segs: seq<Segment>,
                 i: nat, next: nat)
    requires next == i + 1 <= |segs| && SpanFree(vs, segs, i) && Spent(tabs, free, Covered(segs, i), mid, left)
    requires Spent(mid, left, Below(segs[i], USER_PAGES), after, rest)
    ensures Spent(tabs, free, Covered(segs, next), after, rest)
  {
    CoveredNext(segs, i, next);
    SpentThen(tabs, free, Covered(segs, i), mid, left, Below(segs[i], USER_PAGES), after, rest, Covered(segs, next));
  }

  /** Why a segment was not loaded, in terms of the state before the first one was. */
  lemma SegmentStops(m: Mem, s: set<nat>, x: Space, n: Mem, t: set<nat>, y: Space, o: Mem, u: set<nat>, z: Space,
                     data: seq<byte>, segs: seq<Segment>, i: nat, e: ElfError)
    requires i < |segs| && LoadedUpTo(m, s, x, n, t, y, data, segs, i)
    requires Loadable(segs[i]) && Sorted(y.areas) && UserAreas(y.areas)
    requires e == DataOverflow <==> segs[i].offset + segs[i].filesz >= 0x1_0000_0000_0000_0000
    requires e == DataOutOfBounds <==> |data| < segs[i].offset + segs[i].filesz < 0x1_0000_0000_0000_0000
    requires e != DataOverflow && e != DataOutOfBounds ==> SegmentMeans(n, t, y, o, u, z, data, segs[i], Some(e))
    ensures StopsAt(data, x.areas, x.tabs, |s|, segs, i, e)
  {
    SpentIs(x.tabs, |s|, Covered(segs, i), y.tabs, |t|);
    SpanNow(x.areas, y.areas, segs, i);
    if e != DataOverflow && e != DataOutOfBounds && e != AreaTaken {
      var p: nat :| Covers(segs[i], p) && RunsOut(y.tabs, |t|, Below(segs[i], p), p, e);
      assert RunsOut(y.tabs, |t|, Below(segs[i], p), p, e);
      BreaksHere(x.areas, x.tabs, |s|, y.tabs, |t|, segs, i, p, e);
    }
  }

  lemma BreaksHere(vs: seq<Vma>, tabs: Tabs, free: nat, mid: Tabs, left: nat, segs: seq<Segment>, i: nat, p: nat,
                   e: ElfError)
    requires i < |segs| && SpanFree(vs, segs, i) && Spent(tabs, free, Covered(segs, i), mid, left)
    requires Covers(segs[i], p) && RunsOut(mid, left, Below(segs[i], p), p, e)
    ensures e == NoMemory ==> NoFrameFor(tabs, free, segs, i)
    ensures e == PageMapFailed ==> NoTablesFor(tabs, free, segs, i)
    ensures e == NoMemory || e == PageMapFailed
  {
    ShortAfter(tabs, free, Covered(segs, i), mid, left, Below(segs[i], p), p);
    UsesUpIs(tabs, free, Covered(segs, i) + Below(segs[i], p));
    FallsShortIs(tabs, free, Covered(segs, i) + Below(segs[i], p), p);
  }

  /** Every address of a page that a segment covers holds the segment's byte, and ring 3 may use the page as it says. */
  ghost predicate InPlace(m: Mem, x: Space, data: seq<byte>, segs: seq<Segment>) {
    && (forall i, a: nat :: 0 <= i < |segs| && Covers(segs[i], a / 4096) ==>
          View(m, x.walks, x.areas, a) == Some(SegmentByte(data, segs[i], a)))
    && (forall i, k: nat :: 0 <= i < |segs| && Covers(segs[i], k) ==> AccessAs(m, x.root, k, segs[i].flags))
  }

  lemma AllInPlace(m: Mem, s: set<nat>, x: Space, data: seq<byte>, segs: seq<Segment>)
    requires SpaceOk(m, s, x) && ImagesUpTo(m, x, data, segs, |segs|) && Furnished(x.walks, x.areas, segs, |segs|)
    requires InUserHalf(segs)
    ensures InPlace(m, x, data, segs)
  {
    forall i, a: nat | 0 <= i < |segs| && Covers(segs[i], a / 4096)
      ensures View(m, x.walks, x.areas, a) == Some(SegmentByte(data, segs[i], a))
    {
      CoversIs(segs[i], a / 4096);
      assert SegmentImage(m, x, data, segs[i]);
    }
    forall i, k: nat | 0 <= i < |segs| && Covers(segs[i], k) ensures AccessAs(m, x.root, k, segs[i].flags) {
      AreaAccess(m, s, x, k);
    }
  }

  /** The file was loaded, exactly as it could be. */
  lemma LoadComplete(m: Mem, s: set<nat>, x: Space, n: Mem, t: set<nat>, y: Space, data: seq<byte>, segs: seq<Segment>)
    requires LoadedUpTo(m, s, x, n, t, y, data, segs, |segs|) && SpaceOk(n, t, y) && InUserHalf(segs)
    ensures CanLoad(data, x.areas, x.tabs, |s|, segs) && InPlace(n, y, data, segs)
    ensures |t| + Cost(x.tabs, Covered(segs, |segs|)) == |s|
  {
    SpentIs(x.tabs, |s|, Covered(segs, |segs|), y.tabs, |t|);
    AllInPlace(n, t, y, data, segs);
  }

  datatype LoadResult = Started(entry: nat) | Failed(error: ElfError)

  /** Reads the program header at index `i`. */
  method ReadSegment(data: seq<byte>, h: Header, i: nat) returns (s: Segment)
    requires ParseHeader(data) == Valid(h) && i < h.phnum
    ensures s == Segments(data, h)[i]
  {
    HeaderInside(data, h, i);
    s := SegmentAt(data, h.phoff + i * h.phentsize);
  }

  /** Loading stopped at one of the segments for reason `e`. */
  ghost predicate Stopped(data: seq<byte>, vs: seq<Vma>, tabs: Tabs, free: nat, segs: seq<Segment>, e: ElfError) {
    exists i: nat :: StopsAt(data, vs, tabs, free, segs, i, e)
  }

  /**
   * Loads every loadable segment, which succeeds exactly if it can. Then each of them reads as the file says, and what
   * the process could read before reads the same; other address spaces see nothing of it, whatever the outcome.
   */
  method Load(space: AddressSpace, alloc: Buddy, data: seq<byte>, h: Header) returns (r: LoadResult)
    requires space.MemoryOk(alloc, space.vmas) && Canonical(space.vmas) && UserAreas(space.vmas)
    requires ParseHeader(data) == Valid(h) && Loads(Segments(data, h), space.image)
    requires Tidy(space.walks, space.vmas, space.image)
    modifies space`vmas, space`walks, space`tabs, alloc, alloc.mem
    ensures space.MemoryOk(alloc, space.vmas) && Canonical(space.vmas) && UserAreas(space.vmas)
    ensures Confined(old(alloc.mem.cells), old(alloc.free), old(space.Here()), alloc.mem.cells, alloc.free,
                     space.Here())
    ensures r.Started? <==>
      CanLoad(data, old(space.vmas), old(space.tabs), |old(alloc.free)|, Segments(data, h))
    ensures r.Failed? ==>
      Stopped(data, old(space.vmas), old(space.tabs), |old(alloc.free)|, Segments(data, h), r.error)
    ensures r.Started? ==> r.entry == h.entry && InPlace(alloc.mem.cells, space.Here(), data, Segments(data, h))
    ensures r.Started? ==> ViewGrows(old(alloc.mem.cells), old(space.Here()), alloc.mem.cells, space.Here())
    ensures r.Started? ==>
      |alloc.free| + Cost(old(space.tabs), Covered(Segments(data, h), h.phnum)) == |old(alloc.free)|
    ensures Tidy(space.walks, space.vmas, space.image)
    ensures if r == Failed(PageMapFailed) then OneLost(old(alloc.free), old(space.Here()), alloc.free, space.Here())
            else Conserved(old(alloc.free), old(space.Here()), alloc.free, space.Here())
  {
    ghost var m, s, x, segs := alloc.mem.cells, alloc.free, space.Here(), Segments(data, h);
    LoadsInUserHalf(segs, space.image);
    var e := LoadSegments(space, alloc, data, h);
    if e.Some? {
      ghost var i: nat :| StopsAt(data, x.areas, x.tabs, |s|, segs, i, e.value);
      StopMeans(data, x.areas, x.tabs, |s|, segs, i, e.value, |segs|);
      return Failed(e.value);
    }
    LoadComplete(m, s, x, alloc.mem.cells, alloc.free, space.Here(), data, segs);
    return Started(h.entry);
  }

  /** The loop over the program headers. */
  method LoadSegments(space: AddressSpace, alloc: Buddy, data: seq<byte>, h: Header) returns (e: Option<ElfError>)
    requires space.MemoryOk(alloc, space.vmas) && Canonical(space.vmas) && UserAreas(space.vmas)
    requires ParseHeader(data) == Valid(h) && Loads(Segments(data, h), space.image)
    requires Tidy(space.walks, space.vmas, space.image)
    modifies space`vmas, space`walks, space`tabs, alloc, alloc.mem
    ensures space.MemoryOk(alloc, space.vmas) && Canonical(space.vmas) && UserAreas(space.vmas)
    ensures Tidy(space.walks, space.vmas, space.image)
    ensures Confined(old(alloc.mem.cells), old(alloc.free), old(space.Here()), alloc.mem.cells, alloc.free,
                     space.Here())
    ensures e.None? ==>
      LoadedUpTo(old(alloc.mem.cells), old(alloc.free), old(space.Here()), alloc.mem.cells, alloc.free, space.Here(),
                 data, Segments(data, h), |Segments(data, h)|)
    ensures e.Some? ==>
      Stopped(data, old(space.vmas), old(space.tabs), |old(alloc.free)|, Segments(data, h), e.value)
    ensures if e == Some(PageMapFailed) then OneLost(old(alloc.free), old(space.Here()), alloc.free, space.Here())
            else Conserved(old(alloc.free), old(space.Here()), alloc.free, space.Here())
  {
    ghost var m, t, x, segs := alloc.mem.cells, alloc.free, space.Here(), Segments(data, h);
    NoneLoaded(m, t, x, data, segs);
    var i := 0;
    while i != h.phnum
      invariant i <= h.phnum && space.MemoryOk(alloc, space.vmas) && Canonical(space.vmas) && UserAreas(space.vmas)
      invariant Tidy(space.walks, space.vmas, space.image)
      invariant LoadedUpTo(m, t, x, alloc.mem.cells, alloc.free, space.Here(), data, segs, i)
    {
      var next := i + 1;
      e := LoadNext(space, alloc, data, h, i, m, t, x, segs, next);
      if e.Some? { return; }
      i := next;
    }
    return None;
  }

  /** Loads segment `i`, if it is to be loaded. */
  method LoadNext(space: AddressSpace, alloc: Buddy, data: seq<byte>, h: Header, i: nat, ghost m: Mem,
                  ghost t: set<nat>, ghost x: Space, ghost segs: seq<Segment>, ghost next: nat)
    returns (e: Option<ElfError>)
    requires space.MemoryOk(alloc, space.vmas) && Canonical(space.vmas) && UserAreas(space.vmas)
    requires ParseHeader(data) == Valid(h) && segs == Segments(data, h) && Loads(segs, space.image)
    requires i < h.phnum && next == i + 1 && Tidy(space.walks, space.vmas, space.image)
    requires LoadedUpTo(m, t, x, alloc.mem.cells, alloc.free, space.Here(), data, segs, i)
    modifies space`vmas, space`walks, space`tabs, alloc, alloc.mem
    ensures space.MemoryOk(alloc, space.vmas) && Canonical(space.vmas) && UserAreas(space.vmas)
    ensures Tidy(space.walks, space.vmas, space.image)
    ensures e.None? ==> LoadedUpTo(m, t, x, alloc.mem.cells, alloc.free, space.Here(), data, segs, next)
    ensures e.Some? ==>
      && Confined(m, t, x, alloc.mem.cells, alloc.free, space.Here())
      && Stopped(data, x.areas, x.tabs, |t|, segs, e.value)
      && if e == Some(PageMapFailed) then OneLost(t, x, alloc.free, space.Here())
         else Conserved(t, x, alloc.free, space.Here())
  {
    ghost var n, u, y := alloc.mem.cells, alloc.free, space.Here();
    var s := ReadSegment(data, h, i);
    if !(s.kind == PT_LOAD && s.memsz > 0) {
      SegmentSkipped(m, t, x, n, u, y, data, segs, i, next);
      return None;
    }
    e := LoadSegment(space, alloc, data, s);
    if e.None? {
      SegmentDone(m, t, x, n, u, y, alloc.mem.cells, alloc.free, space.Here(), data, segs, i, next);
    } else {
      ConfinedTrans(m, t, x, n, u, y, alloc.mem.cells, alloc.free, space.Here());
      LossThen(t, x, u, y, alloc.free, space.Here(), e);
      SegmentStops(m, t, x, n, u, y, alloc.mem.cells, alloc.free, space.Here(), data, segs, i, e.value);
    }
  }
}
