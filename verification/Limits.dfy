/**
 * Inputs that the code accepts although they cost it a frame or reach memory that is not the caller's, as concrete runs
 * from an empty machine; the exact conditions are stated with the operations.
 */
module Limits {
  import opened PhysMem
  import opened BuddyAllocator
  import opened PageTable
  import opened Paging
  import opened PageMaps
  import opened VmaList
  import opened UserMemory
  import opened Isolation
  import opened Sweep
  import opened UpperHalf
  import opened UpperPages
  import opened Spaces = AddressSpace
  import Fork

  // ---------- Runs that lose a frame ----------

  const NO_IMAGE: Image := Image(0, 0)

  /** An address space with no areas and nothing but a root table, with `pages` pages free, all numbered up to `top`. */
  ghost predicate Blank(alloc: Buddy, space: AddressSpace, pages: nat, image: Image, top: nat)
    reads space, alloc, alloc.mem
  {
    && space.MemoryOk(alloc, []) && space.vmas == [] && |alloc.free| == pages && space.image == image
    && space.Here() == EmptySpace(space.pageTable.pml4)
    && UpTo(alloc.free, top) && space.pageTable.pml4 <= top
  }

  ghost predicate UpTo(s: set<nat>, top: nat) {
    forall f :: f in s ==> f <= top
  }

  /** Memory with `pages` free pages, the first of them page 1. */
  method SomeMemory(pages: nat) returns (alloc: Buddy)
    ensures fresh(alloc) && fresh(alloc.mem) && alloc.Valid() && |alloc.free| == pages && UpTo(alloc.free, pages)
  {
    var mem := new Memory();
    alloc := new Buddy(mem);
    RegionPages(pages);
    RangeSize(1, pages + 1);
    alloc.AddRegion(4096, 4096 * pages);
  }

  lemma RegionPages(pages: nat)
    ensures Range(AlignUpPage(4096), AlignDownPage(4096 + 4096 * pages)) == Range(1, pages + 1)
  {
    assert AlignUpPage(4096) == 1 && AlignDownPage(4096 + 4096 * pages) == pages + 1;
  }

  /** An empty address space, whose root table takes one of the free pages. */
  method BlankSpace(pages: nat, ghost image: Image) returns (alloc: Buddy, space: AddressSpace)
    ensures fresh(alloc) && fresh(alloc.mem) && fresh(space) && Blank(alloc, space, pages, image, pages + 1)
  {
    alloc := SomeMemory(pages + 1);
    ghost var s := alloc.free;
    var root := alloc.AllocPage();
    OneTaken(s, root.value);
    space := RootAt(alloc, root.value, image, pages + 1);
  }

  method RootAt(alloc: Buddy, root: nat, ghost image: Image, ghost top: nat) returns (space: AddressSpace)
    requires alloc.Valid() && root > 0 && root !in alloc.free && UpTo(alloc.free, top) && root <= top
    modifies alloc.mem
    ensures fresh(space) && Blank(alloc, space, |old(alloc.free)|, image, top)
  {
    alloc.StoreSafe(root, EMPTY_TABLE);
    alloc.mem.cells := alloc.mem.cells[root := EMPTY_TABLE];
    EmptyShows(alloc.mem.cells, root, alloc.free);
    var pt := new PageTableManager(alloc.mem, root);
    space := new AddressSpace(pt, EmptySpace(root).walks, EmptySpace(root).tabs, image);
  }

  /** In a blank space no page is mapped, and all three tables of every page are missing. */
  lemma BlankLacks(f: nat, k: nat)
    requires k < PAGES
    ensures Lacking(EmptySpace(f).tabs, k) == 3 && k in EmptySpace(f).walks && EmptySpace(f).walks[k] == Unmapped
  {
    assert IsPage(k);
  }

  lemma OneArea(ws: seq<Vma>, v: Vma)
    requires Canonical(ws) && Overlaid([], ws, v) && v.start < v.end
    ensures ws == [v]
  {
    forall a: nat ensures Lookup(ws, a) == Lookup([v], a) {
      assert [v][0] == v;
      if v.Contains(a) { LookupAt([v], 0, a); } else { LookupNone([v], a); }
    }
    CanonicalUnique(ws, [v]);
  }

  const PLAIN: Attr := Attr(VmaFlags(true, true, false), Anonymous)

  lemma ZoneIsFree(size: nat)
    requires MMAP_ZONE_START + size <= MMAP_ZONE_END
    ensures GapAt([], MMAP_ZONE_START, size)
  {
  }

  lemma LowestGap(size: nat, r: Option<nat>)
    requires 0 < size && MMAP_ZONE_START + size <= MMAP_ZONE_END && FirstGap([], size, r)
    ensures r == Some(MMAP_ZONE_START)
  {
    ZoneIsFree(size);
  }

  /** Page numbers and the addresses of their pages. */
  lemma PageAddresses(p: nat)
    ensures (4096 * p) / 4096 == p && (4096 * p) % 4096 == 0 && RoundUp(4096 * p) == 4096 * p
  {
  }

  /** An area of `count` pages from page `p` on. */
  function Area(p: nat, count: nat): Vma {
    Vma(4096 * p, 4096 * (p + count), PLAIN)
  }

  lemma AreaHas(p: nat, count: nat, k: nat)
    requires p <= k < p + count
    ensures Lookup([Area(p, count)], 4096 * k) == PageAttr([Area(p, count)], k) == Some(PLAIN)
  {
    assert [Area(p, count)][0].Contains(4096 * k);
    LookupAt([Area(p, count)], 0, 4096 * k);
  }

  lemma AreaIsUser(p: nat, count: nat)
    requires p + count <= USER_PAGES && count > 0
    ensures VmaList.Canonical([Area(p, count)]) && UserAreas([Area(p, count)])
  {
    PageAddresses(p);
    PageAddresses(p + count);
  }

  /** The first page of the mmap zone. */
  const FIRST: nat := 0x6_0000_0000

  /** Maps the first `count` pages of a blank space's zone. */
  method FirstMapping(alloc: Buddy, space: AddressSpace, count: nat, ghost pages: nat)
    requires Blank(alloc, space, pages, NO_IMAGE, pages + 1) && 0 < count <= 2
    modifies space`vmas
    ensures space.MemoryOk(alloc, space.vmas) && Tidy(space.walks, space.vmas, space.image)
    ensures space.vmas == [Area(FIRST, count)]
  {
    var size := 4096 * count;
    PageAddresses(count);
    var r := space.Mmap(alloc, 0, size, PLAIN);
    LowestGap(size, r);
    OneArea(space.vmas, Area(FIRST, count));
  }

  /** An address space with one area of `count` untouched pages, no tables, and `pages` pages free. */
  ghost predicate Untouched(alloc: Buddy, space: AddressSpace, count: nat, pages: nat)
    reads space, alloc, alloc.mem
  {
    && space.MemoryOk(alloc, space.vmas) && Tidy(space.walks, space.vmas, space.image) && space.image == NO_IMAGE
    && space.vmas == [Area(FIRST, count)] && |alloc.free| == pages
    && forall k: nat :: k < USER_PAGES ==> k in space.walks && space.walks[k] == Unmapped && Lacking(space.tabs, k) == 3
  }

  method UntouchedSpace(count: nat, pages: nat) returns (alloc: Buddy, space: AddressSpace)
    requires 0 < count <= 2
    ensures fresh(alloc) && fresh(alloc.mem) && fresh(space) && Untouched(alloc, space, count, pages)
  {
    alloc, space := BlankSpace(pages, NO_IMAGE);
    FirstMapping(alloc, space, count, pages);
    forall k: nat | k < USER_PAGES
      ensures k in space.walks && space.walks[k] == Unmapped && Lacking(space.tabs, k) == 3
    {
      BlankLacks(space.pageTable.pml4, k);
    }
  }

  /** The first fault there needs three tables beside the page. */
  method TouchFirst(alloc: Buddy, space: AddressSpace, k: nat, ghost count: nat, ghost pages: nat)
    returns (r: FaultResult)
    requires Untouched(alloc, space, count, pages) && FIRST <= k < FIRST + count <= FIRST + 2
    modifies space`walks, space`tabs, alloc, alloc.mem
    ensures space.MemoryOk(alloc, space.vmas) && Tidy(space.walks, space.vmas, space.image) && FaultDecided(r, pages, 3)
    ensures r == MapFailed ==> OneLost(old(alloc.free), old(space.Here()), alloc.free, space.Here()) && alloc.free == {}
    ensures r == Handled ==> k in space.walks && space.walks[k].Small?
  {
    PageOfPage(k);
    AreaIsUser(FIRST, count);
    AreaHas(FIRST, count, k);
    r := Touch(alloc, space, k, 4096 * k);
  }

  /** A fault on page `k`, which is not mapped. */
  method Touch(alloc: Buddy, space: AddressSpace, k: nat, a: nat) returns (r: FaultResult)
    requires space.MemoryOk(alloc, space.vmas) && VmaList.Canonical(space.vmas) && UserAreas(space.vmas)
    requires k < USER_PAGES && PageOf(a) == k && Lookup(space.vmas, a).Some?
    requires k in space.walks && space.walks[k] == Unmapped && Tidy(space.walks, space.vmas, space.image)
    modifies space`walks, space`tabs, alloc, alloc.mem
    ensures space.MemoryOk(alloc, space.vmas) && Tidy(space.walks, space.vmas, space.image)
    ensures FaultDecided(r, |old(alloc.free)|, Lacking(old(space.tabs), k))
    ensures r == MapFailed ==> OneLost(old(alloc.free), old(space.Here()), alloc.free, space.Here()) && alloc.free == {}
    ensures r == Handled ==> k in space.walks && space.walks[k].Small?
  {
    r := space.HandlePageFault(alloc, a);
  }

  /** A page fault with one free page and no tables takes the page, cannot map it, and loses it. */
  method FaultLosesFrame() returns (alloc: Buddy, space: AddressSpace, ghost s: set<nat>, ghost x: Space)
    ensures |s| == 1 && alloc.free == {}
    ensures OneLost(s, x, alloc.free, space.Here()) && !Conserved(s, x, alloc.free, space.Here())
  {
    alloc, space := UntouchedSpace(1, 1);
    s, x := alloc.free, space.Here();
    var r := TouchFirst(alloc, space, FIRST, 1, 1);
    LostNotConserved(s, x, alloc.free, space.Here());
  }

  /**
   * A first page unmapped and a second page touched: the frame of the second stays mapped under no area, and is lost.
   */
  lemma SecondPageLost(m: Mem, s: set<nat>, x: Space, n: Mem, t: set<nat>, y: Space, image: Image, p: nat, start: nat,
                       hi: nat)
    requires p + 2 <= USER_PAGES && x.areas == [Area(p, 2)] && p + 1 in x.walks && x.walks[p + 1].Small?
    requires start == 4096 * p && hi == p + 1 && Munmapped(m, s, x, n, t, y, image, start, hi)
    ensures !Conserved(s, x, t, y) && !Tidy(y.walks, y.areas, image)
  {
    AreaHas(p, 2, p + 1);
    PageAddresses(p);
    PageAddresses(p + 2);
    VisitedRange(p, p + 1, p + 1);
    assert UserFrame(x.walks, x.areas, p + 1).Some?;
    assert !NoneLeft(x.walks, x.areas, p, p + 1, p + 2);
  }

  /** Two pages are mapped, the second is touched, the first is unmapped: a frame is lost and a page stays mapped. */
  method MunmapLosesFrame() returns (alloc: Buddy, space: AddressSpace, ghost s: set<nat>, ghost x: Space)
    ensures !Conserved(s, x, alloc.free, space.Here()) && !Tidy(space.walks, space.vmas, space.image)
  {
    alloc, space := UntouchedSpace(2, 4);
    var r := TouchFirst(alloc, space, FIRST + 1, 2, 4);
    s, x := alloc.free, space.Here();
    UnmapFirst(alloc, space);
  }

  method UnmapFirst(alloc: Buddy, space: AddressSpace)
    requires space.MemoryOk(alloc, space.vmas) && Tidy(space.walks, space.vmas, space.image) && space.image == NO_IMAGE
    requires space.vmas == [Area(FIRST, 2)] && FIRST + 1 in space.walks && space.walks[FIRST + 1].Small?
    modifies space`vmas, space`walks, alloc, alloc.mem
    ensures !Conserved(old(alloc.free), old(space.Here()), alloc.free, space.Here())
    ensures !Tidy(space.walks, space.vmas, space.image)
  {
    ghost var m, s, x := alloc.mem.cells, alloc.free, space.Here();
    AreaIsUser(FIRST, 2);
    UserRange(m, s, x, NO_IMAGE, FIRST, FIRST + 1);
    UnmapPages(alloc, space, FIRST, 1, 4096 * FIRST, FIRST + 1);
    SecondPageLost(m, s, x, alloc.mem.cells, alloc.free, space.Here(), space.image, FIRST, 4096 * FIRST, FIRST + 1);
  }

  lemma RangeOfPages(p: nat, count: nat)
    ensures RoundUp(4096 * p) == 4096 * p && (4096 * p) / 4096 == p == BeginPage(4096 * p)
    ensures (RoundUp(4096 * p) + RoundUp(4096 * count)) / 4096 == p + count == EndPage(4096 * p, 4096 * count)
  {
  }

  /** Unmaps `count` pages from the start of the area at page `p` on. */
  method UnmapPages(alloc: Buddy, space: AddressSpace, p: nat, count: nat, ghost start: nat, ghost hi: nat)
    requires space.MemoryOk(alloc, space.vmas) && Tidy(space.walks, space.vmas, space.image)
    requires VmaList.Canonical(space.vmas) && UserAreas(space.vmas)
    requires |space.vmas| == 1 && space.vmas[0].start == 4096 * p
    requires Freeable(space.walks, space.tabs, space.vmas, alloc.free, p, hi) && start == 4096 * p && hi == p + count
    modifies space`vmas, space`walks, alloc, alloc.mem
    ensures Munmapped(old(alloc.mem.cells), old(alloc.free), old(space.Here()), alloc.mem.cells, alloc.free,
                      space.Here(), space.image, start, hi)
  {
    RangeOfPages(p, count);
    var addr, size := 4096 * p, 4096 * count;
    assert BeginPage(addr) == p && EndPage(addr, size) == hi && RoundUp(addr) == start;
    var ok := space.Munmap(alloc, addr, size);
  }

  // ---------- Ranges that reach into the kernel image ----------

  /** The only page of the image, and the only page of the area below it. */
  const IMAGE_PAGE: nat := 256
  const BELOW: nat := 255
  const PAST: nat := 257
  const IMAGE: Image := Image(IMAGE_PAGE, PAST)

  /** The page of the image is mapped to itself, nothing else is mapped, and `vs` are the areas. */
  ghost predicate ImageOnly(alloc: Buddy, space: AddressSpace, vs: seq<Vma>)
    reads space, alloc, alloc.mem
  {
    && space.MemoryOk(alloc, vs) && space.vmas == vs && space.image == IMAGE
    && space.walks == EmptySpace(space.pageTable.pml4).walks[IMAGE_PAGE := Small(IMAGE_PAGE, Fork.KERNEL_FLAGS)]
    && IMAGE_PAGE !in alloc.free && !IsTableFrame(space.tabs, IMAGE_PAGE)
  }

  lemma OnlyImageMapped(f: nat, k: nat)
    requires k < PAGES
    ensures var w := EmptySpace(f).walks[IMAGE_PAGE := Small(IMAGE_PAGE, Fork.KERNEL_FLAGS)];
      k in w && w[k] == if k == IMAGE_PAGE then Small(IMAGE_PAGE, Fork.KERNEL_FLAGS) else Unmapped
  {
    assert IsPage(k);
  }

  lemma TablesUpTo(tabs: Tabs, s: set<nat>, next: Tabs, t: set<nat>, top: nat, f: nat)
    requires Grown(tabs, s, next, t) && UpTo(s, top) && f > top && forall q :: q in tabs ==> tabs[q] <= top
    ensures !IsTableFrame(next, f)
  {
    forall q | q in next ensures next[q] != f { assert q in tabs ==> next[q] == tabs[q]; }
  }

  /** A blank space in which the image is mapped. */
  method ImageSpace() returns (alloc: Buddy, space: AddressSpace)
    ensures fresh(alloc) && fresh(alloc.mem) && fresh(space) && ImageOnly(alloc, space, [])
  {
    alloc, space := BlankSpace(16, IMAGE);
    MapImage(alloc, space);
  }

  lemma NothingToBack(m: Mem, walks: Walks, tabs: Tabs, free: set<nat>)
    ensures Backed(m, walks, tabs, [], free)
  {
    forall k: nat ensures UserFrame(walks, [], k).None? {}
  }

  method MapImage(alloc: Buddy, space: AddressSpace)
    requires Blank(alloc, space, 16, IMAGE, 17)
    modifies space`walks, space`tabs, alloc, alloc.mem
    ensures ImageOnly(alloc, space, [])
  {
    ghost var s, tabs := alloc.free, space.tabs;
    BlankLacks(space.pageTable.pml4, IMAGE_PAGE);
    var ok := space.MapPage(alloc, IMAGE_PAGE, IMAGE_PAGE, Fork.KERNEL_FLAGS);
    TablesUpTo(tabs, s, space.tabs, alloc.free, 17, IMAGE_PAGE);
    NothingToBack(alloc.mem.cells, space.walks, space.tabs, alloc.free);
  }

  lemma ImageTidy(f: nat)
    ensures Tidy(EmptySpace(f).walks[IMAGE_PAGE := Small(IMAGE_PAGE, Fork.KERNEL_FLAGS)], [], IMAGE)
  {
    forall k: nat | k < USER_PAGES && !IMAGE.Has(k)
      ensures var w := EmptySpace(f).walks[IMAGE_PAGE := Small(IMAGE_PAGE, Fork.KERNEL_FLAGS)];
        k in w && w[k] == Unmapped
    {
      OnlyImageMapped(f, k);
    }
  }

  /** An area of one page right below the image. */
  method AreaBelow(alloc: Buddy, space: AddressSpace)
    requires ImageOnly(alloc, space, [])
    modifies space`vmas
    ensures ImageOnly(alloc, space, [Area(BELOW, 1)]) && Tidy(space.walks, space.vmas, space.image)
  {
    ImageTidy(space.pageTable.pml4);
    MapArea(alloc, space, BELOW, 1);
  }

  /** Maps `count` pages from page `p` on in a space without areas. */
  method MapArea(alloc: Buddy, space: AddressSpace, p: nat, count: nat)
    requires space.MemoryOk(alloc, []) && space.vmas == [] && Tidy(space.walks, [], space.image) && 0 < p && 0 < count
    requires p + count <= USER_PAGES && space.image.Avoids(p, p + count)
    requires space.image.Avoids(MMAP_ZONE_START / 4096, MMAP_ZONE_END / 4096)
    modifies space`vmas
    ensures space.MemoryOk(alloc, space.vmas) && Tidy(space.walks, space.vmas, space.image)
    ensures space.vmas == [Area(p, count)]
  {
    RangeOfPages(p, count);
    PageAddresses(count);
    var r := space.Mmap(alloc, 4096 * p, 4096 * count, PLAIN);
    OneArea(space.vmas, Area(p, count));
  }

  /** Both pages of the range may be unmapped; the second is the kernel's. */
  lemma ImageFreeable(x: Space, s: set<nat>)
    requires x.walks == EmptySpace(x.root).walks[IMAGE_PAGE := Small(IMAGE_PAGE, Fork.KERNEL_FLAGS)]
    requires x.areas == [Area(BELOW, 1)] && IMAGE_PAGE !in s && !IsTableFrame(x.tabs, IMAGE_PAGE)
    ensures Freeable(x.walks, x.tabs, x.areas, s, BELOW, PAST)
    ensures !NoneForeign(x.walks, x.areas, BELOW, PAST)
  {
    assert !x.areas[0].Contains(4096 * IMAGE_PAGE);
    LookupNone(x.areas, 4096 * IMAGE_PAGE);
    forall k: nat ensures Visited(BELOW, PAST, k) <==> k == BELOW || k == IMAGE_PAGE {
      VisitedRange(BELOW, PAST, k);
    }
    OnlyImageMapped(x.root, BELOW);
    OnlyImageMapped(x.root, IMAGE_PAGE);
    forall j: nat | j != IMAGE_PAGE ensures UserFrame(x.walks, x.areas, j).None? {
      if j < PAGES { OnlyImageMapped(x.root, j); }
    }
    assert Foreign(x.walks, x.areas, IMAGE_PAGE);
  }

  /**
   * An area right below the kernel image is unmapped with a size that reaches over it: a page of the kernel becomes
   * free for anyone, though no touched page lies past the range.
   */
  method MunmapReachesImage() returns (alloc: Buddy, space: AddressSpace, ghost m: Mem, ghost s: set<nat>,
                                       ghost x: Space)
    ensures IMAGE_PAGE in alloc.free && Tidy(space.walks, space.vmas, space.image)
    ensures !Confined(m, s, x, alloc.mem.cells, alloc.free, space.Here())
    ensures !Conserved(s, x, alloc.free, space.Here())
  {
    alloc, space := ImageSpace();
    AreaBelow(alloc, space);
    m, s, x := alloc.mem.cells, alloc.free, space.Here();
    UnmapBelow(alloc, space);
  }

  method UnmapBelow(alloc: Buddy, space: AddressSpace)
    requires ImageOnly(alloc, space, [Area(BELOW, 1)]) && Tidy(space.walks, space.vmas, space.image)
    modifies space`vmas, space`walks, alloc, alloc.mem
    ensures IMAGE_PAGE in alloc.free && Tidy(space.walks, space.vmas, space.image)
    ensures !Confined(old(alloc.mem.cells), old(alloc.free), old(space.Here()), alloc.mem.cells, alloc.free,
                      space.Here())
    ensures !Conserved(old(alloc.free), old(space.Here()), alloc.free, space.Here())
  {
    ghost var m, s, x := alloc.mem.cells, alloc.free, space.Here();
    AreaIsUser(BELOW, 1);
    ImageFreeable(x, s);
    UnmapPages(alloc, space, BELOW, 2, 4096 * BELOW, PAST);
    ImageFreed(m, s, x, alloc.mem.cells, alloc.free, space.Here());
  }

  lemma ImageFreed(m: Mem, s: set<nat>, x: Space, n: Mem, t: set<nat>, y: Space)
    requires x.walks == EmptySpace(x.root).walks[IMAGE_PAGE := Small(IMAGE_PAGE, Fork.KERNEL_FLAGS)]
    requires x.areas == [Area(BELOW, 1)] && IMAGE_PAGE !in s && !IsTableFrame(x.tabs, IMAGE_PAGE)
    requires Munmapped(m, s, x, n, t, y, IMAGE, 4096 * BELOW, PAST)
    ensures IMAGE_PAGE in t && Tidy(y.walks, y.areas, IMAGE) && !Confined(m, s, x, n, t, y) && !Conserved(s, x, t, y)
  {
    ImageFreeable(x, s);
    OnlyImageMapped(x.root, IMAGE_PAGE);
    VisitedRange(BELOW, PAST, BELOW);
    VisitedRange(BELOW, PAST, IMAGE_PAGE);
    assert FrameAt(x.walks, IMAGE_PAGE) == Some(IMAGE_PAGE);
    assert Reached(x.walks, BELOW, PAST, IMAGE_PAGE);
    assert NoneLeft(x.walks, x.areas, BELOW, PAST, IMAGE_PAGE);
  }

  // ---------- Pages of the upper half ----------

  /**
   * What a page fault does in an area of the upper half, and the loader for a segment there: a zeroed page is taken and
   * mapped.
   */
  method GiveAbove(alloc: Buddy, space: AddressSpace, k: nat, flags: Flags) returns (f: nat, ghost m1: Mem)
    requires space.MemoryOk(alloc, space.vmas) && USER_PAGES <= k < PAGES && space.walks[k] == Unmapped
    requires |alloc.free| > Lacking(space.tabs, k)
    modifies space`walks, space`tabs, alloc, alloc.mem
    ensures space.MemoryOk(alloc, space.vmas) && f in old(alloc.free)
    ensures SameExcept(old(alloc.mem.cells), m1, old(alloc.free))
    ensures PageMapped(m1, old(alloc.free) - {f}, old(space.Here()), alloc.mem.cells, alloc.free, space.Here(), k,
                       Small(f, flags))
    ensures Sub(Root, A(k)) !in old(space.tabs) <==>
      Confined(old(alloc.mem.cells), old(alloc.free), old(space.Here()), alloc.mem.cells, alloc.free, space.Here())
    ensures !Conserved(old(alloc.free), old(space.Here()), alloc.free, space.Here())
    ensures |alloc.free| + 1 + Lacking(old(space.tabs), k) == |old(alloc.free)|
  {
    ghost var m, s, x := alloc.mem.cells, alloc.free, space.Here();
    alloc.ZeroNotFree();
    var page := space.TakePage(alloc, ZEROES);
    f := page.value;
    m1 := alloc.mem.cells;
    OneTaken(s, f);
    MapAbove(alloc, space, k, f, flags);
    MapConfined(m, s, m1, s - {f}, alloc.mem.cells, alloc.free, x, space.Here(), k, Small(f, flags));
    GiveConserves(m, s, m1, f, alloc.mem.cells, alloc.free, x, space.Here(), k, flags);
    UpperSound(m, s, m1, s - {f}, alloc.mem.cells, alloc.free, x, space.Here(), k, Small(f, flags));
  }

  /** Maps page `k` of the upper half to `f`, with as many free pages as tables are missing. */
  method MapAbove(alloc: Buddy, space: AddressSpace, k: nat, f: nat, flags: Flags)
    requires alloc.mem == space.pageTable.mem && alloc.Valid() && k < PAGES
    requires Shows(alloc.mem.cells, space.pageTable.pml4, space.walks, space.tabs, alloc.free)
    requires |alloc.free| >= Lacking(space.tabs, k) && space.walks[k] == Unmapped
    modifies space`walks, space`tabs, alloc, alloc.mem
    ensures alloc.Valid() && |alloc.free| + Lacking(old(space.tabs), k) == |old(alloc.free)|
    ensures PageMapped(old(alloc.mem.cells), old(alloc.free), old(space.Here()), alloc.mem.cells, alloc.free,
                       space.Here(), k, Small(f, flags))
  {
    ghost var m, s, root := alloc.mem.cells, alloc.free, space.pageTable.pml4;
    PageOfPage(k);
    ShownTables(m, root, space.walks, space.tabs, s);
    LackingIsMissing(m, root, space.walks, space.tabs, s, k);
    assert WalkPage(m, root, k) == space.walks[k];
    var ok := space.pageTable.Map4K(alloc, k * 4096, f, flags);
    space.walks := space.walks[k := Small(f, flags)];
    space.tabs := TabsOf(alloc.mem.cells, root);
  }

  /** The first page of the upper half, in a space without tables: the step is confined, but what it took is lost. */
  method UpperPageLost() returns (alloc: Buddy, space: AddressSpace, ghost m: Mem, ghost s: set<nat>, ghost x: Space)
    ensures Confined(m, s, x, alloc.mem.cells, alloc.free, space.Here()) && |s| == 4 && alloc.free == {}
    ensures !Conserved(s, x, alloc.free, space.Here())
  {
    alloc, space := BlankSpace(4, NO_IMAGE);
    m, s, x := alloc.mem.cells, alloc.free, space.Here();
    BlankLacks(space.pageTable.pml4, USER_PAGES);
    ghost var m1: Mem;
    var f: nat;
    f, m1 := GiveAbove(alloc, space, USER_PAGES, Fork.KERNEL_FLAGS);
  }

  /** The second page of the upper half has the tables of the first. */
  const SECOND: nat := USER_PAGES + 1

  lemma SameTables()
    ensures SECOND < PAGES && A(SECOND) == A(USER_PAGES) && PdOf(SECOND) == PdOf(USER_PAGES)
    ensures PtOf(SECOND) == PtOf(USER_PAGES) && A(USER_PAGES) >= 256
  {
  }

  /** A user address space takes over the kernel's upper half, tables and all. */
  lemma UpperTaken(f: nat, kernel: Space)
    requires Sub(Root, A(USER_PAGES)) in kernel.tabs && PdOf(USER_PAGES) in kernel.tabs
    requires PtOf(USER_PAGES) in kernel.tabs
    requires SECOND in kernel.walks && kernel.walks[SECOND] == Unmapped
    ensures var x := NewSpace(f, kernel);
      && Lacking(x.tabs, SECOND) == 0 && SECOND in x.walks && x.walks[SECOND] == Unmapped
      && Sub(Root, A(SECOND)) in x.tabs && x.tabs[Sub(Root, A(SECOND))] == kernel.tabs[Sub(Root, A(SECOND))]
  {
    SameTables();
    UpperWay(SECOND);
  }

  /** A kernel with one page in the upper half, and a user address space that shares it. */
  method SharedUpper() returns (alloc: Buddy, kernel: AddressSpace, user: AddressSpace)
    ensures fresh(alloc) && fresh(alloc.mem) && fresh(kernel) && fresh(user) && user != kernel
    ensures kernel.MemoryOk(alloc, []) && user.MemoryOk(alloc, []) && kernel.vmas == user.vmas == [] && alloc.free != {}
    ensures user.Here() == NewSpace(user.pageTable.pml4, kernel.Here()) && ApartFrom(kernel.Here(), user.Here())
    ensures Sub(Root, A(USER_PAGES)) in kernel.tabs && PdOf(USER_PAGES) in kernel.tabs
    ensures PtOf(USER_PAGES) in kernel.tabs && SECOND in kernel.walks && kernel.walks[SECOND] == Unmapped
  {
    alloc, kernel := BlankSpace(6, NO_IMAGE);
    FirstAbove(alloc, kernel);
    user := UserOf(alloc, kernel);
  }

  method FirstAbove(alloc: Buddy, kernel: AddressSpace)
    requires Blank(alloc, kernel, 6, NO_IMAGE, 7)
    modifies kernel`walks, kernel`tabs, alloc, alloc.mem
    ensures kernel.MemoryOk(alloc, []) && |alloc.free| == 2
    ensures Sub(Root, A(USER_PAGES)) in kernel.tabs && PdOf(USER_PAGES) in kernel.tabs
    ensures PtOf(USER_PAGES) in kernel.tabs && SECOND in kernel.walks && kernel.walks[SECOND] == Unmapped
  {
    BlankLacks(kernel.pageTable.pml4, USER_PAGES);
    BlankLacks(kernel.pageTable.pml4, SECOND);
    ghost var m1: Mem;
    var f: nat;
    f, m1 := GiveAbove(alloc, kernel, USER_PAGES, Fork.KERNEL_FLAGS);
    assert WalkPage(alloc.mem.cells, kernel.pageTable.pml4, USER_PAGES) == Small(f, Fork.KERNEL_FLAGS);
    WayComplete(alloc.mem.cells, kernel.pageTable.pml4, USER_PAGES);
  }

  lemma OneOfTwo(s: set<nat>, t: set<nat>, r: nat)
    requires |s| == 2 && forall f :: f in s <==> f in t || f == r
    ensures t != {}
  {
    assert t == {} ==> s == {r};
  }

  method UserOf(alloc: Buddy, kernel: AddressSpace) returns (user: AddressSpace)
    requires kernel.MemoryOk(alloc, []) && kernel.vmas == [] && |alloc.free| == 2
    modifies alloc, alloc.mem
    ensures fresh(user) && kernel.MemoryOk(alloc, []) && user.MemoryOk(alloc, []) && user.vmas == []
    ensures user.Here() == NewSpace(user.pageTable.pml4, kernel.Here()) && ApartFrom(kernel.Here(), user.Here())
    ensures alloc.free != {}
  {
    ghost var m, s, z := alloc.mem.cells, alloc.free, kernel.Here();
    var pt: Option<PageTableManager>;
    ghost var x: Space;
    pt, x := NewUser(alloc, kernel.pageTable.pml4, z);
    BuiltApart(m, s, z, alloc.mem.cells, alloc.free, x, z);
    user := new AddressSpace(pt.value, x.walks, x.tabs, NO_IMAGE);
    OwnsRootOnly(x.root, z);
    OneOfTwo(s, alloc.free, x.root);
  }

  /** A page that a user address space maps above appears in the kernel's address space, which made no step. */
  method UpperPageShared() returns (alloc: Buddy, kernel: AddressSpace, user: AddressSpace, ghost m: Mem,
                                    ghost s: set<nat>, ghost x: Space)
    ensures !Confined(m, s, x, alloc.mem.cells, alloc.free, user.Here())
    ensures WalkPage(m, kernel.pageTable.pml4, SECOND) == Unmapped
    ensures WalkPage(alloc.mem.cells, kernel.pageTable.pml4, SECOND).Small?
  {
    alloc, kernel, user := SharedUpper();
    m, s, x := alloc.mem.cells, alloc.free, user.Here();
    ghost var z := kernel.Here();
    UpperTaken(x.root, z);
    SameTables();
    ghost var m1: Mem;
    var f: nat;
    f, m1 := GiveAbove(alloc, user, SECOND, Flags(true, true, true));
    UpperPageSeen(m, s, m1, s - {f}, alloc.mem.cells, alloc.free, x, user.Here(), SECOND,
                  Small(f, Flags(true, true, true)), z);
  }

  // ---------- Areas over the kernel image ----------

  /** The pages of the image are mapped, for the kernel only. */
  ghost predicate ImageMapped(walks: Walks, image: Image) {
    forall k: nat :: image.Has(k) && k < USER_PAGES ==> k in walks && walks[k].Small? && !walks[k].perms.user
  }

  /** A new area over unmapped pages leaves the address space sound if and only if it keeps off the kernel image. */
  lemma AreaMustAvoidImage(m: Mem, s: set<nat>, x: Space, y: Space, v: Vma, image: Image)
    requires SpaceOk(m, s, x) && Tidy(x.walks, x.areas, image) && ImageMapped(x.walks, image) && UserArea(v)
    requires v.start < v.end
    requires Vacant(x.areas, v.start, v.end) && y == x.(areas := y.areas) && Overlaid(x.areas, y.areas, v)
    ensures SpaceOk(m, s, y) <==> image.Avoids(v.start / 4096, v.end / 4096)
  {
    var lo, hi := v.start / 4096, v.end / 4096;
    if image.Avoids(lo, hi) {
      AreaMapped(m, s, x, y, v, image);
    } else {
      var k := if lo < image.first then image.first else lo;
      WholePages(v.start);
      WholePages(v.end);
      NewAreaPages(x.areas, y.areas, v);
      assert lo <= k < hi && image.Has(k) && PageAttr(y.areas, k) == Some(v.attr);
      assert !RightPerms(y.walks, y.areas, k);
    }
  }
}
