/**
 * The page loop of `munmap`, which unmaps and frees whatever is mapped in its range: when that stays confined to the
 * address space, and when it loses frames.
 */
module Sweep {
  import opened PhysMem
  import opened BuddyAllocator
  import opened PageTable
  import opened PageMaps
  import opened VmaList
  import opened UserMemory
  import opened Isolation

  /** The frame that page `k` maps to, whoever the page belongs to. */
  ghost function FrameAt(walks: Walks, k: nat): Option<nat> {
    if k in walks && walks[k].Small? then Some(walks[k].frame) else None
  }

  /** Page `k` is mapped, but not for an area: it belongs to the kernel image or to the upper half. */
  ghost predicate Foreign(walks: Walks, vs: seq<Vma>, k: nat) {
    FrameAt(walks, k).Some? && UserFrame(walks, vs, k).None?
  }

  /** The tables look at 36 bits of a page number. */
  function Around(j: nat): nat { j % PAGES }

  /** A loop over the page numbers from `lo` to `hi` comes to page `k`. */
  ghost predicate Visited(lo: nat, hi: nat, k: nat) {
    exists j: nat :: lo <= j < hi && Around(j) == k
  }

  lemma VisitedRange(lo: nat, hi: nat, k: nat)
    requires hi <= PAGES
    ensures Visited(lo, hi, k) <==> lo <= k < hi
  {
    if lo <= k < hi { assert Around(k) == k; }
  }

  lemma VisitedNext(lo: nat, page: nat, k: nat)
    requires lo <= page
    ensures Visited(lo, page + 1, k) <==> Visited(lo, page, k) || k == Around(page)
  {
  }

  lemma VisitedBelow(lo: nat, page: nat, hi: nat, k: nat)
    requires lo <= page <= hi && Visited(lo, page, k)
    ensures Visited(lo, hi, k)
  {
    var j: nat :| lo <= j < page && Around(j) == k;
    assert lo <= j < hi && Around(j) == k;
  }

  /** One of the visited pages maps to frame `f`. */
  ghost predicate Reached(walks: Walks, lo: nat, hi: nat, f: nat) {
    exists k: nat :: Visited(lo, hi, k) && FrameAt(walks, k) == Some(f)
  }

  /** No other visited page, and no other area page, maps to the frame of page `k`. */
  ghost predicate Alone(walks: Walks, vs: seq<Vma>, lo: nat, hi: nat, k: nat) {
    forall j: nat :: FrameAt(walks, j) == FrameAt(walks, k) && (Visited(lo, hi, j) || UserFrame(walks, vs, j).Some?) ==>
      j == k
  }

  /** Page `k` lies in no 2 MB page, and its frame, if any, is one that may be freed: outstanding, no table, its own. */
  ghost predicate Loose(walks: Walks, tabs: Tabs, vs: seq<Vma>, s: set<nat>, lo: nat, hi: nat, k: nat) {
    && k in walks && !walks[k].Huge?
    && (FrameAt(walks, k).Some? ==>
          var f := FrameAt(walks, k).value;
          f > 0 && f !in s && !IsTableFrame(tabs, f) && Alone(walks, vs, lo, hi, k))
  }

  /** What `unmap` and `free` ask of the pages that the loop visits. */
  ghost predicate Freeable(walks: Walks, tabs: Tabs, vs: seq<Vma>, s: set<nat>, lo: nat, hi: nat) {
    forall k: nat :: Visited(lo, hi, k) ==> Loose(walks, tabs, vs, s, lo, hi, k)
  }

  /** No visited page is mapped for anyone but an area. */
  ghost predicate NoneForeign(walks: Walks, vs: seq<Vma>, lo: nat, hi: nat) {
    forall k: nat :: Visited(lo, hi, k) ==> !Foreign(walks, vs, k)
  }

  /** No page from `lo` to `end` that the loop does not visit has been touched. */
  ghost predicate NoneLeft(walks: Walks, vs: seq<Vma>, lo: nat, hi: nat, end: nat) {
    forall k: nat :: lo <= k < end && !Visited(lo, hi, k) ==> UserFrame(walks, vs, k).None?
  }

  /** Where nothing foreign is mapped, soundness gives what is asked. */
  lemma OwnFreeable(m: Mem, s: set<nat>, x: Space, lo: nat, hi: nat)
    requires SpaceOk(m, s, x) && NoneForeign(x.walks, x.areas, lo, hi)
    requires forall k: nat :: Visited(lo, hi, k) ==> k in x.walks && !x.walks[k].Huge?
    ensures Freeable(x.walks, x.tabs, x.areas, s, lo, hi)
  {
    forall k: nat | Visited(lo, hi, k) ensures Loose(x.walks, x.tabs, x.areas, s, lo, hi, k) {
      assert !Foreign(x.walks, x.areas, k);
      if FrameAt(x.walks, k).Some? {
        assert GoodFrame(m, x.tabs, s, UserFrame(x.walks, x.areas, k).value);
        forall j: nat | FrameAt(x.walks, j) == FrameAt(x.walks, k) &&
                        (Visited(lo, hi, j) || UserFrame(x.walks, x.areas, j).Some?)
          ensures j == k
        {
          assert Visited(lo, hi, j) ==> !Foreign(x.walks, x.areas, j);
        }
      }
    }
  }

  /** So it is in the user half off the kernel image, when nothing stale is mapped. */
  lemma UserRange(m: Mem, s: set<nat>, x: Space, image: Image, lo: nat, hi: nat)
    requires SpaceOk(m, s, x) && Tidy(x.walks, x.areas, image) && hi <= USER_PAGES && image.Avoids(lo, hi)
    ensures NoneForeign(x.walks, x.areas, lo, hi) && Freeable(x.walks, x.tabs, x.areas, s, lo, hi)
  {
    forall k: nat | Visited(lo, hi, k) ensures !Foreign(x.walks, x.areas, k) && k in x.walks && !x.walks[k].Huge? {
      VisitedRange(lo, hi, k);
      assert PageAttr(x.areas, k).None? ==> x.walks[k] == Unmapped;
    }
    OwnFreeable(m, s, x, lo, hi);
  }

  // ---------- The loop ----------

  /**
   * The visited pages are unmapped, exactly their frames are freed, and tables of the upper half are written only for
   * pages there.
   */
  ghost predicate Swept(m: Mem, s: set<nat>, w: Walks, n: Mem, t: set<nat>, y: Walks, tabs: Tabs, lo: nat, hi: nat) {
    && Unvisited(w, y, lo, hi)
    && (forall f: nat :: f in t <==> f in s || Reached(w, lo, hi, f))
    && TablesWritten(m, n, tabs, t)
    && (NothingAbove(w, lo, hi) ==> WrittenOnly(m, n, tabs, t))
  }

  ghost predicate Unvisited(w: Walks, y: Walks, lo: nat, hi: nat) {
    forall k: nat :: (k in y <==> k in w) && (k in w ==> y[k] == if Visited(lo, hi, k) then Unmapped else w[k])
  }

  /** No visited page of the upper half is mapped. */
  ghost predicate NothingAbove(w: Walks, lo: nat, hi: nat) {
    forall k: nat :: Visited(lo, hi, k) && k >= USER_PAGES ==> FrameAt(w, k).None?
  }

  lemma SweptNothing(m: Mem, s: set<nat>, w: Walks, tabs: Tabs, lo: nat)
    ensures Swept(m, s, w, m, s, w, tabs, lo, lo)
  {
  }

  /** One page unmapped and its frame freed. */
  ghost predicate SweptOne(n: Mem, t: set<nat>, y: Walks, o: Mem, u: set<nat>, z: Walks, tabs: Tabs, k: nat) {
    && k in y && z == y[k := Unmapped] && u == (match FrameAt(y, k) case None => t case Some(f) => t + {f})
    && TablesWritten(n, o, tabs, u) && (k < USER_PAGES || FrameAt(y, k).None? ==> WrittenOnly(n, o, tabs, u))
  }

  lemma ReachedNext(w: Walks, lo: nat, page: nat, f: nat)
    requires lo <= page
    ensures Reached(w, lo, page + 1, f) <==> Reached(w, lo, page, f) || FrameAt(w, Around(page)) == Some(f)
  {
    forall k: nat ensures Visited(lo, page + 1, k) <==> Visited(lo, page, k) || k == Around(page) {
      VisitedNext(lo, page, k);
    }
  }

  /** Until it is visited, a page maps to what it mapped to. */
  lemma StillThere(w: Walks, y: Walks, lo: nat, page: nat)
    requires Unvisited(w, y, lo, page)
    ensures FrameAt(y, Around(page)) == if Visited(lo, page, Around(page)) then None else FrameAt(w, Around(page))
  {
  }

  lemma SweepMore(m: Mem, s: set<nat>, w: Walks, n: Mem, t: set<nat>, y: Walks, o: Mem, u: set<nat>, z: Walks,
                  tabs: Tabs, lo: nat, page: nat)
    requires Swept(m, s, w, n, t, y, tabs, lo, page) && SweptOne(n, t, y, o, u, z, tabs, Around(page)) && lo <= page
    ensures Swept(m, s, w, o, u, z, tabs, lo, page + 1)
  {
    var k := Around(page);
    StillThere(w, y, lo, page);
    forall j: nat ensures Visited(lo, page + 1, j) <==> Visited(lo, page, j) || j == k { VisitedNext(lo, page, j); }
    forall f: nat ensures f in u <==> f in s || Reached(w, lo, page + 1, f) {
      ReachedNext(w, lo, page, f);
      assert Visited(lo, page, k) && FrameAt(w, k) == Some(f) ==> Reached(w, lo, page, f);
    }
  }

  /** The frame that the loop is about to free may be freed. */
  lemma NextLoose(m: Mem, s: set<nat>, w: Walks, n: Mem, t: set<nat>, y: Walks, tabs: Tabs, vs: seq<Vma>, lo: nat,
                  page: nat, hi: nat)
    requires Swept(m, s, w, n, t, y, tabs, lo, page) && Freeable(w, tabs, vs, s, lo, hi) && lo <= page < hi
    ensures var k := Around(page);
      && k in y && !y[k].Huge?
      && (FrameAt(y, k).Some? ==> var f := FrameAt(y, k).value; f > 0 && f !in t && !IsTableFrame(tabs, f))
  {
    var k := Around(page);
    assert Visited(lo, hi, k);
    assert Loose(w, tabs, vs, s, lo, hi, k);
    StillThere(w, y, lo, page);
    if FrameAt(y, k).Some? {
      var f := FrameAt(y, k).value;
      forall j: nat | Visited(lo, page, j) ensures FrameAt(w, j) != Some(f) { VisitedBelow(lo, page, hi, j); }
    }
  }

  /** Area pages that are still to come keep frames of their own. */
  lemma StillBackedAfter(m: Mem, s: set<nat>, w: Walks, n: Mem, t: set<nat>, y: Walks, o: Mem, u: set<nat>, z: Walks,
                         tabs: Tabs, vs: seq<Vma>, lo: nat, page: nat, hi: nat)
    requires Swept(m, s, w, n, t, y, tabs, lo, page) && Freeable(w, tabs, vs, s, lo, hi) && lo <= page < hi
    requires SweptOne(n, t, y, o, u, z, tabs, Around(page)) && Backed(n, y, tabs, vs, t)
    ensures Backed(o, z, tabs, vs, u)
  {
    var k := Around(page);
    assert Visited(lo, hi, k);
    assert Loose(w, tabs, vs, s, lo, hi, k);
    StillThere(w, y, lo, page);
    forall j: nat ensures UserFrame(z, vs, j) == if j == k then None else UserFrame(y, vs, j) {}
    forall j: nat | UserFrame(z, vs, j).Some? ensures GoodFrame(o, tabs, u, UserFrame(z, vs, j).value) {
      var g := UserFrame(z, vs, j).value;
      assert GoodFrame(n, tabs, t, g);
      assert UserFrame(w, vs, j) == Some(g) && FrameAt(w, j) == Some(g);
      assert FrameAt(y, k) != Some(g);
    }
    forall j: nat ensures RightPerms(z, vs, j) { assert RightPerms(y, vs, j); }
  }

  // ---------- What it means ----------

  /**
   * `y` is `x` without the area of the pages from `lo` to `end`, after the pages that a loop from `lo` to `hi` visits
   * were unmapped and freed.
   */
  ghost predicate Unmapping(m: Mem, s: set<nat>, x: Space, n: Mem, t: set<nat>, y: Space, lo: nat, hi: nat, end: nat) {
    && Swept(m, s, x.walks, n, t, y.walks, x.tabs, lo, hi) && Freeable(x.walks, x.tabs, x.areas, s, lo, hi)
    && y.tabs == x.tabs && end <= USER_PAGES
    && (forall k: nat :: PageAttr(y.areas, k) == if lo <= k < end then None else PageAttr(x.areas, k))
    && (forall k: nat :: lo <= k < end ==> PageAttr(x.areas, k).Some?)
  }

  lemma UnmappedFrames(m: Mem, s: set<nat>, x: Space, n: Mem, t: set<nat>, y: Space, lo: nat, hi: nat, end: nat)
    requires Unmapping(m, s, x, n, t, y, lo, hi, end)
    ensures forall k: nat ::
      UserFrame(y.walks, y.areas, k) ==
      if Visited(lo, hi, k) || lo <= k < end then None else UserFrame(x.walks, x.areas, k)
  {
  }

  lemma NoOwnTable(tabs: Tabs, f: nat)
    requires !IsTableFrame(tabs, f)
    ensures !IsOwnTable(tabs, f)
  {
    forall q | q in tabs ensures tabs[q] != f { assert tabs[q] == f ==> IsTableFrame(tabs, f); }
  }

  /** The frame of an area page that is not visited is not freed. */
  lemma NotReached(x: Space, s: set<nat>, lo: nat, hi: nat, k: nat)
    requires Freeable(x.walks, x.tabs, x.areas, s, lo, hi) && !Visited(lo, hi, k)
    requires UserFrame(x.walks, x.areas, k).Some?
    ensures !Reached(x.walks, lo, hi, UserFrame(x.walks, x.areas, k).value)
  {
    assert FrameAt(x.walks, k) == UserFrame(x.walks, x.areas, k);
    forall j: nat | Visited(lo, hi, j) ensures FrameAt(x.walks, j) != FrameAt(x.walks, k) {
      assert Loose(x.walks, x.tabs, x.areas, s, lo, hi, j);
    }
  }

  /** A foreign page's frame was neither free nor owned, and is free now. */
  lemma ForeignFreed(m: Mem, s: set<nat>, x: Space, n: Mem, t: set<nat>, y: Space, lo: nat, hi: nat, end: nat, k: nat)
    requires Unmapping(m, s, x, n, t, y, lo, hi, end) && Visited(lo, hi, k) && Foreign(x.walks, x.areas, k)
    ensures var f := FrameAt(x.walks, k).value; f !in s && !Owns(x, f) && f in t
  {
    var f := FrameAt(x.walks, k).value;
    assert Loose(x.walks, x.tabs, x.areas, s, lo, hi, k);
    assert Reached(x.walks, lo, hi, f);
    forall j: nat ensures UserFrame(x.walks, x.areas, j) != Some(f) {
      assert UserFrame(x.walks, x.areas, j).Some? ==> FrameAt(x.walks, j) == UserFrame(x.walks, x.areas, j);
    }
    NoOwnTable(x.tabs, f);
  }

  /** Without foreign pages, what is freed backed an area page. */
  lemma OwnReached(x: Space, lo: nat, hi: nat, f: nat)
    requires NoneForeign(x.walks, x.areas, lo, hi)
    ensures Reached(x.walks, lo, hi, f) <==>
      exists k: nat :: Visited(lo, hi, k) && UserFrame(x.walks, x.areas, k) == Some(f)
    ensures Reached(x.walks, lo, hi, f) ==> Holds(x, f)
  {
    if Reached(x.walks, lo, hi, f) {
      var k: nat :| Visited(lo, hi, k) && FrameAt(x.walks, k) == Some(f);
      assert !Foreign(x.walks, x.areas, k);
      assert 0 <= k < USER_PAGES && UserFrame(x.walks, x.areas, k) == Some(f);
    }
    if k: nat :| Visited(lo, hi, k) && UserFrame(x.walks, x.areas, k) == Some(f) {
      assert FrameAt(x.walks, k) == Some(f);
    }
  }

  /** The loop is confined to the address space if and only if it meets no page that is mapped outside the areas. */
  lemma MunmapConfined(m: Mem, s: set<nat>, x: Space, n: Mem, t: set<nat>, y: Space, lo: nat, hi: nat, end: nat)
    requires Unmapping(m, s, x, n, t, y, lo, hi, end)
    ensures Confined(m, s, x, n, t, y) <==> NoneForeign(x.walks, x.areas, lo, hi)
  {
    if NoneForeign(x.walks, x.areas, lo, hi) {
      UnmappedFrames(m, s, x, n, t, y, lo, hi, end);
      forall k: nat | Visited(lo, hi, k) && k >= USER_PAGES ensures FrameAt(x.walks, k).None? {
        assert !Foreign(x.walks, x.areas, k);
      }
      forall f: nat | f in t ensures f in s || Holds(x, f) { OwnReached(x, lo, hi, f); }
      ShrinkConfined(m, s, x, n, t, y);
    } else {
      var k: nat :| Visited(lo, hi, k) && Foreign(x.walks, x.areas, k);
      ForeignFreed(m, s, x, n, t, y, lo, hi, end, k);
    }
  }

  /** A frame behind a page of the removed area that is not visited is neither free nor owned any more. */
  lemma MunmapLoses(m: Mem, s: set<nat>, x: Space, n: Mem, t: set<nat>, y: Space, lo: nat, hi: nat, end: nat, k: nat)
    requires SpaceOk(m, s, x) && Unmapping(m, s, x, n, t, y, lo, hi, end)
    requires lo <= k < end && !Visited(lo, hi, k) && UserFrame(x.walks, x.areas, k).Some?
    ensures var f := UserFrame(x.walks, x.areas, k).value; Owns(x, f) && f !in t && !Owns(y, f)
  {
    UnmappedFrames(m, s, x, n, t, y, lo, hi, end);
    var f := UserFrame(x.walks, x.areas, k).value;
    assert GoodFrame(m, x.tabs, s, f);
    assert Holds(x, f) by { assert 0 <= k < USER_PAGES; }
    NotReached(x, s, lo, hi, k);
    NoOwnTable(y.tabs, f);
    assert !Holds(y, f);
  }

  /** Where nothing is foreign and nothing left, the frames that are no longer owned are the ones freed. */
  lemma MunmapKeeps(m: Mem, s: set<nat>, x: Space, n: Mem, t: set<nat>, y: Space, lo: nat, hi: nat, end: nat, f: nat)
    requires Unmapping(m, s, x, n, t, y, lo, hi, end)
    requires NoneForeign(x.walks, x.areas, lo, hi) && NoneLeft(x.walks, x.areas, lo, hi, end)
    ensures Holds(x, f) <==> Holds(y, f) || Reached(x.walks, lo, hi, f)
  {
    UnmappedFrames(m, s, x, n, t, y, lo, hi, end);
    OwnReached(x, lo, hi, f);
    if Holds(x, f) {
      var k: nat :| 0 <= k < USER_PAGES && UserFrame(x.walks, x.areas, k) == Some(f);
      assert !Visited(lo, hi, k) ==> UserFrame(y.walks, y.areas, k) == Some(f);
    }
    if Holds(y, f) {
      var k: nat :| 0 <= k < USER_PAGES && UserFrame(y.walks, y.areas, k) == Some(f);
      assert UserFrame(x.walks, x.areas, k) == Some(f);
    }
  }

  /**
   * Free and owned frames together stay the same if and only if the loop meets no page mapped outside the areas, and
   * visits every touched page of the removed area.
   */
  lemma MunmapConserves(m: Mem, s: set<nat>, x: Space, n: Mem, t: set<nat>, y: Space, lo: nat, hi: nat, end: nat)
    requires SpaceOk(m, s, x) && Unmapping(m, s, x, n, t, y, lo, hi, end)
    ensures Conserved(s, x, t, y) <==>
      NoneForeign(x.walks, x.areas, lo, hi) && NoneLeft(x.walks, x.areas, lo, hi, end)
  {
    if !NoneForeign(x.walks, x.areas, lo, hi) {
      var k: nat :| Visited(lo, hi, k) && Foreign(x.walks, x.areas, k);
      ForeignFreed(m, s, x, n, t, y, lo, hi, end, k);
    } else if !NoneLeft(x.walks, x.areas, lo, hi, end) {
      var k: nat :| lo <= k < end && !Visited(lo, hi, k) && UserFrame(x.walks, x.areas, k).Some?;
      MunmapLoses(m, s, x, n, t, y, lo, hi, end, k);
    } else {
      forall f: nat ensures f in s || Owns(x, f) <==> f in t || Owns(y, f) {
        MunmapKeeps(m, s, x, n, t, y, lo, hi, end, f);
      }
    }
  }

  /** Nothing stale stays mapped if and only if the loop visits every touched page of the removed area. */
  lemma MunmapTidies(m: Mem, s: set<nat>, x: Space, n: Mem, t: set<nat>, y: Space, lo: nat, hi: nat, end: nat,
                     image: Image)
    requires SpaceOk(m, s, x) && Unmapping(m, s, x, n, t, y, lo, hi, end) && Tidy(x.walks, x.areas, image)
    ensures Tidy(y.walks, y.areas, image) <==> NoneLeft(x.walks, x.areas, lo, hi, end)
  {
    if NoneLeft(x.walks, x.areas, lo, hi, end) {
      forall k: nat | k < USER_PAGES && PageAttr(x.areas, k).Some? && PageAttr(y.areas, k).None?
        ensures k in y.walks && y.walks[k] == Unmapped
      {
        assert !Visited(lo, hi, k) ==> UserFrame(x.walks, x.areas, k).None?;
      }
      TidyAfter(x.walks, y.walks, x.areas, y.areas, image);
    } else {
      var k: nat :| lo <= k < end && !Visited(lo, hi, k) && UserFrame(x.walks, x.areas, k).Some?;
      assert PageAttr(y.areas, k).None? && y.walks[k] == x.walks[k] && !image.Has(k);
    }
  }

  /** The bytes after it: those of the area are gone, those of other areas on visited pages read as zero. */
  ghost predicate MunmapView(m: Mem, x: Space, n: Mem, y: Space, lo: nat, hi: nat, end: nat) {
    forall a: nat :: View(n, y.walks, y.areas, a) ==
      if 4096 * lo <= a < 4096 * end then None
      else if Visited(lo, hi, a / 4096) && View(m, x.walks, x.areas, a).Some? then Some(0)
      else View(m, x.walks, x.areas, a)
  }

  lemma FrameUnswept(m: Mem, s: set<nat>, x: Space, n: Mem, t: set<nat>, y: Space, lo: nat, hi: nat, end: nat, k: nat)
    requires SpaceOk(m, s, x) && Unmapping(m, s, x, n, t, y, lo, hi, end)
    requires UserFrame(x.walks, x.areas, k).Some? && !Visited(lo, hi, k)
    ensures At(n, UserFrame(x.walks, x.areas, k).value) == At(m, UserFrame(x.walks, x.areas, k).value)
  {
    var f := UserFrame(x.walks, x.areas, k).value;
    assert GoodFrame(m, x.tabs, s, f);
    NotReached(x, s, lo, hi, k);
  }

  lemma MunmapShows(m: Mem, s: set<nat>, x: Space, n: Mem, t: set<nat>, y: Space, lo: nat, hi: nat, end: nat)
    requires SpaceOk(m, s, x) && Unmapping(m, s, x, n, t, y, lo, hi, end)
    ensures MunmapView(m, x, n, y, lo, hi, end)
  {
    UnmappedFrames(m, s, x, n, t, y, lo, hi, end);
    forall a: nat
      ensures View(n, y.walks, y.areas, a) ==
        if 4096 * lo <= a < 4096 * end then None
        else if Visited(lo, hi, a / 4096) && View(m, x.walks, x.areas, a).Some? then Some(0)
        else View(m, x.walks, x.areas, a)
    {
      var k := a / 4096;
      PageSplit(k, a);
      if UserFrame(x.walks, x.areas, k).Some? {
        if !Visited(lo, hi, k) { FrameUnswept(m, s, x, n, t, y, lo, hi, end, k); }
        assert GoodFrame(m, x.tabs, s, UserFrame(x.walks, x.areas, k).value);
      }
    }
  }
}
