/**
 * Mapping a page in either half of an address space. The tables of the upper half are shared, so a page mapped there
 * may be seen by others, and what is spent on it belongs to nobody: the exact conditions for both.
 */
module UpperPages {
  import opened PhysMem
  import opened BuddyAllocator
  import opened PageTable
  import opened Paging
  import opened PageMaps
  import opened UserMemory
  import opened Isolation
  import opened UpperHalf

  /** `y` is `x` with page `k` mapped to `leaf`, by a walk that took the tables it lacked from the free pages `s`. */
  ghost predicate PageMapped(m: Mem, s: set<nat>, x: Space, n: Mem, t: set<nat>, y: Space, k: nat, leaf: Leaf) {
    && Tree(n, x.root) && TablesAvoid(n, x.root, t)
    && Extended(m, s, n, t, x.root, k) && Remapped(m, n, x.root, k, leaf)
    && y == Space(x.root, x.walks[k := leaf], TabsOf(n, x.root), x.areas)
  }

  /** The tables that were there are still there. */
  ghost predicate KeepsTables(x: Space, y: Space) {
    forall q :: q in x.tabs ==> q in y.tabs && y.tabs[q] == x.tabs[q]
  }

  /** The tables that are new lie in the upper half, and have left the free pages. */
  ghost predicate NewAbove(s: set<nat>, x: Space, t: set<nat>, y: Space) {
    forall q :: q in y.tabs && q !in x.tabs ==> !Low(q) && y.tabs[q] in s && y.tabs[q] !in t
  }

  lemma UpperWay(k: nat)
    requires USER_PAGES <= k < PAGES
    ensures A(k) >= 256 && !Low(Sub(Root, A(k))) && !Low(PdOf(k)) && !Low(PtOf(k))
  {
    HalfOf(k);
    assert Low(Sub(Root, A(k))) == (A(k) < 256);
  }

  lemma UpperTables(m: Mem, s: set<nat>, x: Space, n: Mem, t: set<nat>, y: Space, k: nat, leaf: Leaf)
    requires Shows(m, x.root, x.walks, x.tabs, s) && USER_PAGES <= k < PAGES && PageMapped(m, s, x, n, t, y, k, leaf)
    ensures KeepsTables(x, y) && NewAbove(s, x, t, y)
  {
    UpperWay(k);
    assert Resolve(m, x.root, Root) == Some(x.root);
    forall q | q in x.tabs ensures q in y.tabs && y.tabs[q] == x.tabs[q] {
      assert Resolve(m, x.root, q) == Some(x.tabs[q]);
    }
    forall q | q in y.tabs && q !in x.tabs ensures !Low(q) && y.tabs[q] in s && y.tabs[q] !in t {
      assert Resolve(m, x.root, q).None?;
    }
  }

  lemma UpperReal(s: set<nat>, x: Space, t: set<nat>, y: Space)
    requires KeepsTables(x, y) && NewAbove(s, x, t, y) && 0 !in s && RealFrames(x.tabs)
    ensures RealFrames(y.tabs)
  {
    forall q | q in y.tabs ensures y.tabs[q] > 0 { assert q in x.tabs ==> y.tabs[q] == x.tabs[q]; }
  }

  /** What mapping a page of the upper half does to the maps. */
  lemma UpperMapped(m: Mem, s: set<nat>, x: Space, n: Mem, t: set<nat>, y: Space, k: nat, leaf: Leaf)
    requires Shows(m, x.root, x.walks, x.tabs, s) && 0 !in s && USER_PAGES <= k < PAGES
    requires PageMapped(m, s, x, n, t, y, k, leaf)
    ensures KeepsTables(x, y) && NewAbove(s, x, t, y) && Shows(n, y.root, y.walks, y.tabs, t)
  {
    UpperTables(m, s, x, n, t, y, k, leaf);
    UpperReal(s, x, t, y);
  }

  /** Nothing above is owned, so the owned frames stay the same. */
  lemma UpperOwned(s: set<nat>, x: Space, t: set<nat>, y: Space, k: nat, f: nat)
    requires KeepsTables(x, y) && NewAbove(s, x, t, y) && y.areas == x.areas && k >= USER_PAGES
    requires forall j: nat :: j != k ==> (j in y.walks <==> j in x.walks) && (j in x.walks ==> y.walks[j] == x.walks[j])
    ensures Owns(y, f) <==> Owns(x, f)
    ensures Uses(y, f) && f !in s ==> Uses(x, f)
  {
    forall j: nat ensures UserFrame(y.walks, y.areas, j) == UserFrame(x.walks, x.areas, j) {}
    assert Holds(y, f) <==> Holds(x, f);
    if IsOwnTable(x.tabs, f) {
      var q :| q in x.tabs && Low(q) && x.tabs[q] == f;
      assert q in y.tabs && Low(q) && y.tabs[q] == f;
    }
    if IsOwnTable(y.tabs, f) {
      var q :| q in y.tabs && Low(q) && y.tabs[q] == f;
      assert q in x.tabs && Low(q) && x.tabs[q] == f;
    }
    if IsTableFrame(y.tabs, f) && f !in s {
      var q :| q in y.tabs && y.tabs[q] == f;
      assert q in x.tabs && x.tabs[q] == f;
    }
  }

  // ---------- A shared table is written ----------

  /** Below a table that was there, a page of the upper half goes into memory that is not this address space's alone. */
  lemma UpperPageNotConfined(m: Mem, s: set<nat>, x: Space, n: Mem, t: set<nat>, y: Space, k: nat)
    requires SpaceOk(m, s, x) && Shows(n, x.root, y.walks, y.tabs, t) && KeepsTables(x, y)
    requires USER_PAGES <= k < PAGES && Sub(Root, A(k)) in x.tabs && y.walks[k] != x.walks[k]
    ensures !Confined(m, s, x, n, t, y)
  {
    UpperWay(k);
    if Confined(m, s, x, n, t, y) {
      SharedSame(m, s, x, n, t, y, Sub(Root, A(k)));
      SharedSame(m, s, x, n, t, y, PdOf(k));
      SharedSame(m, s, x, n, t, y, PtOf(k));
      assert WalkPage(m, x.root, k) == x.walks[k] && WalkPage(n, x.root, k) == y.walks[k];
      SameWay(m, n, x.root, k);
    }
  }

  /** A confined step leaves the shared tables as they are. */
  lemma SharedSame(m: Mem, s: set<nat>, x: Space, n: Mem, t: set<nat>, y: Space, q: Path)
    requires SpaceOk(m, s, x) && Shows(n, x.root, y.walks, y.tabs, t) && KeepsTables(x, y) && Confined(m, s, x, n, t, y)
    requires !Low(q)
    ensures Resolve(m, x.root, q).Some? ==>
      && Resolve(n, x.root, q) == Resolve(m, x.root, q)
      && At(n, Resolve(m, x.root, q).value) == At(m, Resolve(m, x.root, q).value)
  {
    if Resolve(m, x.root, q).Some? {
      assert q in x.tabs && Resolve(n, x.root, q) == Some(x.tabs[q]);
      UpperNotOwned(m, s, x, q);
      UsedNotFree(m, s, x, x.tabs[q]);
    }
  }

  lemma SameWay(m: Mem, n: Mem, root: nat, k: nat)
    requires Tree(m, root) && Tree(n, root) && Resolve(m, root, Sub(Root, A(k))).Some?
    requires forall q :: q in {Sub(Root, A(k)), PdOf(k), PtOf(k)} && Resolve(m, root, q).Some? ==>
      Resolve(n, root, q) == Resolve(m, root, q) && At(n, Resolve(m, root, q).value) == At(m, Resolve(m, root, q).value)
    ensures WalkPage(n, root, k) == WalkPage(m, root, k)
  {
    WalkByPaths(m, root, A(k), B(k), C(k), D(k));
    WalkByPaths(n, root, A(k), B(k), C(k), D(k));
    var p := Sub(Root, A(k));
    assert At(n, Resolve(m, root, p).value) == At(m, Resolve(m, root, p).value);
    assert Resolve(n, root, PdOf(k)) == Resolve(m, root, PdOf(k));
    assert Resolve(n, root, PtOf(k)) == Resolve(m, root, PtOf(k));
  }

  // ---------- A new table hangs below the root alone ----------

  /** Without the level-3 table, the only table that was there and is written is the root. */
  lemma OnlyRootWritten(m: Mem, root: nat, k: nat, f: nat)
    requires Resolve(m, root, Sub(Root, A(k))).None? && f in PathTables(m, root, k)
    ensures f == root
  {
    assert Resolve(m, root, PdOf(k)).None?;
    assert Resolve(m, root, PtOf(k)).None?;
    var q :| q in {Root, Sub(Root, A(k)), PdOf(k), PtOf(k)} && Resolve(m, root, q) == Some(f);
  }

  lemma NewUpperConfined(m: Mem, s: set<nat>, m1: Mem, s1: set<nat>, n: Mem, t: set<nat>, x: Space, y: Space, k: nat,
                         leaf: Leaf)
    requires SpaceOk(m, s, x) && s1 <= s && SameExcept(m, m1, s) && Shows(m1, x.root, x.walks, x.tabs, s1) && 0 !in s
    requires USER_PAGES <= k < PAGES && Sub(Root, A(k)) !in x.tabs && PageMapped(m1, s1, x, n, t, y, k, leaf)
    ensures Confined(m, s, x, n, t, y)
  {
    UpperMapped(m1, s1, x, n, t, y, k, leaf);
    assert Resolve(m1, x.root, Sub(Root, A(k))).None?;
    assert Resolve(m1, x.root, Root) == Some(x.root);
    assert Root in x.tabs && Low(Root) && x.tabs[Root] == x.root;
    forall f: nat | f !in s && !Owns(x, f)
      ensures f !in t && At(n, f) == At(m, f) && !Owns(y, f) && (Uses(y, f) ==> Uses(x, f))
    {
      assert f != x.root;
      if f in PathTables(m1, x.root, k) { OnlyRootWritten(m1, x.root, k, f); }
      UpperOwned(s1, x, t, y, k, f);
    }
  }

  // ---------- The exact conditions ----------

  /** After some free pages were written or taken, the tables are as before. */
  lemma StillShown(m: Mem, s: set<nat>, m1: Mem, s1: set<nat>, x: Space)
    requires SpaceOk(m, s, x) && s1 <= s && SameExcept(m, m1, s)
    ensures Shows(m1, x.root, x.walks, x.tabs, s1)
  {
    ShownFramed(m, m1, x.root, x.walks, x.tabs, s, s1);
  }

  lemma LowerConfined(m: Mem, s: set<nat>, m1: Mem, s1: set<nat>, n: Mem, t: set<nat>, x: Space, y: Space, k: nat,
                      leaf: Leaf)
    requires SpaceOk(m, s, x) && s1 <= s && SameExcept(m, m1, s) && 0 !in s && k < USER_PAGES
    requires Shows(m1, x.root, x.walks, x.tabs, s1) && PageMapped(m1, s1, x, n, t, y, k, leaf)
    requires UserFrame(y.walks, y.areas, k).Some? ==> UserFrame(y.walks, y.areas, k).value in s
    ensures Confined(m, s, x, n, t, y)
  {
    MapShown(m1, s1, n, t, x.root, k, leaf, x.walks, x.tabs);
    GrowConfined(m, s, m1, s1, n, t, x, y);
  }

  /**
   * Mapping a page, to a frame that was free if the page belongs to an area, is confined if and only if the page lies
   * in the user half or its level-3 table is new.
   */
  lemma MapConfined(m: Mem, s: set<nat>, m1: Mem, s1: set<nat>, n: Mem, t: set<nat>, x: Space, y: Space, k: nat,
                    leaf: Leaf)
    requires SpaceOk(m, s, x) && s1 <= s && SameExcept(m, m1, s) && 0 !in s && k < PAGES
    requires PageMapped(m1, s1, x, n, t, y, k, leaf) && leaf != x.walks[k]
    requires UserFrame(y.walks, y.areas, k).Some? ==> UserFrame(y.walks, y.areas, k).value in s
    ensures Confined(m, s, x, n, t, y) <==> k < USER_PAGES || Sub(Root, A(k)) !in x.tabs
  {
    StillShown(m, s, m1, s1, x);
    if k < USER_PAGES {
      LowerConfined(m, s, m1, s1, n, t, x, y, k, leaf);
    } else if Sub(Root, A(k)) in x.tabs {
      UpperMapped(m1, s1, x, n, t, y, k, leaf);
      UpperPageNotConfined(m, s, x, n, t, y, k);
    } else {
      NewUpperConfined(m, s, m1, s1, n, t, x, y, k, leaf);
    }
  }

  /** A page of the upper half costs exactly the tables it lacks, and what it costs is lost. */
  lemma UpperCost(m: Mem, s: set<nat>, x: Space, n: Mem, t: set<nat>, y: Space, k: nat, leaf: Leaf)
    requires Shows(m, x.root, x.walks, x.tabs, s) && 0 !in s && USER_PAGES <= k < PAGES && leaf.Small?
    requires PageMapped(m, s, x, n, t, y, k, leaf)
    ensures t == s <==> PtOf(k) in x.tabs
  {
    assert WalkPage(n, x.root, k) == leaf;
    WalkEndsInPt(n, x.root, A(k), B(k), C(k), D(k));
    if PtOf(k) in x.tabs {
      assert Resolve(m, x.root, PtOf(k)).Some?;
      forall f | f in s ensures f in t { assert f !in t ==> BecameTable(m, n, x.root, f); }
    } else {
      assert Resolve(m, x.root, PtOf(k)).None?;
    }
  }

  /** What is owned stays the same above, so frames are conserved exactly when none has left the free pages. */
  lemma UpperConserved(m: Mem, s: set<nat>, x: Space, t: set<nat>, y: Space)
    requires SpaceOk(m, s, x) && t <= s && forall f: nat :: Owns(y, f) <==> Owns(x, f)
    ensures Conserved(s, x, t, y) <==> t == s
  {
    if Conserved(s, x, t, y) {
      forall f | f in s ensures f in t {
        if Owns(x, f) {
          OwnsUses(x, f);
          UsedNotFree(m, s, x, f);
        }
      }
    }
  }

  /**
   * Mapping a page that belongs to no area loses no frame if and only if the page lies in the user half or no table
   * was missing.
   */
  lemma MapConserves(m: Mem, s: set<nat>, n: Mem, t: set<nat>, x: Space, y: Space, k: nat, leaf: Leaf)
    requires SpaceOk(m, s, x) && 0 !in s && k < PAGES && leaf.Small? && PageMapped(m, s, x, n, t, y, k, leaf)
    requires k < USER_PAGES ==> PageAttr(x.areas, k).None?
    ensures Conserved(s, x, t, y) <==> k < USER_PAGES || PtOf(k) in x.tabs
  {
    if k < USER_PAGES {
      MapShown(m, s, n, t, x.root, k, leaf, x.walks, x.tabs);
      Isolation.MapConserved(s, x, t, y);
    } else {
      UpperMapped(m, s, x, n, t, y, k, leaf);
      UpperCost(m, s, x, n, t, y, k, leaf);
      forall f: nat ensures Owns(y, f) <==> Owns(x, f) { UpperOwned(s, x, t, y, k, f); }
      UpperConserved(m, s, x, t, y);
    }
  }

  /**
   * Giving an unmapped page a frame `f` from the free pages, as a page fault or the loader does: no frame is lost if
   * and only if the page lies in the user half.
   */
  lemma GiveConserves(m: Mem, s: set<nat>, m1: Mem, f: nat, n: Mem, t: set<nat>, x: Space, y: Space, k: nat,
                      flags: Flags)
    requires SpaceOk(m, s, x) && f in s && SameExcept(m, m1, s) && 0 !in s && k < PAGES && x.walks[k] == Unmapped
    requires PageMapped(m1, s - {f}, x, n, t, y, k, Small(f, flags))
    requires k < USER_PAGES ==> PageAttr(x.areas, k).Some?
    ensures Conserved(s, x, t, y) <==> k < USER_PAGES
  {
    StillShown(m, s, m1, s - {f}, x);
    if k < USER_PAGES {
      MapShown(m1, s - {f}, n, t, x.root, k, Small(f, flags), x.walks, x.tabs);
      GrowConserved(s, f, x, t, y, k);
    } else {
      UpperMapped(m1, s - {f}, x, n, t, y, k, Small(f, flags));
      forall g: nat ensures Owns(y, g) <==> Owns(x, g) { UpperOwned(s - {f}, x, t, y, k, g); }
      UpperConserved(m, s, x, t, y);
    }
  }

  // ---------- Who sees the page ----------

  /** Roots that lead to the same level-3 table lead to the same leaf. */
  lemma SharedWalk(n: Mem, r: nat, q: nat, k: nat)
    requires Resolve(n, r, Sub(Root, A(k))).Some? && Resolve(n, r, Sub(Root, A(k))) == Resolve(n, q, Sub(Root, A(k)))
    ensures WalkPage(n, r, k) == WalkPage(n, q, k)
  {
  }

  /**
   * A page mapped below a level-3 table that another address space `z` shares appears there too, although `z` made no
   * step.
   */
  lemma UpperPageSeen(m: Mem, s: set<nat>, m1: Mem, s1: set<nat>, n: Mem, t: set<nat>, x: Space, y: Space, k: nat,
                      leaf: Leaf, z: Space)
    requires SpaceOk(m, s, x) && SpaceOk(m, s, z) && ApartFrom(z, x) && s1 <= s && SameExcept(m, m1, s) && k < PAGES
    requires PageMapped(m1, s1, x, n, t, y, k, leaf)
    requires Sub(Root, A(k)) in x.tabs && Sub(Root, A(k)) in z.tabs
    requires z.tabs[Sub(Root, A(k))] == x.tabs[Sub(Root, A(k))]
    ensures WalkPage(m, z.root, k) == x.walks[k] && WalkPage(n, z.root, k) == leaf
  {
    var p := Sub(Root, A(k));
    assert Resolve(m, x.root, p) == Some(x.tabs[p]) && Resolve(m, z.root, p) == Some(z.tabs[p]);
    SharedWalk(m, z.root, x.root, k);
    assert WalkPage(m, x.root, k) == x.walks[k];
    StillShown(m, s, m1, s1, x);
    StillShown(m, s, m1, s1, z);
    assert Resolve(m1, x.root, p) == Some(x.tabs[p]) && Resolve(m1, z.root, p) == Some(z.tabs[p]);
    OtherRootKept(m1, s1, x, n, t, y, k, leaf, z);
    SharedWalk(n, z.root, x.root, k);
    assert WalkPage(n, x.root, k) == leaf;
  }

  lemma OtherRootKept(m: Mem, s: set<nat>, x: Space, n: Mem, t: set<nat>, y: Space, k: nat, leaf: Leaf, z: Space)
    requires Shows(m, x.root, x.walks, x.tabs, s) && Shows(m, z.root, z.walks, z.tabs, s) && ApartFrom(z, x)
    requires PageMapped(m, s, x, n, t, y, k, leaf) && Resolve(m, z.root, Sub(Root, A(k))).Some?
    ensures Resolve(n, z.root, Sub(Root, A(k))) == Resolve(m, z.root, Sub(Root, A(k)))
  {
    assert Resolve(m, z.root, Root) == Some(z.root);
    assert Root in z.tabs && Low(Root) && z.tabs[Root] == z.root;
    assert Owns(z, z.root);
    assert !Uses(x, z.root);
    forall q | Resolve(m, x.root, q).Some? ensures Resolve(m, x.root, q).value != z.root {
      assert q in x.tabs && IsTableFrame(x.tabs, x.tabs[q]);
    }
    assert z.root !in PathTables(m, x.root, k);
    assert z.root !in s;
    assert At(n, z.root) == At(m, z.root);
  }

  // ---------- The address space itself ----------

  /** A frame behind an area page is no table that is written, and none that is new. */
  lemma FrameUntouched(m: Mem, s: set<nat>, m1: Mem, s1: set<nat>, n: Mem, t: set<nat>, x: Space, y: Space, k: nat,
                       leaf: Leaf, g: nat)
    requires GoodFrame(m, x.tabs, s, g) && s1 <= s && SameExcept(m, m1, s) && Shows(m1, x.root, x.walks, x.tabs, s1)
    requires KeepsTables(x, y) && NewAbove(s1, x, t, y) && PageMapped(m1, s1, x, n, t, y, k, leaf)
    ensures GoodFrame(n, y.tabs, t, g)
  {
    if g in PathTables(m1, x.root, k) { WayIsTable(m1, x.root, x.walks, x.tabs, s1, k, g); }
    forall q | q in y.tabs ensures y.tabs[q] != g { assert q in x.tabs ==> IsTableFrame(x.tabs, x.tabs[q]); }
  }

  lemma BackedBelow(m: Mem, s: set<nat>, x: Space, n: Mem, t: set<nat>, y: Space)
    requires Backed(m, x.walks, x.tabs, x.areas, s) && y.areas == x.areas
    requires forall j: nat :: j < USER_PAGES ==> (j in y.walks <==> j in x.walks)
    requires forall j: nat :: j < USER_PAGES && j in x.walks ==> y.walks[j] == x.walks[j]
    requires forall j: nat :: UserFrame(x.walks, x.areas, j).Some? ==>
      GoodFrame(n, y.tabs, t, UserFrame(x.walks, x.areas, j).value)
    ensures Backed(n, y.walks, y.tabs, y.areas, t)
  {
    forall j: nat ensures UserFrame(y.walks, y.areas, j) == UserFrame(x.walks, x.areas, j) {}
    forall j: nat ensures RightPerms(y.walks, y.areas, j) { assert RightPerms(x.walks, x.areas, j); }
  }

  /** Mapping a page above leaves the address space sound. */
  lemma UpperSound(m: Mem, s: set<nat>, m1: Mem, s1: set<nat>, n: Mem, t: set<nat>, x: Space, y: Space, k: nat,
                   leaf: Leaf)
    requires SpaceOk(m, s, x) && s1 <= s && SameExcept(m, m1, s) && 0 !in s && USER_PAGES <= k < PAGES
    requires PageMapped(m1, s1, x, n, t, y, k, leaf)
    ensures SpaceOk(n, t, y)
  {
    StillShown(m, s, m1, s1, x);
    UpperMapped(m1, s1, x, n, t, y, k, leaf);
    forall j: nat | UserFrame(x.walks, x.areas, j).Some?
      ensures GoodFrame(n, y.tabs, t, UserFrame(x.walks, x.areas, j).value)
    {
      assert GoodFrame(m, x.tabs, s, UserFrame(x.walks, x.areas, j).value);
      FrameUntouched(m, s, m1, s1, n, t, x, y, k, leaf, UserFrame(x.walks, x.areas, j).value);
    }
    BackedBelow(m, s, x, n, t, y);
  }
}
