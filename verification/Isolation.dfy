/** Address spaces side by side in one physical memory: what one of them does is not seen by the others. */
module Isolation {
  import opened PhysMem
  import opened BuddyAllocator
  import opened PageTable
  import opened PageMaps
  import opened VmaList
  import opened UserMemory

  /** What an address space stands for: its root table, the leaf of each page, the frame of each table, its areas. */
  datatype Space = Space(root: nat, walks: Walks, tabs: Tabs, areas: seq<Vma>)

  ghost predicate SpaceOk(m: Mem, free: set<nat>, x: Space) {
    Shows(m, x.root, x.walks, x.tabs, free) && Backed(m, x.walks, x.tabs, x.areas, free)
  }

  /** Ring 3 reaches an area page exactly if the page has been touched, and then as the area's flags say. */
  lemma AreaAccess(m: Mem, free: set<nat>, x: Space, k: nat)
    requires SpaceOk(m, free, x) && k < USER_PAGES && PageAttr(x.areas, k).Some?
    ensures k in x.walks
    ensures if x.walks[k] == Unmapped then !MayRead(m, x.root, k)
            else AccessAs(m, x.root, k, PageAttr(x.areas, k).value.flags)
  {
    ShownGrants(m, x.root, x.walks, x.tabs, free, k);
    assert RightPerms(x.walks, x.areas, k);
  }

  /** Of the user pages outside the areas, ring 3 reaches none but those of the image. */
  lemma NoOtherAccess(m: Mem, free: set<nat>, x: Space, image: Image, k: nat)
    requires SpaceOk(m, free, x) && Tidy(x.walks, x.areas, image)
    requires k < USER_PAGES && PageAttr(x.areas, k).None? && !image.Has(k)
    ensures Granted(m, x.root, k) == None
  {
    ShownGrants(m, x.root, x.walks, x.tabs, free, k);
  }

  ghost predicate Holds(x: Space, f: nat) {
    Backs(x.walks, x.areas, 0, USER_PAGES, f)
  }

  /** Frames that belong to `x` alone: its lower-half tables, its root, and the frames of its area pages. */
  ghost predicate Owns(x: Space, f: nat) {
    IsOwnTable(x.tabs, f) || Holds(x, f)
  }

  /** Frames that `x` depends on: those it owns and the shared tables of the upper half. */
  ghost predicate Uses(x: Space, f: nat) {
    IsTableFrame(x.tabs, f) || Holds(x, f)
  }

  /** What `x` owns, `y` does not use. */
  ghost predicate ApartFrom(x: Space, y: Space) {
    forall f: nat :: Owns(x, f) ==> !Uses(y, f)
  }

  /** A step of `x` to `y`: frames that were neither free nor owned by `x` keep that status and their contents. */
  ghost predicate Confined(m: Mem, s: set<nat>, x: Space, n: Mem, t: set<nat>, y: Space) {
    forall f: nat :: f !in s && !Owns(x, f) ==>
      f !in t && At(n, f) == At(m, f) && !Owns(y, f) && (Uses(y, f) ==> Uses(x, f))
  }

  ghost predicate SameSpaceView(m: Mem, n: Mem, x: Space) {
    SameView(m, x.walks, n, x.walks, x.areas)
  }

  lemma OwnsUses(x: Space, f: nat)
    requires Owns(x, f)
    ensures Uses(x, f)
  {
    if IsOwnTable(x.tabs, f) {
      var q :| q in x.tabs && Low(q) && x.tabs[q] == f;
      assert q in x.tabs && x.tabs[q] == f;
    }
  }

  lemma ConfinedTrans(m: Mem, s: set<nat>, x: Space, n: Mem, t: set<nat>, y: Space, o: Mem, u: set<nat>, z: Space)
    requires Confined(m, s, x, n, t, y) && Confined(n, t, y, o, u, z)
    ensures Confined(m, s, x, o, u, z)
  {
  }

  /** No frame that a sound address space uses is free. */
  lemma UsedNotFree(m: Mem, free: set<nat>, x: Space, f: nat)
    requires SpaceOk(m, free, x) && Uses(x, f)
    ensures f !in free
  {
    if IsTableFrame(x.tabs, f) {
      var q :| q in x.tabs && x.tabs[q] == f;
    } else {
      var n: nat :| n < USER_PAGES && UserFrame(x.walks, x.areas, n) == Some(f);
      assert GoodFrame(m, x.tabs, free, UserFrame(x.walks, x.areas, n).value);
    }
  }

  /** Memory that agrees on the frames `x` uses shows the same address space, with the same bytes. */
  lemma SameFrames(m: Mem, s: set<nat>, n: Mem, t: set<nat>, x: Space)
    requires SpaceOk(m, s, x) && forall f: nat :: Uses(x, f) ==> f !in t && At(n, f) == At(m, f)
    ensures SpaceOk(n, t, x) && SameSpaceView(m, n, x)
  {
    forall q | q in x.tabs ensures At(n, x.tabs[q]) == At(m, x.tabs[q]) && x.tabs[q] !in t {
      assert IsTableFrame(x.tabs, x.tabs[q]);
      assert Uses(x, x.tabs[q]);
    }
    ShownFramed(m, n, x.root, x.walks, x.tabs, s, t);
    forall k: nat | UserFrame(x.walks, x.areas, k).Some?
      ensures var f := UserFrame(x.walks, x.areas, k).value; GoodFrame(n, x.tabs, t, f) && At(n, f) == At(m, f)
    {
      var f := UserFrame(x.walks, x.areas, k).value;
      assert GoodFrame(m, x.tabs, s, f);
      assert Holds(x, f) by { assert k < USER_PAGES; }
      assert Uses(x, f);
    }
    forall a: nat ensures View(n, x.walks, x.areas, a) == View(m, x.walks, x.areas, a) {
      assert UserFrame(x.walks, x.areas, a / 4096) == UserFrame(x.walks, x.areas, a / 4096);
    }
  }

  /** A confined step of `x` leaves `z` as it was, byte for byte, and the two still apart. */
  lemma Undisturbed(m: Mem, s: set<nat>, x: Space, n: Mem, t: set<nat>, y: Space, z: Space)
    requires Confined(m, s, x, n, t, y) && SpaceOk(m, s, z) && ApartFrom(x, z) && ApartFrom(z, x)
    ensures SpaceOk(n, t, z) && SameSpaceView(m, n, z) && ApartFrom(y, z) && ApartFrom(z, y)
  {
    forall f: nat | Uses(z, f) ensures f !in t && At(n, f) == At(m, f) && !Owns(y, f) {
      UsedNotFree(m, s, z, f);
    }
    SameFrames(m, s, n, t, z);
    forall f: nat | Owns(z, f) ensures !Uses(y, f) {
      OwnsUses(z, f);
      UsedNotFree(m, s, z, f);
    }
  }

  /** Unmapping pages and freeing the frames behind them is confined. */
  lemma ShrinkConfined(m: Mem, s: set<nat>, x: Space, n: Mem, t: set<nat>, y: Space)
    requires y.tabs == x.tabs && WrittenOnly(m, n, x.tabs, t)
    requires forall k: nat :: UserFrame(y.walks, y.areas, k).Some? ==>
      UserFrame(x.walks, x.areas, k) == UserFrame(y.walks, y.areas, k)
    requires forall f: nat :: f in t ==> f in s || Holds(x, f)
    ensures Confined(m, s, x, n, t, y)
  {
    forall f: nat | Holds(y, f) ensures Holds(x, f) {
      var k: nat :| 0 <= k < USER_PAGES && UserFrame(y.walks, y.areas, k) == Some(f);
      assert UserFrame(x.walks, x.areas, k) == Some(f);
    }
  }

  /** Mapping pages to frames taken from the free pages is confined. */
  lemma GrowConfined(m: Mem, s: set<nat>, m1: Mem, s1: set<nat>, n: Mem, t: set<nat>, x: Space, y: Space)
    requires s1 <= s && SameExcept(m, m1, s) && Grown(x.tabs, s1, y.tabs, t) && WrittenOnly(m1, n, x.tabs, s1)
    requires forall k: nat :: UserFrame(y.walks, y.areas, k).Some? ==>
      UserFrame(y.walks, y.areas, k) == UserFrame(x.walks, x.areas, k) || UserFrame(y.walks, y.areas, k).value in s
    ensures Confined(m, s, x, n, t, y)
  {
    forall g: nat | g !in s && Holds(y, g) ensures Holds(x, g) {
      var k: nat :| 0 <= k < USER_PAGES && UserFrame(y.walks, y.areas, k) == Some(g);
      assert UserFrame(x.walks, x.areas, k) == Some(g);
    }
    forall g: nat | g !in s && IsOwnTable(y.tabs, g) ensures IsOwnTable(x.tabs, g) {
      var q :| q in y.tabs && Low(q) && y.tabs[q] == g;
      assert q in x.tabs && x.tabs[q] == g;
    }
    forall g: nat | g !in s && IsTableFrame(y.tabs, g) ensures IsTableFrame(x.tabs, g) {
      var q :| q in y.tabs && y.tabs[q] == g;
      assert q in x.tabs && x.tabs[q] == g;
    }
  }

  /** `d` with the bytes from `off` on replaced by `bytes`. */
  function Patch(d: seq<byte>, off: nat, bytes: seq<byte>): seq<byte>
    requires off + |bytes| <= |d|
  {
    d[..off] + bytes + d[off + |bytes|..]
  }

  // ---------- No frame is lost ----------

  /** The frames that are free or owned are the same before and after: none is lost, none appears. */
  ghost predicate Conserved(s: set<nat>, x: Space, t: set<nat>, y: Space) {
    forall f: nat :: f in s || Owns(x, f) <==> f in t || Owns(y, f)
  }

  /** Exactly the pages that `y` owns have left the free ones. */
  ghost predicate SpentOn(s: set<nat>, t: set<nat>, y: Space) {
    forall f: nat :: f in s <==> f in t || Owns(y, f)
  }

  /** One frame that was free or owned is neither any more; the others are the same. */
  ghost predicate OneLost(s: set<nat>, x: Space, t: set<nat>, y: Space) {
    exists f: nat :: LostAlone(s, x, t, y, f)
  }

  ghost predicate LostAlone(s: set<nat>, x: Space, t: set<nat>, y: Space, f: nat) {
    && (f in s || Owns(x, f)) && f !in t && !Owns(y, f)
    && forall g: nat :: g != f ==> (g in s || Owns(x, g) <==> g in t || Owns(y, g))
  }

  lemma LostThen(s: set<nat>, x: Space, t: set<nat>, y: Space, u: set<nat>, z: Space)
    requires Conserved(s, x, t, y) && OneLost(t, y, u, z)
    ensures OneLost(s, x, u, z)
  {
    var f: nat :| LostAlone(t, y, u, z, f);
    assert LostAlone(t, y, u, z, f);
    assert LostAlone(s, x, u, z, f);
  }

  lemma LostNotConserved(s: set<nat>, x: Space, t: set<nat>, y: Space)
    requires OneLost(s, x, t, y)
    ensures !Conserved(s, x, t, y)
  {
    var f: nat :| LostAlone(s, x, t, y, f);
    assert LostAlone(s, x, t, y, f);
  }

  /** A page taken from the free ones that ends up behind no page is lost. */
  lemma FrameLost(m: Mem, s: set<nat>, f: nat, x: Space, t: set<nat>, y: Space)
    requires SpaceOk(m, s, x) && f in s && Grown(x.tabs, s - {f}, y.tabs, t)
    requires forall j: nat :: UserFrame(y.walks, y.areas, j) == UserFrame(x.walks, x.areas, j)
    ensures OneLost(s, x, t, y)
  {
    MapConserved(s - {f}, x, t, y);
    assert !Owns(x, f) by { if Owns(x, f) { OwnsUses(x, f); UsedNotFree(m, s, x, f); } }
    assert f in s - {f} || Owns(x, f) <==> f in t || Owns(y, f);
    forall g: nat | g != f ensures g in s || Owns(x, g) <==> g in t || Owns(y, g) {
      assert g in s - {f} || Owns(x, g) <==> g in t || Owns(y, g);
    }
    assert LostAlone(s, x, t, y, f);
  }

  lemma ConservedTrans(s: set<nat>, x: Space, t: set<nat>, y: Space, u: set<nat>, z: Space)
    requires Conserved(s, x, t, y) && Conserved(t, y, u, z)
    ensures Conserved(s, x, u, z)
  {
  }

  /** Unmapping area pages and freeing their frames. */
  lemma ShrinkConserved(s: set<nat>, x: Space, t: set<nat>, y: Space, lo: nat, hi: nat)
    requires y.tabs == x.tabs && Reclaimed(s, t, x.walks, x.areas, lo, hi) && hi <= USER_PAGES
    requires forall k: nat ::
      UserFrame(y.walks, y.areas, k) == if lo <= k < hi then None else UserFrame(x.walks, x.areas, k)
    ensures Conserved(s, x, t, y)
  {
    forall f: nat ensures Holds(x, f) <==> Holds(y, f) || Backs(x.walks, x.areas, lo, hi, f) {
      if Holds(x, f) {
        var k: nat :| 0 <= k < USER_PAGES && UserFrame(x.walks, x.areas, k) == Some(f);
        assert !(lo <= k < hi) ==> UserFrame(y.walks, y.areas, k) == Some(f);
      }
      if Holds(y, f) {
        var k: nat :| 0 <= k < USER_PAGES && UserFrame(y.walks, y.areas, k) == Some(f);
        assert UserFrame(x.walks, x.areas, k) == Some(f);
      }
      if Backs(x.walks, x.areas, lo, hi, f) {
        var k: nat :| lo <= k < hi && UserFrame(x.walks, x.areas, k) == Some(f);
        assert 0 <= k < USER_PAGES;
      }
    }
  }

  /** Tables taken from the free pages belong to the address space. */
  lemma TablesConserved(s: set<nat>, x: Space, t: set<nat>, y: Space, f: nat)
    requires Grown(x.tabs, s, y.tabs, t)
    ensures f in s || IsOwnTable(x.tabs, f) <==> f in t || IsOwnTable(y.tabs, f)
  {
    if IsOwnTable(x.tabs, f) {
      var q :| q in x.tabs && Low(q) && x.tabs[q] == f;
      assert q in y.tabs && y.tabs[q] == f;
    }
    if IsOwnTable(y.tabs, f) {
      var q :| q in y.tabs && Low(q) && y.tabs[q] == f;
      assert q in x.tabs ==> IsOwnTable(x.tabs, f);
    }
  }

  /** Page `k` gets frame `g` from the free pages, and perhaps some tables. */
  lemma GrowConserved(s: set<nat>, g: nat, x: Space, t: set<nat>, y: Space, k: nat)
    requires g in s && Grown(x.tabs, s - {g}, y.tabs, t) && k < USER_PAGES && UserFrame(x.walks, x.areas, k).None?
    requires forall j: nat ::
      UserFrame(y.walks, y.areas, j) == if j == k then Some(g) else UserFrame(x.walks, x.areas, j)
    ensures Conserved(s, x, t, y)
  {
    forall f: nat ensures Holds(y, f) <==> Holds(x, f) || f == g {
      if Holds(x, f) {
        var j: nat :| 0 <= j < USER_PAGES && UserFrame(x.walks, x.areas, j) == Some(f);
        assert UserFrame(y.walks, y.areas, j) == Some(f);
      }
      if Holds(y, f) {
        var j: nat :| 0 <= j < USER_PAGES && UserFrame(y.walks, y.areas, j) == Some(f);
        assert j != k ==> UserFrame(x.walks, x.areas, j) == Some(f);
      }
      assert UserFrame(y.walks, y.areas, k) == Some(g);
    }
    forall f: nat
      ensures f in s - {g} || IsOwnTable(x.tabs, f) <==> f in t || IsOwnTable(y.tabs, f)
    {
      TablesConserved(s - {g}, x, t, y, f);
    }
  }

  /** Only tables were added, or the page mapped belongs to no area. */
  lemma MapConserved(s: set<nat>, x: Space, t: set<nat>, y: Space)
    requires Grown(x.tabs, s, y.tabs, t)
    requires forall j: nat :: UserFrame(y.walks, y.areas, j) == UserFrame(x.walks, x.areas, j)
    ensures Conserved(s, x, t, y)
  {
    forall f: nat ensures Holds(y, f) <==> Holds(x, f) {
      if Holds(x, f) {
        var j: nat :| 0 <= j < USER_PAGES && UserFrame(x.walks, x.areas, j) == Some(f);
        assert UserFrame(y.walks, y.areas, j) == Some(f);
      }
      if Holds(y, f) {
        var j: nat :| 0 <= j < USER_PAGES && UserFrame(y.walks, y.areas, j) == Some(f);
        assert UserFrame(x.walks, x.areas, j) == Some(f);
      }
    }
    forall f: nat
      ensures f in s || IsOwnTable(x.tabs, f) <==> f in t || IsOwnTable(y.tabs, f)
    {
      TablesConserved(s, x, t, y, f);
    }
  }

  // ---------- Writing through the page table ----------

  /** A store to a touched page of `x` is confined. */
  lemma StoreConfined(m: Mem, s: set<nat>, x: Space, f: nat, k: nat, cell: Cell)
    requires SpaceOk(m, s, x) && UserFrame(x.walks, x.areas, k) == Some(f) && IsData(cell)
    ensures SpaceOk(m[f := cell], s, x) && Confined(m, s, x, m[f := cell], s, x)
  {
    var n := m[f := cell];
    assert Holds(x, f) by { assert 0 <= k < USER_PAGES; }
    assert GoodFrame(m, x.tabs, s, f);
    forall q | q in x.tabs ensures At(n, x.tabs[q]) == At(m, x.tabs[q]) && x.tabs[q] !in s {
      assert IsTableFrame(x.tabs, x.tabs[q]);
    }
    ShownFramed(m, n, x.root, x.walks, x.tabs, s, s);
    forall j: nat | UserFrame(x.walks, x.areas, j).Some?
      ensures GoodFrame(n, x.tabs, s, UserFrame(x.walks, x.areas, j).value)
    {
      assert GoodFrame(m, x.tabs, s, UserFrame(x.walks, x.areas, j).value);
    }
  }

  /** A store to a touched page changes the bytes it names and no other byte. */
  lemma StoredByte(m: Mem, x: Space, f: nat, k: nat, off: nat, bytes: seq<byte>, n: Mem, c: nat)
    requires OneEach(x.walks, x.areas) && UserFrame(x.walks, x.areas, k) == Some(f) && IsData(At(m, f))
    requires off + |bytes| <= 4096
    requires n == m[f := Bytes(Patch(At(m, f).data, off, bytes))]
    requires c / 4096 == k <==> 4096 * k <= c < 4096 * k + 4096
    requires c / 4096 == k ==> c % 4096 == c - 4096 * k
    ensures View(n, x.walks, x.areas, c) ==
      if 4096 * k + off <= c < 4096 * k + off + |bytes| then Some(bytes[c - 4096 * k - off])
      else View(m, x.walks, x.areas, c)
    ensures 4096 * k + off <= c < 4096 * k + off + |bytes| ==> View(m, x.walks, x.areas, c).Some?
  {
    assert UserFrame(x.walks, x.areas, c / 4096) == Some(f) ==> c / 4096 == k;
  }

  /** How many of `n` bytes that start at offset `off` of a page lie on that page. */
  function Chunk(off: nat, n: nat): nat
    requires off < 4096
  {
    if 4096 - off < n then 4096 - off else n
  }

  /** Memory after `data` has been written from offset `off` of page `k` on, up to the first page without a frame. */
  ghost function Stored(m: Mem, x: Space, k: nat, off: nat, data: seq<byte>): Mem
    requires off < 4096
    decreases |data|
  {
    var f := UserFrame(x.walks, x.areas, k);
    var c := Chunk(off, |data|);
    if data == [] || f.None? || !IsData(At(m, f.value)) then m
    else Stored(m[f.value := Bytes(Patch(At(m, f.value).data, off, data[..c]))], x, k + 1, 0, data[c..])
  }

  /** How many of `n` bytes from there on come before the first page without a frame. */
  ghost function Extent(x: Space, k: nat, off: nat, n: nat): nat
    requires off < 4096
    decreases n
  {
    if n == 0 || UserFrame(x.walks, x.areas, k).None? then 0
    else Chunk(off, n) + Extent(x, k + 1, 0, n - Chunk(off, n))
  }

  /** Writing page by page. */
  lemma StoredStep(m: Mem, x: Space, k: nat, off: nat, data: seq<byte>)
    requires off < 4096 && data != []
    ensures UserFrame(x.walks, x.areas, k).None? ==> Stored(m, x, k, off, data) == m && Extent(x, k, off, |data|) == 0
    ensures UserFrame(x.walks, x.areas, k).Some? && IsData(At(m, UserFrame(x.walks, x.areas, k).value)) ==>
      var f, c := UserFrame(x.walks, x.areas, k).value, Chunk(off, |data|);
      var n := m[f := Bytes(Patch(At(m, f).data, off, data[..c]))];
      Stored(m, x, k, off, data) == (if c < |data| then Stored(n, x, k + 1, 0, data[c..]) else n) &&
      (Extent(x, k, off, |data|) == |data| <==> c == |data| || Extent(x, k + 1, 0, |data| - c) == |data| - c)
  {
  }

  /** All touched pages of `x` hold data, each in a frame of its own. */
  ghost predicate DataPages(m: Mem, x: Space) {
    OneEach(x.walks, x.areas) &&
    forall k: nat :: UserFrame(x.walks, x.areas, k).Some? ==> IsData(At(m, UserFrame(x.walks, x.areas, k).value))
  }

  lemma SpaceDataPages(m: Mem, s: set<nat>, x: Space)
    requires SpaceOk(m, s, x)
    ensures DataPages(m, x)
  {
    forall k: nat | UserFrame(x.walks, x.areas, k).Some? ensures IsData(At(m, UserFrame(x.walks, x.areas, k).value)) {
      assert GoodFrame(m, x.tabs, s, UserFrame(x.walks, x.areas, k).value);
    }
  }

  lemma ChunkKeepsData(m: Mem, x: Space, f: nat, off: nat, bytes: seq<byte>)
    requires DataPages(m, x) && IsData(At(m, f)) && off + |bytes| <= 4096
    ensures DataPages(m[f := Bytes(Patch(At(m, f).data, off, bytes))], x)
  {
  }

  /** The bytes written are those before the first page without a frame; no other byte changes. */
  lemma {:induction false} StoredAt(m: Mem, x: Space, k: nat, off: nat, data: seq<byte>, c: nat)
    requires DataPages(m, x) && off < 4096
    ensures Extent(x, k, off, |data|) <= |data|
    ensures var a := 4096 * k + off;
      View(Stored(m, x, k, off, data), x.walks, x.areas, c) ==
        if a <= c < a + Extent(x, k, off, |data|) then Some(data[c - a]) else View(m, x.walks, x.areas, c)
    decreases |data|
  {
    var f := UserFrame(x.walks, x.areas, k);
    if data != [] && f.Some? {
      var n := Chunk(off, |data|);
      var next := m[f.value := Bytes(Patch(At(m, f.value).data, off, data[..n]))];
      PageSplit(k, c);
      StoredByte(m, x, f.value, k, off, data[..n], next, c);
      ChunkKeepsData(m, x, f.value, off, data[..n]);
      StoredAt(next, x, k + 1, 0, data[n..], c);
    }
  }

  /** Writing is confined to the address space. */
  lemma {:induction false} StoredConfined(m: Mem, s: set<nat>, x: Space, k: nat, off: nat, data: seq<byte>)
    requires SpaceOk(m, s, x) && off < 4096
    ensures SpaceOk(Stored(m, x, k, off, data), s, x) && Confined(m, s, x, Stored(m, x, k, off, data), s, x)
    decreases |data|
  {
    var f := UserFrame(x.walks, x.areas, k);
    if data != [] && f.Some? && IsData(At(m, f.value)) {
      var c := Chunk(off, |data|);
      var n := m[f.value := Bytes(Patch(At(m, f.value).data, off, data[..c]))];
      StoreConfined(m, s, x, f.value, k, Bytes(Patch(At(m, f.value).data, off, data[..c])));
      StoredConfined(n, s, x, k + 1, 0, data[c..]);
      ConfinedTrans(m, s, x, n, s, x, Stored(m, x, k, off, data), s, x);
    }
  }

  // ---------- Runs of many address spaces ----------

  datatype System = System(mem: Mem, free: set<nat>, spaces: map<nat, Space>)

  ghost predicate Good(y: System) {
    && (forall i :: i in y.spaces ==> SpaceOk(y.mem, y.free, y.spaces[i]))
    && (forall i, j {:trigger ApartFrom(y.spaces[i], y.spaces[j])} :: i in y.spaces && j in y.spaces && i != j ==>
          ApartFrom(y.spaces[i], y.spaces[j]))
  }

  /** Address space `i` makes a confined step; the others are not consulted. */
  ghost predicate Acts(y: System, z: System, i: nat) {
    && i in y.spaces && i in z.spaces && z.spaces == y.spaces[i := z.spaces[i]]
    && Confined(y.mem, y.free, y.spaces[i], z.mem, z.free, z.spaces[i])
    && SpaceOk(z.mem, z.free, z.spaces[i])
  }

  /** Address space `i` is taken down: only frames that were free or its own change or become free. */
  ghost predicate Ends(y: System, z: System, i: nat) {
    && i in y.spaces && z.spaces == y.spaces - {i}
    && TornDown(y.mem, y.free, y.spaces[i], z.mem, z.free)
  }

  ghost predicate TornDown(m: Mem, s: set<nat>, x: Space, n: Mem, t: set<nat>) {
    forall f: nat :: f !in s && !Owns(x, f) ==> f !in t && At(n, f) == At(m, f)
  }

  /** Address space `i` is built from free frames, sharing the upper half of address space `from`. */
  ghost predicate Begins(y: System, z: System, i: nat, from: nat) {
    && i !in y.spaces && from in y.spaces && i in z.spaces && z.spaces == y.spaces[i := z.spaces[i]]
    && BuiltFrom(y.mem, y.free, y.spaces[from], z.mem, z.free, z.spaces[i])
    && SpaceOk(z.mem, z.free, z.spaces[i])
  }

  ghost predicate BuiltFrom(m: Mem, s: set<nat>, x: Space, n: Mem, t: set<nat>, y: Space) {
    forall f: nat :: f !in s ==>
      f !in t && At(n, f) == At(m, f) && !Owns(y, f) && (Uses(y, f) ==> Uses(x, f) && !Owns(x, f))
  }

  /** Some step by or about address space `i`. */
  ghost predicate Moves(y: System, z: System, i: nat) {
    Acts(y, z, i) || Ends(y, z, i) || exists from :: Begins(y, z, i, from)
  }

  /** A step about `i` keeps the system good and every other address space as it was. */
  lemma MoveIsolated(y: System, z: System, i: nat)
    requires Good(y) && Moves(y, z, i)
    ensures Good(z) && OthersKept(y, z, i)
  {
    if Acts(y, z, i) {
      forall j | j != i && j in y.spaces ensures Kept(y, z, i, j) { ActIsolated(y, z, i, j); }
    } else if Ends(y, z, i) {
      forall j | j != i && j in y.spaces ensures Kept(y, z, i, j) { EndIsolated(y, z, i, j); }
    } else {
      var from :| Begins(y, z, i, from);
      assert Begins(y, z, i, from);
      forall j | j != i && j in y.spaces ensures Kept(y, z, i, j) { BeginIsolated(y, z, i, from, j); }
    }
    StillGood(y, z, i);
  }

  /** Address space `j` is as before, and apart from what `i` has become. */
  ghost predicate Kept(y: System, z: System, i: nat, j: nat)
    requires j in y.spaces
  {
    && j in z.spaces && z.spaces[j] == y.spaces[j]
    && SpaceOk(z.mem, z.free, y.spaces[j]) && SameSpaceView(y.mem, z.mem, y.spaces[j])
    && (i in z.spaces ==> ApartFrom(z.spaces[i], y.spaces[j]) && ApartFrom(y.spaces[j], z.spaces[i]))
  }

  ghost predicate OthersKept(y: System, z: System, i: nat) {
    forall j :: j != i && j in y.spaces ==> Kept(y, z, i, j)
  }

  lemma StillGood(y: System, z: System, i: nat)
    requires Good(y) && OthersKept(y, z, i)
    requires forall j :: j in z.spaces && j != i ==> j in y.spaces
    requires i in z.spaces ==> SpaceOk(z.mem, z.free, z.spaces[i])
    ensures Good(z)
  {
    forall j | j in z.spaces ensures SpaceOk(z.mem, z.free, z.spaces[j]) { assert j != i ==> Kept(y, z, i, j); }
    forall j, k | j in z.spaces && k in z.spaces && j != k
      ensures ApartFrom(z.spaces[j], z.spaces[k])
    {
      StillApart(y, z, i, j, k);
    }
  }

  lemma StillApart(y: System, z: System, i: nat, j: nat, k: nat)
    requires Good(y) && OthersKept(y, z, i) && j in z.spaces && k in z.spaces && j != k
    requires j != i ==> j in y.spaces
    requires k != i ==> k in y.spaces
    ensures ApartFrom(z.spaces[j], z.spaces[k])
  {
    if j == i {
      assert Kept(y, z, i, k);
    } else if k == i {
      assert Kept(y, z, i, j);
    } else {
      assert Kept(y, z, i, j) && Kept(y, z, i, k);
      assert ApartFrom(y.spaces[j], y.spaces[k]);
    }
  }

  lemma ActIsolated(y: System, z: System, i: nat, j: nat)
    requires Good(y) && Acts(y, z, i) && j != i && j in y.spaces
    ensures Kept(y, z, i, j)
  {
    assert ApartFrom(y.spaces[i], y.spaces[j]) && ApartFrom(y.spaces[j], y.spaces[i]);
    Undisturbed(y.mem, y.free, y.spaces[i], z.mem, z.free, z.spaces[i], y.spaces[j]);
  }

  lemma EndIsolated(y: System, z: System, i: nat, j: nat)
    requires Good(y) && Ends(y, z, i) && j != i && j in y.spaces
    ensures Kept(y, z, i, j)
  {
    assert ApartFrom(y.spaces[i], y.spaces[j]);
    forall f: nat | Uses(y.spaces[j], f) ensures f !in z.free && At(z.mem, f) == At(y.mem, f) {
      UsedNotFree(y.mem, y.free, y.spaces[j], f);
    }
    SameFrames(y.mem, y.free, z.mem, z.free, y.spaces[j]);
  }

  /**
   * An address space built from free frames and the upper half of `x` disturbs neither `x` nor what is apart from it.
   */
  lemma BuiltApart(m: Mem, s: set<nat>, x: Space, n: Mem, t: set<nat>, y: Space, z: Space)
    requires BuiltFrom(m, s, x, n, t, y) && SpaceOk(m, s, z) && (z == x || ApartFrom(z, x))
    ensures SpaceOk(n, t, z) && SameSpaceView(m, n, z) && ApartFrom(y, z) && ApartFrom(z, y)
  {
    forall f: nat | Uses(z, f) ensures f !in t && At(n, f) == At(m, f) && !Owns(y, f) {
      UsedNotFree(m, s, z, f);
    }
    SameFrames(m, s, n, t, z);
    forall f: nat | Owns(z, f) ensures !Uses(y, f) {
      OwnsUses(z, f);
      UsedNotFree(m, s, z, f);
    }
  }

  lemma BeginIsolated(y: System, z: System, i: nat, from: nat, j: nat)
    requires Good(y) && Begins(y, z, i, from) && j != i && j in y.spaces
    ensures Kept(y, z, i, j)
  {
    assert j != from ==> ApartFrom(y.spaces[j], y.spaces[from]);
    BuiltApart(y.mem, y.free, y.spaces[from], z.mem, z.free, z.spaces[i], y.spaces[j]);
  }

  /** A run: each system follows from the one before by a step about the address space named beside it. */
  ghost predicate IsRun(run: seq<System>, who: seq<nat>) {
    |run| == |who| + 1 && forall k :: 0 <= k < |who| ==> Moves(run[k], run[k + 1], who[k])
  }

  /** In every run from a good system, an address space that no step was about is the same at the end, byte for byte. */
  lemma {:induction false} RunIsolated(run: seq<System>, who: seq<nat>, i: nat)
    requires IsRun(run, who) && Good(run[0]) && i in run[0].spaces && i !in who
    ensures Good(run[|who|]) && i in run[|who|].spaces && run[|who|].spaces[i] == run[0].spaces[i]
    ensures SameSpaceView(run[0].mem, run[|who|].mem, run[0].spaces[i])
    decreases |who|
  {
    if |who| > 0 {
      var k := |who| - 1;
      assert IsRun(run[..k + 1], who[..k]) by {
        forall j | 0 <= j < k ensures Moves(run[..k + 1][j], run[..k + 1][j + 1], who[..k][j]) {
          assert Moves(run[j], run[j + 1], who[j]);
        }
      }
      RunIsolated(run[..k + 1], who[..k], i);
      assert Moves(run[k], run[k + 1], who[k]);
      MoveIsolated(run[k], run[k + 1], who[k]);
      assert Kept(run[k], run[k + 1], who[k], i);
      ViewTrans(run[0].mem, run[k].mem, run[k + 1].mem, run[0].spaces[i]);
    }
  }

  lemma ViewTrans(m: Mem, n: Mem, o: Mem, x: Space)
    requires SameSpaceView(m, n, x) && SameSpaceView(n, o, x)
    ensures SameSpaceView(m, o, x)
  {
    forall a: nat ensures View(o, x.walks, x.areas, a) == View(m, x.walks, x.areas, a) {
      assert View(o, x.walks, x.areas, a) == View(n, x.walks, x.areas, a);
    }
  }
}
