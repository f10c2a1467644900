/** The pages and frames behind the areas of an address space, and what the teardown loops do to them. */
module UserMemory {
  import opened PhysMem
  import opened BuddyAllocator
  import opened PageTable
  import opened PageMaps
  import opened VmaList

  /** The attributes of page `n`. */
  function PageAttr(vs: seq<Vma>, n: nat): Option<Attr> {
    Lookup(vs, n * 4096)
  }

  /** The frame behind page `n` of an area, if the page has been touched. */
  ghost function UserFrame(walks: Walks, vs: seq<Vma>, n: nat): Option<nat> {
    if n < USER_PAGES && n in walks && walks[n].Small? && PageAttr(vs, n).Some? then Some(walks[n].frame) else None
  }

  /** The page-table permissions of an area. */
  function PageFlags(f: VmaFlags): Flags {
    Flags(f.write, true, !f.exec)
  }

  /** A touched area page is mapped with the permissions of its area. */
  ghost predicate RightPerms(walks: Walks, vs: seq<Vma>, n: nat) {
    UserFrame(walks, vs, n).Some? ==> walks[n].perms == PageFlags(PageAttr(vs, n).value.flags)
  }

  /** Ring 3 may read page `k`, and may write or execute it if and only if the flags say so. */
  ghost predicate AccessAs(m: Mem, root: nat, k: nat, f: VmaFlags) {
    && MayRead(m, root, k)
    && (MayWrite(m, root, k) <==> f.write)
    && (MayExecute(m, root, k) <==> f.exec)
  }

  predicate IsData(c: Cell) {
    c.Bytes? && |c.data| == 4096
  }

  ghost predicate GoodFrame(m: Mem, tabs: Tabs, free: set<nat>, f: nat) {
    f > 0 && f !in free && !IsTableFrame(tabs, f) && IsData(At(m, f))
  }

  /**
   * Touched pages of areas are backed by data frames that are neither free nor tables, each by a frame of its own and
   * with the permissions of the area, and no area page lies inside a 2 MB page.
   */
  ghost predicate Backed(m: Mem, walks: Walks, tabs: Tabs, vs: seq<Vma>, free: set<nat>) {
    && (forall n: nat :: n < USER_PAGES && PageAttr(vs, n).Some? ==> n in walks && !walks[n].Huge?)
    && (forall n: nat :: UserFrame(walks, vs, n).Some? ==> GoodFrame(m, tabs, free, UserFrame(walks, vs, n).value))
    && (forall n: nat :: RightPerms(walks, vs, n))
    && OneEach(walks, vs)
  }

  /** No frame backs two pages. */
  ghost predicate OneEach(walks: Walks, vs: seq<Vma>) {
    forall n: nat, k: nat :: UserFrame(walks, vs, n).Some? ==>
      UserFrame(walks, vs, n) == UserFrame(walks, vs, k) ==> n == k
  }

  /** Frame `f` backs one of the pages from `lo` to `hi`. */
  ghost predicate Backs(walks: Walks, vs: seq<Vma>, lo: nat, hi: nat, f: nat) {
    exists n: nat :: lo <= n < hi && UserFrame(walks, vs, n) == Some(f)
  }

  /** `walks` with the pages from `lo` to `hi` unmapped. */
  ghost function Zap(walks: Walks, lo: nat, hi: nat): Walks {
    imap n | n in walks :: if lo <= n < hi then Unmapped else walks[n]
  }

  /** `t` is `s` together with the frames that backed the pages from `lo` to `hi`. */
  ghost predicate Reclaimed(s: set<nat>, t: set<nat>, walks: Walks, vs: seq<Vma>, lo: nat, hi: nat) {
    forall f: nat :: f in t <==> f in s || Backs(walks, vs, lo, hi, f)
  }

  /** One page unmapped and its frame freed, in whichever order. */
  lemma ReleaseOne(m: Mem, s: set<nat>, n: Mem, t: set<nat>, walks: Walks, tabs: Tabs, vs: seq<Vma>, k: nat)
    requires Backed(m, walks, tabs, vs, s) && k in walks && WrittenOnly(m, n, tabs, t)
    requires match UserFrame(walks, vs, k) case None => t == s case Some(f) => t == s + {f}
    ensures Zap(walks, k, k + 1) == walks[k := Unmapped] && Backed(n, Zap(walks, k, k + 1), tabs, vs, t)
    ensures Reclaimed(s, t, walks, vs, k, k + 1)
  {
    assert Zap(walks, k, k + 1) == walks[k := Unmapped];
    forall f: nat ensures f in t <==> f in s || Backs(walks, vs, k, k + 1, f) {
      assert UserFrame(walks, vs, k) == Some(f) ==> Backs(walks, vs, k, k + 1, f);
    }
    StillBacked(m, s, n, t, walks, tabs, vs, k, k + 1);
  }

  /** Page `k` can be released: it belongs to an area, or it is not mapped at all. */
  ghost predicate Releasable(walks: Walks, vs: seq<Vma>, k: nat) {
    k in walks && (PageAttr(vs, k).Some? || walks[k] == Unmapped)
  }

  /** `next` is `walks` with the pages from `lo` to `hi` unmapped, page by page. */
  ghost predicate Zapped(walks: Walks, next: Walks, lo: nat, hi: nat) {
    forall n: nat ::
      (n in next <==> n in walks) && (n in walks ==> next[n] == if lo <= n < hi then Unmapped else walks[n])
  }

  lemma ZapIs(walks: Walks, next: Walks, lo: nat, hi: nat)
    requires Zapped(walks, next, lo, hi)
    ensures next == Zap(walks, lo, hi)
  {
    var z := Zap(walks, lo, hi);
    forall n: nat ensures n in next <==> n in z {}
    forall n: nat | n in next ensures next[n] == z[n] {}
  }

  lemma ZapFrames(walks: Walks, vs: seq<Vma>, lo: nat, hi: nat, n: nat)
    ensures UserFrame(Zap(walks, lo, hi), vs, n) == if lo <= n < hi then None else UserFrame(walks, vs, n)
  {
  }

  lemma StillBacked(m: Mem, s: set<nat>, n: Mem, t: set<nat>, walks: Walks, tabs: Tabs, vs: seq<Vma>, lo: nat, hi: nat)
    requires Backed(m, walks, tabs, vs, s) && Reclaimed(s, t, walks, vs, lo, hi) && WrittenOnly(m, n, tabs, t)
    ensures Backed(n, Zap(walks, lo, hi), tabs, vs, t)
  {
    var next := Zap(walks, lo, hi);
    forall j: nat ensures UserFrame(next, vs, j) == if lo <= j < hi then None else UserFrame(walks, vs, j) {
      ZapFrames(walks, vs, lo, hi, j);
    }
    forall j: nat | UserFrame(next, vs, j).Some? ensures GoodFrame(n, tabs, t, UserFrame(next, vs, j).value) {
      var f := UserFrame(next, vs, j).value;
      assert UserFrame(walks, vs, j) == Some(f) && GoodFrame(m, tabs, s, f);
      assert !Backs(walks, vs, lo, hi, f);
      assert !IsOwnTable(tabs, f);
    }
    forall j: nat ensures RightPerms(next, vs, j) { assert RightPerms(walks, vs, j); }
  }

  lemma ReclaimedTrans(s: set<nat>, t: set<nat>, u: set<nat>, walks: Walks, vs: seq<Vma>, lo: nat, mid: nat, hi: nat)
    requires Reclaimed(s, t, walks, vs, lo, mid) && Reclaimed(t, u, Zap(walks, lo, mid), vs, mid, hi) && lo <= mid <= hi
    ensures Reclaimed(s, u, walks, vs, lo, hi) && t <= u
  {
    var next := Zap(walks, lo, mid);
    forall j: nat ensures UserFrame(next, vs, j) == if lo <= j < mid then None else UserFrame(walks, vs, j) {
      ZapFrames(walks, vs, lo, mid, j);
    }
    forall f: nat ensures Backs(walks, vs, lo, hi, f) <==> Backs(walks, vs, lo, mid, f) || Backs(next, vs, mid, hi, f) {
      if Backs(walks, vs, lo, hi, f) {
        var j: nat :| lo <= j < hi && UserFrame(walks, vs, j) == Some(f);
        assert j >= mid ==> UserFrame(next, vs, j) == Some(f);
      }
      if Backs(next, vs, mid, hi, f) {
        var j: nat :| mid <= j < hi && UserFrame(next, vs, j) == Some(f);
        assert UserFrame(walks, vs, j) == Some(f);
      }
    }
  }

  /** The pages from `lo` to `hi` were unmapped and their frames freed; nothing outside was written. */
  ghost predicate Released(m: Mem, s: set<nat>, walks: Walks, n: Mem, t: set<nat>, next: Walks, tabs: Tabs,
                           vs: seq<Vma>, lo: nat, hi: nat)
  {
    Zapped(walks, next, lo, hi) && Reclaimed(s, t, walks, vs, lo, hi) && WrittenOnly(m, n, tabs, t)
  }

  lemma ReleasedNothing(m: Mem, s: set<nat>, walks: Walks, tabs: Tabs, vs: seq<Vma>, lo: nat)
    ensures Released(m, s, walks, m, s, walks, tabs, vs, lo, lo)
  {
    assert Zap(walks, lo, lo) == walks;
  }

  lemma ReleasedTrans(m: Mem, s: set<nat>, w: Walks, n: Mem, t: set<nat>, x: Walks, o: Mem, u: set<nat>, y: Walks,
                      tabs: Tabs, vs: seq<Vma>, lo: nat, mid: nat, hi: nat)
    requires Released(m, s, w, n, t, x, tabs, vs, lo, mid) && Released(n, t, x, o, u, y, tabs, vs, mid, hi)
    requires lo <= mid <= hi
    ensures Released(m, s, w, o, u, y, tabs, vs, lo, hi)
  {
    ZapIs(w, x, lo, mid);
    ReclaimedTrans(s, t, u, w, vs, lo, mid, hi);
  }

  // ---------- Releasing only the pages that areas own ----------

  /** The area pages from `lo` to `hi` are unmapped; other pages are as they were. */
  ghost predicate Punched(walks: Walks, next: Walks, vs: seq<Vma>, lo: nat, hi: nat) {
    forall n: nat :: (n in next <==> n in walks) &&
      (n in walks ==> next[n] == if lo <= n < hi && PageAttr(vs, n).Some? then Unmapped else walks[n])
  }

  ghost predicate PunchedOut(m: Mem, s: set<nat>, walks: Walks, n: Mem, t: set<nat>, next: Walks, tabs: Tabs,
                             vs: seq<Vma>, lo: nat, hi: nat)
  {
    Punched(walks, next, vs, lo, hi) && Reclaimed(s, t, walks, vs, lo, hi) && WrittenOnly(m, n, tabs, t)
  }

  ghost predicate NoAreaPages(vs: seq<Vma>, lo: nat, hi: nat) {
    forall n: nat :: lo <= n < hi ==> PageAttr(vs, n).None?
  }

  lemma PunchedNothing(m: Mem, s: set<nat>, walks: Walks, tabs: Tabs, vs: seq<Vma>, lo: nat)
    ensures PunchedOut(m, s, walks, m, s, walks, tabs, vs, lo, lo)
  {
  }

  /** Pages outside the areas make no difference. */
  lemma SkipGap(m: Mem, s: set<nat>, w: Walks, n: Mem, t: set<nat>, x: Walks, tabs: Tabs, vs: seq<Vma>, lo: nat,
                mid: nat, hi: nat)
    requires PunchedOut(m, s, w, n, t, x, tabs, vs, lo, mid) && NoAreaPages(vs, mid, hi) && mid <= hi
    ensures PunchedOut(m, s, w, n, t, x, tabs, vs, lo, hi)
  {
    forall f: nat ensures Backs(w, vs, lo, hi, f) <==> Backs(w, vs, lo, mid, f) {
      if Backs(w, vs, lo, hi, f) {
        var j: nat :| lo <= j < hi && UserFrame(w, vs, j) == Some(f);
        assert lo <= j < mid && UserFrame(w, vs, j) == Some(f);
      }
    }
  }

  lemma PunchMore(m: Mem, s: set<nat>, w: Walks, n: Mem, t: set<nat>, x: Walks, o: Mem, u: set<nat>, y: Walks,
                  tabs: Tabs, vs: seq<Vma>, lo: nat, mid: nat, hi: nat)
    requires PunchedOut(m, s, w, n, t, x, tabs, vs, lo, mid) && Released(n, t, x, o, u, y, tabs, vs, mid, hi)
    requires lo <= mid <= hi && forall n: nat :: mid <= n < hi ==> PageAttr(vs, n).Some?
    ensures PunchedOut(m, s, w, o, u, y, tabs, vs, lo, hi)
  {
    forall j: nat ensures UserFrame(x, vs, j) == if lo <= j < mid then None else UserFrame(w, vs, j) {}
    forall f: nat ensures Backs(w, vs, lo, hi, f) <==> Backs(w, vs, lo, mid, f) || Backs(x, vs, mid, hi, f) {
      if Backs(w, vs, lo, hi, f) {
        var j: nat :| lo <= j < hi && UserFrame(w, vs, j) == Some(f);
        assert j >= mid ==> UserFrame(x, vs, j) == Some(f);
      }
      if Backs(x, vs, mid, hi, f) {
        var j: nat :| mid <= j < hi && UserFrame(x, vs, j) == Some(f);
        assert UserFrame(w, vs, j) == Some(f);
      }
    }
  }

  /** Backing survives the loss of areas. */
  lemma BackedSubset(m: Mem, walks: Walks, tabs: Tabs, vs: seq<Vma>, ws: seq<Vma>, free: set<nat>)
    requires Backed(m, walks, tabs, vs, free)
    requires forall n: nat :: n < USER_PAGES && PageAttr(ws, n).Some? ==> PageAttr(vs, n) == PageAttr(ws, n)
    ensures Backed(m, walks, tabs, ws, free)
  {
    forall n: nat | UserFrame(walks, ws, n).Some? ensures UserFrame(walks, vs, n) == UserFrame(walks, ws, n) {}
    forall n: nat ensures RightPerms(walks, ws, n) { assert RightPerms(walks, vs, n); }
  }

  // ---------- Nothing stale is mapped ----------

  /** The pages of the user half that the kernel maps for itself: its own image, from `first` to `last`. */
  datatype Image = Image(first: nat, last: nat) {
    predicate Has(n: nat) { first <= n < last }
    predicate Avoids(lo: nat, hi: nat) { hi <= first || last <= lo || last <= first }
  }

  /** A user page that belongs neither to an area nor to the image is not mapped, and no area reaches into the image. */
  ghost predicate Tidy(walks: Walks, vs: seq<Vma>, image: Image) {
    && (forall n: nat :: n < USER_PAGES && PageAttr(vs, n).None? && !image.Has(n) ==>
          n in walks && walks[n] == Unmapped)
    && NoAreaPages(vs, image.first, image.last)
  }

  /** Removing from the list areas whose pages are unmapped, or mapping area pages, leaves nothing stale. */
  lemma TidyAfter(walks: Walks, next: Walks, vs: seq<Vma>, ws: seq<Vma>, image: Image)
    requires Tidy(walks, vs, image)
    requires forall n: nat :: n in walks ==> n in next
    requires forall n: nat :: PageAttr(ws, n).Some? ==> PageAttr(vs, n).Some?
    requires forall n: nat :: n < USER_PAGES && PageAttr(vs, n).Some? && PageAttr(ws, n).None? ==>
      n in next && next[n] == Unmapped
    requires forall n: nat :: n in walks && PageAttr(vs, n).None? ==> next[n] == walks[n] || next[n] == Unmapped
    ensures Tidy(next, ws, image)
  {
  }

  /** So does a new area that keeps off the image. */
  lemma TidyArea(walks: Walks, vs: seq<Vma>, ws: seq<Vma>, image: Image, lo: nat, hi: nat)
    requires Tidy(walks, vs, image) && image.Avoids(lo, hi)
    requires forall n: nat :: !(lo <= n < hi) ==> PageAttr(ws, n) == PageAttr(vs, n)
    requires forall n: nat :: lo <= n < hi ==> PageAttr(ws, n).Some?
    ensures Tidy(walks, ws, image)
  {
  }

  lemma TidyUnmapped(walks: Walks, vs: seq<Vma>, image: Image, lo: nat, hi: nat)
    requires Tidy(walks, vs, image) && image.Avoids(lo, hi) && hi <= USER_PAGES && NoAreaPages(vs, lo, hi)
    ensures forall n: nat :: lo <= n < hi ==> n in walks && walks[n] == Unmapped
  {
  }

  /** A new area over unmapped pages is backed, with nothing touched yet. */
  lemma NewAreaBacked(m: Mem, walks: Walks, tabs: Tabs, vs: seq<Vma>, ws: seq<Vma>, free: set<nat>, lo: nat, hi: nat)
    requires Backed(m, walks, tabs, vs, free)
    requires forall n: nat :: lo <= n < hi ==> n in walks && walks[n] == Unmapped
    requires forall n: nat :: !(lo <= n < hi) ==> PageAttr(ws, n) == PageAttr(vs, n)
    ensures Backed(m, walks, tabs, ws, free)
    ensures forall n: nat :: UserFrame(walks, ws, n) == if lo <= n < hi then None else UserFrame(walks, vs, n)
  {
    forall n: nat ensures UserFrame(walks, ws, n) == if lo <= n < hi then None else UserFrame(walks, vs, n) {}
    forall n: nat ensures RightPerms(walks, ws, n) { assert RightPerms(walks, vs, n); }
  }

  // ---------- What a process sees ----------

  /** The byte at address `a`: that of its frame, 0 while its page is untouched, and none outside the areas. */
  ghost function View(m: Mem, walks: Walks, vs: seq<Vma>, a: nat): Option<byte> {
    if PageAttr(vs, a / 4096).None? then None
    else match UserFrame(walks, vs, a / 4096)
    case None => Some(0)
    case Some(f) => if IsData(At(m, f)) then Some(At(m, f).data[a % 4096]) else None
  }

  ghost predicate SameView(m: Mem, walks: Walks, n: Mem, next: Walks, vs: seq<Vma>) {
    forall a: nat :: View(n, next, vs, a) == View(m, walks, vs, a)
  }

  /** No page with an address from `lo` to `hi` is mapped on behalf of anyone but an area. */
  ghost predicate OwnBytes(walks: Walks, vs: seq<Vma>, lo: nat, hi: nat) {
    forall k: nat :: lo < 4096 * k + 4096 && 4096 * k < hi && lo < hi ==> Releasable(walks, vs, k)
  }

  const ZEROES: seq<byte> := seq(4096, _ => 0)

  /**
   * A page `f` leaves the free set, is filled and becomes the frame of page `k`: areas stay backed by frames of
   * their own, and the other pages keep their frames and contents.
   */
  lemma FrameAdded(m: Mem, s: set<nat>, m1: Mem, f: nat, n: Mem, t: set<nat>, walks: Walks, tabs: Tabs, next: Tabs,
                   vs: seq<Vma>, k: nat, flags: Flags, data: seq<byte>)
    requires PageAttr(vs, k).Some? ==> flags == PageFlags(PageAttr(vs, k).value.flags)
    requires Backed(m, walks, tabs, vs, s) && NoneFree(tabs, s) && f > 0 && f in s && SameExcept(m, m1, s)
    requires At(m1, f) == Bytes(data) && |data| == 4096
    requires Grown(tabs, s - {f}, next, t) && WrittenOnly(m1, n, tabs, s - {f})
    requires k < USER_PAGES && k in walks && walks[k] == Unmapped
    ensures Backed(n, walks[k := Small(f, flags)], next, vs, t) && At(n, f) == Bytes(data)
    ensures forall j: nat ::
      UserFrame(walks[k := Small(f, flags)], vs, j) ==
      if j == k && PageAttr(vs, k).Some? then Some(f) else UserFrame(walks, vs, j)
    ensures forall j: nat :: UserFrame(walks, vs, j).Some? ==>
      At(n, UserFrame(walks, vs, j).value) == At(m, UserFrame(walks, vs, j).value)
  {
    var w := walks[k := Small(f, flags)];
    NewFrame(s, m1, f, n, t, tabs, next, data);
    forall j: nat
      ensures UserFrame(w, vs, j) == if j == k && PageAttr(vs, k).Some? then Some(f) else UserFrame(walks, vs, j)
    {
    }
    forall j: nat | UserFrame(walks, vs, j).Some?
      ensures var g := UserFrame(walks, vs, j).value; g != f && GoodFrame(n, next, t, g) && At(n, g) == At(m, g)
    {
      KeptFrame(m, s, m1, s - {f}, n, t, tabs, next, UserFrame(walks, vs, j).value);
    }
    forall j: nat ensures RightPerms(w, vs, j) { assert RightPerms(walks, vs, j); }
  }

  /** Page `k` reads as `bytes`, every other address as before. */
  ghost predicate PageFilled(m: Mem, walks: Walks, n: Mem, next: Walks, vs: seq<Vma>, k: nat, bytes: seq<byte>)
    requires |bytes| == 4096
  {
    forall a: nat ::
      View(n, next, vs, a) ==
      if 4096 * k <= a < 4096 * k + 4096 then Some(bytes[a - 4096 * k]) else View(m, walks, vs, a)
  }

  lemma PageSplit(k: nat, c: nat)
    ensures c / 4096 == k <==> 4096 * k <= c < 4096 * k + 4096
    ensures c / 4096 == k ==> c % 4096 == c - 4096 * k
  {
  }

  lemma FilledView(m: Mem, n: Mem, walks: Walks, next: Walks, vs: seq<Vma>, k: nat, f: nat, bytes: seq<byte>)
    requires UserFrame(walks, vs, k).None? && At(n, f) == Bytes(bytes) && |bytes| == 4096 && PageAttr(vs, k).Some?
    requires forall j: nat :: UserFrame(next, vs, j) == if j == k then Some(f) else UserFrame(walks, vs, j)
    requires forall j: nat :: UserFrame(walks, vs, j).Some? ==>
      At(n, UserFrame(walks, vs, j).value) == At(m, UserFrame(walks, vs, j).value)
    ensures PageFilled(m, walks, n, next, vs, k, bytes)
  {
    forall a: nat
      ensures View(n, next, vs, a) ==
        if 4096 * k <= a < 4096 * k + 4096 then Some(bytes[a - 4096 * k]) else View(m, walks, vs, a)
    {
      PageSplit(k, a);
      assert UserFrame(next, vs, a / 4096) == UserFrame(walks, vs, a / 4096) || a / 4096 == k;
    }
  }

  /** A zeroed frame behind an untouched page changes no byte. */
  lemma ZeroPageInvisible(m: Mem, n: Mem, walks: Walks, next: Walks, vs: seq<Vma>, k: nat)
    requires UserFrame(walks, vs, k).None? && PageAttr(vs, k).Some? && PageFilled(m, walks, n, next, vs, k, ZEROES)
    ensures SameView(m, walks, n, next, vs)
  {
    forall a: nat ensures View(n, next, vs, a) == View(m, walks, vs, a) { PageSplit(k, a); }
  }

  /** A frame taken from the free pages and filled is good, whatever tables were added meanwhile. */
  lemma NewFrame(s: set<nat>, m1: Mem, f: nat, n: Mem, t: set<nat>, tabs: Tabs, next: Tabs, data: seq<byte>)
    requires NoneFree(tabs, s) && f > 0 && f in s && At(m1, f) == Bytes(data) && |data| == 4096
    requires Grown(tabs, s - {f}, next, t) && WrittenOnly(m1, n, tabs, s - {f})
    ensures GoodFrame(n, next, t, f) && At(n, f) == Bytes(data)
  {
    assert !IsOwnTable(tabs, f);
  }

  /** Tables taken from the free pages `s1` and writes to them leave every other frame good. */
  lemma KeptFrame(m: Mem, s: set<nat>, m1: Mem, s1: set<nat>, n: Mem, t: set<nat>, tabs: Tabs, next: Tabs, g: nat)
    requires GoodFrame(m, tabs, s, g) && s1 <= s && SameExcept(m, m1, s)
    requires Grown(tabs, s1, next, t) && WrittenOnly(m1, n, tabs, s1)
    ensures g !in s && GoodFrame(n, next, t, g) && At(n, g) == At(m, g)
  {
    assert !IsOwnTable(tabs, g) by { if q :| q in tabs && Low(q) && tabs[q] == g { assert IsTableFrame(tabs, g); } }
  }

  /** A mapping outside the areas, or one that fails, leaves the areas and their bytes as before. */
  lemma MappedElsewhere(m: Mem, s: set<nat>, m1: Mem, s1: set<nat>, n: Mem, t: set<nat>, walks: Walks, w: Walks,
                        tabs: Tabs, next: Tabs, vs: seq<Vma>)
    requires Backed(m, walks, tabs, vs, s) && s1 <= s && SameExcept(m, m1, s)
    requires Grown(tabs, s1, next, t) && WrittenOnly(m1, n, tabs, s1)
    requires forall j: nat :: j in walks && PageAttr(vs, j).Some? ==> j in w && w[j] == walks[j]
    ensures Backed(n, w, next, vs, t) && SameView(m, walks, n, w, vs)
    ensures forall j: nat :: UserFrame(w, vs, j) == UserFrame(walks, vs, j)
    ensures forall j: nat :: UserFrame(walks, vs, j).Some? ==>
      At(n, UserFrame(walks, vs, j).value) == At(m, UserFrame(walks, vs, j).value)
  {
    forall j: nat ensures UserFrame(w, vs, j) == UserFrame(walks, vs, j) {
      assert j < USER_PAGES && PageAttr(vs, j).Some? ==> j in walks;
    }
    forall j: nat | UserFrame(walks, vs, j).Some?
      ensures var g := UserFrame(walks, vs, j).value; GoodFrame(n, next, t, g) && At(n, g) == At(m, g)
    {
      KeptFrame(m, s, m1, s1, n, t, tabs, next, UserFrame(walks, vs, j).value);
    }
    forall j: nat ensures RightPerms(w, vs, j) { assert RightPerms(walks, vs, j); }
    forall a: nat ensures View(n, w, vs, a) == View(m, walks, vs, a) {
      assert UserFrame(w, vs, a / 4096) == UserFrame(walks, vs, a / 4096);
    }
  }
}
