/** The memory part of fork: the child gets the same areas and its own copy of every touched page. */
module Fork {
  import Bits
  import BuddyBlocks
  import opened PhysMem
  import opened BuddyAllocator
  import opened PageTable
  import opened Paging
  import opened PageMaps
  import opened VmaList
  import opened UserMemory
  import opened Isolation
  import opened UpperHalf
  import opened ForkCost
  import opened Spaces = AddressSpace

  /** Page `n` is untouched in both walks, or touched in both with the same bytes. */
  ghost predicate PageCopied(m: Mem, from: Walks, to: Walks, vs: seq<Vma>, n: nat) {
    match UserFrame(from, vs, n)
    case None => UserFrame(to, vs, n).None?
    case Some(f) => UserFrame(to, vs, n).Some? && At(m, UserFrame(to, vs, n).value) == At(m, f)
  }

  /** The pages below `hi` are copied; from there on the lower half is still empty. */
  ghost predicate Copied(m: Mem, from: Walks, to: Walks, vs: seq<Vma>, hi: nat) {
    && (forall n: nat :: n < hi ==> PageCopied(m, from, to, vs, n))
    && (forall n: nat :: n < USER_PAGES ==> n in to && !to[n].Huge?)
    && (forall n: nat :: hi <= n < USER_PAGES ==> to[n] == Unmapped)
  }

  /**
   * A fork that began in memory `m0` with free pages `s0` has copied the pages below `hi`: both address spaces are
   * sound and apart, the parent reads as it did, and the child was built from free frames and `kernel`'s upper half.
   */
  ghost predicate Forking(m0: Mem, s0: set<nat>, kernel: Space, m: Mem, s: set<nat>, child: Space, parent: Space,
                          hi: nat, image: Image)
  {
    && SpaceOk(m, s, child) && SpaceOk(m, s, parent) && child.areas == parent.areas
    && ApartFrom(child, parent) && ApartFrom(parent, child)
    && Copied(m, parent.walks, child.walks, parent.areas, hi) && Tidy(child.walks, child.areas, image)
    && SameSpaceView(m0, m, parent) && BuiltFrom(m0, s0, kernel, m, s, child) && SpentOn(s0, s, child)
  }

  lemma BuiltOn(m: Mem, s: set<nat>, kernel: Space, n: Mem, t: set<nat>, x: Space, o: Mem, u: set<nat>, y: Space)
    requires BuiltFrom(m, s, kernel, n, t, x) && Confined(n, t, x, o, u, y)
    ensures BuiltFrom(m, s, kernel, o, u, y)
  {
  }

  /** Frame `f` of the free pages was filled like frame `g` of the parent and mapped at the child's page `k`. */
  ghost predicate CopyMade(m: Mem, s: set<nat>, m1: Mem, f: nat, n: Mem, t: set<nat>, x: Space, y: Space, k: nat,
                           g: nat, flags: Flags)
  {
    && f > 0 && f in s && SameExcept(m, m1, s) && At(m1, f) == At(m, g)
    && Grown(x.tabs, s - {f}, y.tabs, t) && WrittenOnly(m1, n, x.tabs, s - {f})
    && y == Space(x.root, x.walks[k := Small(f, flags)], y.tabs, x.areas) && Shows(n, y.root, y.walks, y.tabs, t)
  }

  lemma ChildGrows(m: Mem, s: set<nat>, m1: Mem, f: nat, n: Mem, t: set<nat>, x: Space, y: Space, k: nat, g: nat,
                   flags: Flags)
    requires SpaceOk(m, s, x) && CopyMade(m, s, m1, f, n, t, x, y, k, g, flags) && IsData(At(m, g))
    requires k < USER_PAGES && k in x.walks && x.walks[k] == Unmapped && PageAttr(x.areas, k).Some?
    requires flags == PageFlags(PageAttr(x.areas, k).value.flags)
    ensures SpaceOk(n, t, y) && Confined(m, s, x, n, t, y) && Conserved(s, x, t, y) && At(n, f) == At(m, g)
    ensures forall j: nat ::
      UserFrame(y.walks, x.areas, j) == if j == k then Some(f) else UserFrame(x.walks, x.areas, j)
    ensures forall j: nat :: UserFrame(x.walks, x.areas, j).Some? ==>
      At(n, UserFrame(x.walks, x.areas, j).value) == At(m, UserFrame(x.walks, x.areas, j).value)
  {
    FrameAdded(m, s, m1, f, n, t, x.walks, x.tabs, y.tabs, x.areas, k, flags, At(m, g).data);
    GrowConfined(m, s, m1, s - {f}, n, t, x, y);
    GrowConserved(s, f, x, t, y, k);
  }

  /** A confined step of the child leaves the contents of every parent frame. */
  lemma ParentFrames(m: Mem, s: set<nat>, x: Space, n: Mem, t: set<nat>, y: Space, z: Space, j: nat)
    requires Confined(m, s, x, n, t, y) && SpaceOk(m, s, z) && ApartFrom(x, z) && UserFrame(z.walks, z.areas, j).Some?
    ensures At(n, UserFrame(z.walks, z.areas, j).value) == At(m, UserFrame(z.walks, z.areas, j).value)
  {
    var f := UserFrame(z.walks, z.areas, j).value;
    assert Holds(z, f) by { assert 0 <= j < USER_PAGES; }
    UsedNotFree(m, s, z, f);
  }

  lemma CopiedNext(m: Mem, n: Mem, f: nat, from: Walks, to: Walks, next: Walks, vs: seq<Vma>, k: nat, flags: Flags)
    requires Copied(m, from, to, vs, k) && UserFrame(from, vs, k).Some?
    requires At(n, f) == At(m, UserFrame(from, vs, k).value)
    requires next == to[k := Small(f, flags)]
    requires forall j: nat :: UserFrame(next, vs, j) == if j == k then Some(f) else UserFrame(to, vs, j)
    requires forall j: nat :: UserFrame(to, vs, j).Some? ==>
      At(n, UserFrame(to, vs, j).value) == At(m, UserFrame(to, vs, j).value)
    requires forall j: nat :: UserFrame(from, vs, j).Some? ==>
      At(n, UserFrame(from, vs, j).value) == At(m, UserFrame(from, vs, j).value)
    ensures Copied(n, from, next, vs, k + 1)
  {
    forall j: nat | j < k + 1 ensures PageCopied(n, from, next, vs, j) {
      assert j < k ==> PageCopied(m, from, to, vs, j);
    }
  }

  /** One touched page copied. */
  lemma CopyStep(m0: Mem, s0: set<nat>, kernel: Space, m: Mem, s: set<nat>, m1: Mem, f: nat, n: Mem, t: set<nat>,
                 x: Space, y: Space, z: Space, k: nat, flags: Flags, image: Image)
    requires Forking(m0, s0, kernel, m, s, x, z, k, image) && k < USER_PAGES && UserFrame(z.walks, z.areas, k).Some?
    requires CopyMade(m, s, m1, f, n, t, x, y, k, UserFrame(z.walks, z.areas, k).value, flags)
    requires flags == PageFlags(PageAttr(z.areas, k).value.flags)
    ensures Forking(m0, s0, kernel, n, t, y, z, k + 1, image)
  {
    var g := UserFrame(z.walks, z.areas, k).value;
    assert GoodFrame(m, z.tabs, s, g);
    ChildGrows(m, s, m1, f, n, t, x, y, k, g, flags);
    Undisturbed(m, s, x, n, t, y, z);
    ViewTrans(m0, m, n, z);
    BuiltOn(m0, s0, kernel, m, s, x, n, t, y);
    forall j: nat | UserFrame(z.walks, z.areas, j).Some?
      ensures At(n, UserFrame(z.walks, z.areas, j).value) == At(m, UserFrame(z.walks, z.areas, j).value)
    {
      ParentFrames(m, s, x, n, t, y, z, j);
    }
    CopiedNext(m, n, f, z.walks, x.walks, y.walks, z.areas, k, flags);
    TidyAfter(x.walks, y.walks, x.areas, y.areas, image);
  }

  /** Pages that are untouched in the parent, or belong to no area, need no copy. */
  lemma CopySkip(m0: Mem, s0: set<nat>, kernel: Space, m: Mem, s: set<nat>, x: Space, z: Space, k: nat, hi: nat,
                 image: Image)
    requires Forking(m0, s0, kernel, m, s, x, z, k, image) && k <= hi <= USER_PAGES
    requires forall n: nat :: k <= n < hi ==> UserFrame(z.walks, z.areas, n).None?
    ensures Forking(m0, s0, kernel, m, s, x, z, hi, image)
  {
  }

  /** When everything is copied, the child reads at every address what the parent reads. */
  lemma CopiedView(m: Mem, from: Walks, to: Walks, vs: seq<Vma>)
    requires Copied(m, from, to, vs, USER_PAGES)
    ensures SameView(m, from, m, to, vs)
  {
    forall a: nat ensures View(m, to, vs, a) == View(m, from, vs, a) {
      assert a / 4096 < USER_PAGES ==> PageCopied(m, from, to, vs, a / 4096);
    }
  }

  lemma NewChild(m: Mem, s: set<nat>, kernel: Space, n: Mem, t: set<nat>, x: Space, z: Space, image: Image)
    requires SpaceOk(m, s, z) && ApartFrom(z, kernel) && BuiltFrom(m, s, kernel, n, t, x) && SpentOn(s, t, x)
    requires x == NewSpace(x.root, kernel) && SpaceOk(n, t, x) && NoAreaPages(z.areas, image.first, image.last)
    ensures Forking(m, s, kernel, n, t, x.(areas := z.areas), z, 0, image)
  {
    var y := x.(areas := z.areas);
    BuiltApart(m, s, kernel, n, t, x, z);
    forall k: nat | k < USER_PAGES ensures k in x.walks && x.walks[k] == Unmapped { assert IsPage(k); }
    UntouchedAreas(n, t, x, y);
    EmptyLowCopied(n, z.walks, y.walks, z.areas, image);
  }

  lemma NewChildPaid(s: set<nat>, kernel: Space, n: Mem, t: set<nat>, x: Space, z: Space, first: nat)
    requires SpentOn(s, t, x) && x == NewSpace(x.root, kernel) && SpaceOk(n, t, x)
    ensures Settled(s, t, x.tabs, z, 0, first, first)
  {
    OwnsRootOnly(x.root, kernel);
    RootOwned(n, t, x);
    assert s == t + {x.root};
    RootPaid(s, t, x.tabs, x.root, z, first);
  }

  /** While the lower half is unmapped, it makes no difference which areas are there. */
  lemma UntouchedAreas(n: Mem, t: set<nat>, x: Space, y: Space)
    requires SpaceOk(n, t, x) && y == x.(areas := y.areas)
    requires forall k: nat :: k < USER_PAGES ==> k in x.walks && x.walks[k] == Unmapped
    ensures SpaceOk(n, t, y) && forall f: nat :: (Owns(y, f) <==> Owns(x, f)) && (Uses(y, f) <==> Uses(x, f))
  {
    forall k: nat ensures UserFrame(y.walks, y.areas, k).None? && UserFrame(x.walks, x.areas, k).None? {}
    forall f: nat ensures !Holds(y, f) && !Holds(x, f) {}
  }

  lemma {:induction false} PrefixLookup(vs: seq<Vma>, i: nat, a: nat)
    requires i < |vs| && Sorted(vs)
    ensures Lookup(vs[..i + 1], a) == if vs[i].Contains(a) then Some(vs[i].attr) else Lookup(vs[..i], a)
  {
    if vs[i].Contains(a) {
      LookupAt(vs[..i + 1], i, a);
    } else {
      if Lookup(vs[..i + 1], a).Some? {
        var j := LookupFound(vs[..i + 1], a);
        LookupAt(vs[..i], j, a);
      } else if Lookup(vs[..i], a).Some? {
        var j := LookupFound(vs[..i], a);
        LookupAt(vs[..i + 1], j, a);
      }
    }
  }

  /** Adding the areas of a canonical list in order never fails and rebuilds the list. */
  lemma PrefixAdded(vs: seq<Vma>, i: nat, ws: seq<Vma>)
    requires Canonical(vs) && i < |vs| && Canonical(ws) && Overlaid(vs[..i], ws, vs[i])
    ensures ws == vs[..i + 1]
  {
    forall a: nat ensures Lookup(ws, a) == Lookup(vs[..i + 1], a) { PrefixLookup(vs, i, a); }
    CanonicalUnique(ws, vs[..i + 1]);
  }

  lemma PrefixVacant(vs: seq<Vma>, i: nat)
    requires Canonical(vs) && i < |vs|
    ensures Canonical(vs[..i]) && Vacant(vs[..i], vs[i].start, vs[i].end)
  {
    forall a: nat | vs[i].Contains(a) ensures Lookup(vs[..i], a).None? {
      forall j | 0 <= j < i ensures !vs[..i][j].Contains(a) { assert vs[j].end <= vs[i].start; }
      LookupNone(vs[..i], a);
    }
  }

  /** The child so far, with the areas of `z`, which is what the parent stands for. */
  ghost function ChildSpace(child: AddressSpace, z: Space): Space
    reads child`walks, child`tabs
  {
    Space(child.pageTable.pml4, child.walks, child.tabs, z.areas)
  }

  ghost predicate ForkState(m0: Mem, s0: set<nat>, kernel: Space, alloc: Buddy, child: AddressSpace, z: Space, hi: nat)
    reads child`walks, child`tabs, alloc, alloc.mem
  {
    && alloc.Valid() && child.pageTable.mem == alloc.mem
    && Forking(m0, s0, kernel, alloc.mem.cells, alloc.free, ChildSpace(child, z), z, hi, child.image)
  }

  /** The pages below `hi` are copied and paid for. */
  ghost predicate CopyState(m0: Mem, s0: set<nat>, kernel: Space, alloc: Buddy, child: AddressSpace, z: Space, hi: nat)
    reads child`walks, child`tabs, alloc, alloc.mem
  {
    && ForkState(m0, s0, kernel, alloc, child, z, hi)
    && Settled(s0, alloc.free, child.tabs, z, hi, child.image.first, child.image.first)
  }

  /** Everything is copied, the pages below `page` that are to be shared are, and all is paid for. */
  ghost predicate ShareState(m0: Mem, s0: set<nat>, kernel: Space, alloc: Buddy, child: AddressSpace, z: Space,
                             first: nat, page: nat)
    reads child`walks, child`tabs, alloc, alloc.mem
  {
    && ForkState(m0, s0, kernel, alloc, child, z, USER_PAGES)
    && Settled(s0, alloc.free, child.tabs, z, USER_PAGES, first, page)
  }

  lemma SkipPages(m0: Mem, s0: set<nat>, kernel: Space, alloc: Buddy, child: AddressSpace, z: Space, k: nat, hi: nat)
    requires CopyState(m0, s0, kernel, alloc, child, z, k)
    requires k <= hi <= USER_PAGES && forall n: nat :: k <= n < hi ==> UserFrame(z.walks, z.areas, n).None?
    ensures CopyState(m0, s0, kernel, alloc, child, z, hi)
  {
    CopySkip(m0, s0, kernel, alloc.mem.cells, alloc.free, ChildSpace(child, z), z, k, hi, child.image);
    SkipPaid(s0, alloc.free, child.tabs, z, k, hi, child.image.first);
  }

  /** Copies page `k` of an area, if the parent, whose root is `pml4`, has touched it; false when memory runs out. */
  method CopyPage(alloc: Buddy, child: AddressSpace, pml4: nat, k: nat, flags: Flags, ghost m0: Mem, ghost s0: set<nat>,
                  ghost kernel: Space, ghost z: Space, ghost next: nat) returns (ok: bool)
    requires CopyState(m0, s0, kernel, alloc, child, z, k)
    requires k < USER_PAGES && PageAttr(z.areas, k).Some? && pml4 == z.root
    requires flags == PageFlags(PageAttr(z.areas, k).value.flags)
    requires next == k + 1
    modifies child`walks, child`tabs, alloc, alloc.mem
    ensures ok ==> CopyState(m0, s0, kernel, alloc, child, z, next)
    ensures !ok ==> alloc.free == {} && TooFew(s0, z, child.image)
  {
    SourcePage(alloc.mem.cells, alloc.free, z, k);
    var src := Translate(alloc.mem.cells, pml4, k * 4096);
    if src.None? {
      SkipPages(m0, s0, kernel, alloc, child, z, k, next);
      return true;
    }
    ok := PlaceCopy(alloc, child, k, src.value / 4096, flags, m0, s0, kernel, z, next);
  }

  /** Fills a free page like frame `g` of the parent and maps it at the child's page `k`. */
  method PlaceCopy(alloc: Buddy, child: AddressSpace, k: nat, g: nat, flags: Flags, ghost m0: Mem, ghost s0: set<nat>,
                   ghost kernel: Space, ghost z: Space, ghost next: nat) returns (ok: bool)
    requires CopyState(m0, s0, kernel, alloc, child, z, k)
    requires UserFrame(z.walks, z.areas, k) == Some(g) && IsData(At(alloc.mem.cells, g)) && k < USER_PAGES
    requires flags == PageFlags(PageAttr(z.areas, k).value.flags)
    requires next == k + 1
    modifies child`walks, child`tabs, alloc, alloc.mem
    ensures ok ==> CopyState(m0, s0, kernel, alloc, child, z, next)
    ensures !ok ==> alloc.free == {} && TooFew(s0, z, child.image)
  {
    ghost var m, s := alloc.mem.cells, alloc.free;
    CopyTooDear(s0, s, child.tabs, z, k, child.image);
    var dst := child.TakePage(alloc, At(alloc.mem.cells, g).data);
    if dst.None? { return false; }
    ok := MapCopy(alloc, child, k, g, dst.value, flags, m0, s0, kernel, z, m, s, next);
  }

  /** Maps the child's page `k` to frame `f`, which has just been taken from the free pages `s` and filled like `g`. */
  method MapCopy(alloc: Buddy, child: AddressSpace, k: nat, ghost g: nat, f: nat, flags: Flags, ghost m0: Mem,
                 ghost s0: set<nat>, ghost kernel: Space, ghost z: Space, ghost m: Mem, ghost s: set<nat>,
                 ghost next: nat) returns (ok: bool)
    requires alloc.Valid() && child.pageTable.mem == alloc.mem && f > 0 && f in s && alloc.free == s - {f}
    requires Shows(alloc.mem.cells, child.pageTable.pml4, child.walks, child.tabs, alloc.free)
    requires SameExcept(m, alloc.mem.cells, s) && At(alloc.mem.cells, f) == At(m, g)
    requires Forking(m0, s0, kernel, m, s, ChildSpace(child, z), z, k, child.image)
    requires Settled(s0, s, child.tabs, z, k, child.image.first, child.image.first)
    requires |s| <= Lacking(child.tabs, k) ==> TooFew(s0, z, child.image)
    requires UserFrame(z.walks, z.areas, k) == Some(g) && IsData(At(m, g)) && k < USER_PAGES
    requires flags == PageFlags(PageAttr(z.areas, k).value.flags) && next == k + 1
    modifies child`walks, child`tabs, alloc, alloc.mem
    ensures ok ==> CopyState(m0, s0, kernel, alloc, child, z, next)
    ensures !ok ==> alloc.free == {} && TooFew(s0, z, child.image)
  {
    ghost var m1, x := alloc.mem.cells, ChildSpace(child, z);
    OneTaken(s, f);
    ok := child.MapPage(alloc, k, f, flags);
    if ok {
      CopyPaid(s0, s, x.tabs, alloc.free, child.tabs, z, k, child.image.first);
      CopyStep(m0, s0, kernel, m, s, m1, f, alloc.mem.cells, alloc.free, x, ChildSpace(child, z), z, k, flags,
               child.image);
    }
  }

  /** All pages from `lo` to `hi` belong to areas with the given flags. */
  ghost predicate SameFlags(vs: seq<Vma>, lo: nat, hi: nat, flags: VmaFlags) {
    forall n: nat :: lo <= n < hi ==> PageAttr(vs, n).Some? && PageAttr(vs, n).value.flags == flags
  }

  /** Copies the touched pages of area `v`, which is at position `i`. */
  method CopyArea(alloc: Buddy, child: AddressSpace, pml4: nat, v: Vma, ghost i: nat, ghost b: nat, ghost m0: Mem,
                  ghost s0: set<nat>, ghost kernel: Space, ghost z: Space, ghost next: nat) returns (ok: bool)
    requires Sorted(z.areas) && UserAreas(z.areas) && i < |z.areas| && v == z.areas[i] && pml4 == z.root
    requires CopyState(m0, s0, kernel, alloc, child, z, b)
    requires HoleAt(z.areas, i, 0, USER_PAGES, b)
    requires next == v.end / 4096
    modifies child`walks, child`tabs, alloc, alloc.mem
    ensures ok ==> CopyState(m0, s0, kernel, alloc, child, z, next)
    ensures !ok ==> alloc.free == {} && TooFew(s0, z, child.image)
  {
    AreaPages(z.areas, i, b);
    SkipPages(m0, s0, kernel, alloc, child, z, b, v.start / 4096);
    ok := CopyPages(alloc, child, pml4, v.start / 4096, v.end / 4096, v.attr.flags, m0, s0, kernel, z);
  }

  /** The loop over the pages of an area. */
  method CopyPages(alloc: Buddy, child: AddressSpace, pml4: nat, lo: nat, hi: nat, flags: VmaFlags, ghost m0: Mem,
                   ghost s0: set<nat>, ghost kernel: Space, ghost z: Space) returns (ok: bool)
    requires CopyState(m0, s0, kernel, alloc, child, z, lo)
    requires lo <= hi <= USER_PAGES && SameFlags(z.areas, lo, hi, flags) && pml4 == z.root
    modifies child`walks, child`tabs, alloc, alloc.mem
    ensures ok ==> CopyState(m0, s0, kernel, alloc, child, z, hi)
    ensures !ok ==> alloc.free == {} && TooFew(s0, z, child.image)
  {
    var page := lo;
    while page != hi
      invariant lo <= page <= hi && CopyState(m0, s0, kernel, alloc, child, z, page)
    {
      var next := page + 1;
      ok := CopyPage(alloc, child, pml4, page, PageFlags(flags), m0, s0, kernel, z, next);
      if !ok { return; }
      page := next;
    }
    ok := true;
  }

  lemma AreaPages(vs: seq<Vma>, i: nat, b: nat)
    requires Sorted(vs) && UserAreas(vs) && i < |vs| && HoleAt(vs, i, 0, USER_PAGES, b)
    ensures b <= vs[i].start / 4096 < vs[i].end / 4096 <= USER_PAGES && NoAreaPages(vs, b, vs[i].start / 4096)
    ensures forall n: nat :: vs[i].start / 4096 <= n < vs[i].end / 4096 ==> PageAttr(vs, n) == Some(vs[i].attr)
    ensures HoleAt(vs, i + 1, 0, USER_PAGES, vs[i].end / 4096)
  {
    assert UserArea(vs[i]);
    HoleStep(vs, i, 0, USER_PAGES, b);
    HolePages(vs, i, 0, USER_PAGES, b, vs[i].start / 4096, vs[i].end / 4096);
  }

  /** Adds the parent's area at position `i` to the child, which has the areas before it. */
  method AddArea(child: AddressSpace, vs: seq<Vma>, i: nat) returns (ok: bool)
    requires Canonical(vs) && i < |vs| && child.vmas == vs[..i]
    modifies child`vmas
    ensures ok && child.vmas == vs[..i + 1]
  {
    PrefixVacant(vs, i);
    ok := child.AddVma(vs[i]);
    PrefixAdded(vs, i, child.vmas);
  }

  /** Adds the area at position `i` to the child and copies its touched pages. */
  method CopyNext(alloc: Buddy, child: AddressSpace, pml4: nat, vs: seq<Vma>, i: nat, ghost b: nat, ghost m0: Mem,
                  ghost s0: set<nat>, ghost kernel: Space, ghost z: Space, ghost next: nat, ghost j: nat)
    returns (ok: bool)
    requires Canonical(vs) && UserAreas(vs) && i < |vs| && child.vmas == vs[..i] && pml4 == z.root && vs == z.areas
    requires CopyState(m0, s0, kernel, alloc, child, z, b) && HoleAt(vs, i, 0, USER_PAGES, b)
    requires next == vs[i].end / 4096 && j == i + 1
    modifies child`vmas, child`walks, child`tabs, alloc, alloc.mem
    ensures ok ==> CopyState(m0, s0, kernel, alloc, child, z, next) && HoleAt(vs, j, 0, USER_PAGES, next)
    ensures ok ==> child.vmas == vs[..j]
    ensures !ok ==> alloc.free == {} && TooFew(s0, z, child.image)
  {
    ok := AddArea(child, vs, i);
    AreaPages(vs, i, b);
    ok := CopyArea(alloc, child, pml4, vs[i], i, b, m0, s0, kernel, z, next);
  }

  /** The loop over the parent's areas: each is added to the child and its touched pages are copied. */
  method CopyAreas(alloc: Buddy, child: AddressSpace, pml4: nat, vs: seq<Vma>, ghost m0: Mem, ghost s0: set<nat>,
                   ghost kernel: Space, ghost z: Space) returns (ok: bool, ghost b: nat)
    requires Canonical(vs) && UserAreas(vs) && child.vmas == [] && pml4 == z.root && vs == z.areas
    requires CopyState(m0, s0, kernel, alloc, child, z, 0)
    modifies child`vmas, child`walks, child`tabs, alloc, alloc.mem
    ensures ok ==> CopyState(m0, s0, kernel, alloc, child, z, b) && child.vmas == vs
    ensures ok ==> b <= USER_PAGES && NoAreaPages(vs, b, USER_PAGES)
    ensures !ok ==> alloc.free == {} && TooFew(s0, z, child.image)
  {
    b := 0;
    var i := 0;
    while i != |vs|
      invariant i <= |vs| && CopyState(m0, s0, kernel, alloc, child, z, b) && HoleAt(vs, i, 0, USER_PAGES, b)
      invariant child.vmas == vs[..i]
    {
      ghost var next := vs[i].end / 4096;
      var j := i + 1;
      ok := CopyNext(alloc, child, pml4, vs, i, b, m0, s0, kernel, z, next, j);
      if !ok { return; }
      b, i := next, j;
    }
    RestVacant(vs, b);
    ok := true;
  }

  // ---------- The kernel's share ----------

  /** `x` with the upper half of `z`. */
  ghost function TakeUpper(x: Space, z: Space): Space {
    x.(walks := UpperWalks(x.walks, z.walks), tabs := UpperTabs(x.tabs, z.tabs))
  }

  lemma RootOwned(m: Mem, s: set<nat>, x: Space)
    requires SpaceOk(m, s, x)
    ensures Owns(x, x.root) && x.root !in s && IsTable(At(m, x.root))
  {
    assert Resolve(m, x.root, Root) == Some(x.root) && Low(Root);
    assert Root in x.tabs && x.tabs[Root] == x.root;
  }

  /** Taking over an upper half changes nothing about what is owned, and adds only shared tables to what is used. */
  lemma UpperOwns(m: Mem, s: set<nat>, x: Space, z: Space, f: nat)
    requires SpaceOk(m, s, z)
    ensures Owns(TakeUpper(x, z), f) <==> Owns(x, f)
    ensures Uses(TakeUpper(x, z), f) ==> Owns(x, f) || (Uses(z, f) && !Owns(z, f))
  {
    var y := TakeUpper(x, z);
    forall k: nat ensures UserFrame(y.walks, y.areas, k) == UserFrame(x.walks, x.areas, k) {}
    assert Holds(y, f) <==> Holds(x, f);
    if IsOwnTable(y.tabs, f) {
      var q :| q in y.tabs && Low(q) && y.tabs[q] == f;
      assert q in x.tabs && x.tabs[q] == f;
    }
    if IsOwnTable(x.tabs, f) {
      var q :| q in x.tabs && Low(q) && x.tabs[q] == f;
      assert q in y.tabs && y.tabs[q] == f;
    }
    if IsTableFrame(y.tabs, f) {
      var q :| q in y.tabs && y.tabs[q] == f;
      if Low(q) {
        assert q in x.tabs && x.tabs[q] == f;
      } else {
        UpperNotOwned(m, s, z, q);
      }
    }
  }

  lemma UpperTakenShown(m: Mem, s: set<nat>, x: Space, z: Space)
    requires SpaceOk(m, s, x) && SpaceOk(m, s, z) && ApartFrom(x, z)
    ensures IsTable(At(m, x.root)) && IsTable(At(m, z.root))
    ensures SpaceOk(WithUpper(m, x.root, z.root), s, TakeUpper(x, z))
  {
    forall p, q | Low(p) && !Low(q) && p in x.tabs && q in z.tabs ensures x.tabs[p] != z.tabs[q] {
      assert IsOwnTable(x.tabs, x.tabs[p]);
      assert IsTableFrame(z.tabs, z.tabs[q]);
      assert Owns(x, x.tabs[p]) && Uses(z, z.tabs[q]);
    }
    UpperShown(m, s, x, z);
    UpperBacked(m, s, x, z);
  }

  lemma UpperBacked(m: Mem, s: set<nat>, x: Space, z: Space)
    requires SpaceOk(m, s, x) && SpaceOk(m, s, z) && ApartFrom(x, z) && IsTable(At(m, x.root)) && IsTable(At(m, z.root))
    ensures var y := TakeUpper(x, z); Backed(WithUpper(m, x.root, z.root), y.walks, y.tabs, y.areas, s)
  {
    var y := TakeUpper(x, z);
    forall k: nat ensures UserFrame(y.walks, y.areas, k) == UserFrame(x.walks, x.areas, k) {}
    forall k: nat ensures RightPerms(y.walks, y.areas, k) { assert RightPerms(x.walks, x.areas, k); }
    RootOwned(m, s, x);
    forall k: nat | UserFrame(x.walks, x.areas, k).Some?
      ensures GoodFrame(WithUpper(m, x.root, z.root), y.tabs, s, UserFrame(x.walks, x.areas, k).value)
    {
      UpperGood(m, s, x, z, k);
    }
  }

  lemma UpperGood(m: Mem, s: set<nat>, x: Space, z: Space, k: nat)
    requires SpaceOk(m, s, x) && SpaceOk(m, s, z) && ApartFrom(x, z) && IsTable(At(m, x.root)) && IsTable(At(m, z.root))
    requires UserFrame(x.walks, x.areas, k).Some?
    ensures GoodFrame(WithUpper(m, x.root, z.root), TakeUpper(x, z).tabs, s, UserFrame(x.walks, x.areas, k).value)
  {
    var f, y := UserFrame(x.walks, x.areas, k).value, TakeUpper(x, z);
    assert GoodFrame(m, x.tabs, s, f);
    assert Holds(x, f) by { assert 0 <= k < USER_PAGES; }
    forall q | q in y.tabs ensures y.tabs[q] != f {
      if Low(q) {
        assert q in x.tabs && y.tabs[q] == x.tabs[q];
        assert IsTableFrame(x.tabs, x.tabs[q]);
      } else {
        assert q in z.tabs && y.tabs[q] == z.tabs[q];
        assert IsTableFrame(z.tabs, z.tabs[q]);
        assert Owns(x, f) && Uses(z, z.tabs[q]);
      }
    }
  }

  lemma CopiedElsewhere(m: Mem, s: set<nat>, n: Mem, x: Space, z: Space, w: Walks, r: nat)
    requires SpaceOk(m, s, x) && SpaceOk(m, s, z) && x.areas == z.areas && SameExcept(m, n, {r}) && IsTable(At(m, r))
    requires Copied(m, z.walks, x.walks, z.areas, USER_PAGES)
    requires forall k: nat :: UserFrame(w, z.areas, k) == UserFrame(x.walks, z.areas, k)
    requires forall k: nat :: k < USER_PAGES ==> k in w && w[k] == x.walks[k]
    ensures Copied(n, z.walks, w, z.areas, USER_PAGES)
  {
    forall k: nat | k < USER_PAGES ensures PageCopied(n, z.walks, w, z.areas, k) {
      assert PageCopied(m, z.walks, x.walks, z.areas, k);
      assert UserFrame(z.walks, z.areas, k).Some? ==> GoodFrame(m, z.tabs, s, UserFrame(z.walks, z.areas, k).value);
      assert UserFrame(x.walks, z.areas, k).Some? ==> GoodFrame(m, x.tabs, s, UserFrame(x.walks, z.areas, k).value);
    }
  }

  lemma UpperApart(m0: Mem, s0: set<nat>, kernel: Space, m: Mem, s: set<nat>, x: Space, z: Space)
    requires SpaceOk(m, s, x) && SpaceOk(m, s, z) && ApartFrom(x, z) && BuiltFrom(m0, s0, kernel, m, s, x)
    requires IsTable(At(m, x.root)) && IsTable(At(m, z.root))
    requires SpentOn(s0, s, x)
    ensures ApartFrom(TakeUpper(x, z), z) && ApartFrom(z, TakeUpper(x, z)) && SpentOn(s0, s, TakeUpper(x, z))
    ensures BuiltFrom(m0, s0, z, WithUpper(m, x.root, z.root), s, TakeUpper(x, z))
  {
    var y := TakeUpper(x, z);
    RootOwned(m, s, x);
    forall f: nat ensures (Owns(y, f) <==> Owns(x, f)) && (Uses(y, f) ==> Owns(x, f) || (Uses(z, f) && !Owns(z, f))) {
      UpperOwns(m, s, x, z, f);
    }
    forall f: nat | Owns(z, f) ensures Uses(z, f) { OwnsUses(z, f); }
  }

  /** A write to a frame that the parent does not use. */
  lemma ParentKept(m0: Mem, m: Mem, s: set<nat>, n: Mem, r: nat, z: Space)
    requires SpaceOk(m, s, z) && SameSpaceView(m0, m, z) && SameExcept(m, n, {r}) && !Uses(z, r)
    ensures SpaceOk(n, s, z) && SameSpaceView(m0, n, z)
  {
    forall f: nat | Uses(z, f) ensures f !in s && At(n, f) == At(m, f) { UsedNotFree(m, s, z, f); }
    SameFrames(m, s, n, s, z);
    ViewTrans(m0, m, n, z);
  }

  /** Taking over the parent's upper half keeps the child a copy, now built on the parent. */
  lemma UpperTaken(m0: Mem, s0: set<nat>, kernel: Space, m: Mem, s: set<nat>, x: Space, z: Space, image: Image)
    requires Forking(m0, s0, kernel, m, s, x, z, USER_PAGES, image)
    ensures IsTable(At(m, x.root)) && IsTable(At(m, z.root)) && x.root != z.root && x.root !in s
    ensures Forking(m0, s0, z, WithUpper(m, x.root, z.root), s, TakeUpper(x, z), z, USER_PAGES, image)
  {
    RootOwned(m, s, x);
    RootOwned(m, s, z);
    OwnsUses(z, z.root);
    var n, y := WithUpper(m, x.root, z.root), TakeUpper(x, z);
    UpperTakenShown(m, s, x, z);
    UpperApart(m0, s0, kernel, m, s, x, z);
    ParentKept(m0, m, s, n, x.root, z);
    forall k: nat ensures UserFrame(y.walks, z.areas, k) == UserFrame(x.walks, z.areas, k) {}
    CopiedElsewhere(m, s, n, x, z, y.walks, x.root);
    assert Tidy(y.walks, y.areas, image) by { SameLowTidy(x.walks, y.walks, x.areas, image); }
  }

  lemma SameLowTidy(walks: Walks, next: Walks, vs: seq<Vma>, image: Image)
    requires Tidy(walks, vs, image)
    requires forall k: nat :: k < USER_PAGES && k in walks ==> k in next && next[k] == walks[k]
    ensures Tidy(next, vs, image)
  {
  }

  lemma EmptyLowCopied(m: Mem, from: Walks, to: Walks, vs: seq<Vma>, image: Image)
    requires NoAreaPages(vs, image.first, image.last)
    requires forall k: nat :: k < USER_PAGES ==> k in to && to[k] == Unmapped
    ensures Copied(m, from, to, vs, 0) && Tidy(to, vs, image)
  {
  }

  /** Writable and executable, for the kernel only. */
  const KERNEL_FLAGS: Flags := Flags(true, false, false)

  /** A page outside the areas is mapped in the child. */
  lemma ImageStep(m0: Mem, s0: set<nat>, m: Mem, s: set<nat>, n: Mem, t: set<nat>, x: Space, y: Space, z: Space, k: nat,
                  image: Image)
    requires Forking(m0, s0, z, m, s, x, z, USER_PAGES, image) && PageAttr(z.areas, k).None? && image.Has(k)
    requires y == Space(x.root, x.walks[k := Small(k, KERNEL_FLAGS)], y.tabs, x.areas)
    requires Shows(n, y.root, y.walks, y.tabs, t)
    requires Grown(x.tabs, s, y.tabs, t) && WrittenOnly(m, n, x.tabs, s)
    ensures Forking(m0, s0, z, n, t, y, z, USER_PAGES, image)
  {
    MappedElsewhere(m, s, m, s, n, t, x.walks, y.walks, x.tabs, y.tabs, x.areas);
    GrowConfined(m, s, m, s, n, t, x, y);
    MapConserved(s, x, t, y);
    Undisturbed(m, s, x, n, t, y, z);
    ViewTrans(m0, m, n, z);
    BuiltOn(m0, s0, z, m, s, x, n, t, y);
    forall j: nat | UserFrame(z.walks, z.areas, j).Some?
      ensures At(n, UserFrame(z.walks, z.areas, j).value) == At(m, UserFrame(z.walks, z.areas, j).value)
    {
      ParentFrames(m, s, x, n, t, y, z, j);
    }
    CopiedMeanwhile(m, n, z.walks, x.walks, y.walks, z.areas);
  }

  lemma CopiedMeanwhile(m: Mem, n: Mem, from: Walks, to: Walks, next: Walks, vs: seq<Vma>)
    requires Copied(m, from, to, vs, USER_PAGES)
    requires forall j: nat :: UserFrame(next, vs, j) == UserFrame(to, vs, j)
    requires forall j: nat :: j < USER_PAGES ==> j in next && !next[j].Huge?
    requires forall j: nat :: UserFrame(to, vs, j).Some? ==>
      At(n, UserFrame(to, vs, j).value) == At(m, UserFrame(to, vs, j).value)
    requires forall j: nat :: UserFrame(from, vs, j).Some? ==>
      At(n, UserFrame(from, vs, j).value) == At(m, UserFrame(from, vs, j).value)
    ensures Copied(n, from, next, vs, USER_PAGES)
  {
    forall j: nat | j < USER_PAGES ensures PageCopied(n, from, next, vs, j) {
      assert PageCopied(m, from, to, vs, j);
    }
  }

  /** Pages from `lo` to `hi` map to themselves. */
  ghost predicate MapsItself(walks: Walks, lo: nat, hi: nat) {
    forall k: nat :: lo <= k < hi ==> k in walks && walks[k] == Small(k, KERNEL_FLAGS)
  }

  ghost predicate NoHuge(walks: Walks, lo: nat, hi: nat) {
    forall k: nat :: lo <= k < hi ==> k in walks && !walks[k].Huge?
  }

  lemma CopiedNoHuge(m: Mem, from: Walks, to: Walks, vs: seq<Vma>, lo: nat, hi: nat)
    requires Copied(m, from, to, vs, USER_PAGES) && hi <= USER_PAGES
    ensures NoHuge(to, lo, hi)
  {
  }

  lemma ImageGrows(walks: Walks, next: Walks, first: nat, page: nat, last: nat)
    requires next == walks[page := Small(page, KERNEL_FLAGS)] && MapsItself(walks, first, page)
    requires NoHuge(walks, first, last)
    ensures MapsItself(next, first, page + 1) && NoHuge(next, first, last)
  {
  }

  /** Maps one page of the kernel image, which lies outside the areas. */
  method MapImagePage(alloc: Buddy, child: AddressSpace, page: nat, ghost m0: Mem, ghost s0: set<nat>, ghost z: Space,
                      ghost next: nat) returns (ok: bool)
    requires ShareState(m0, s0, z, alloc, child, z, child.image.first, page)
    requires page < USER_PAGES && PageAttr(z.areas, page).None?
    requires child.image.Has(page) && page in child.walks && !child.walks[page].Huge?
    requires next == page + 1
    modifies child`walks, child`tabs, alloc, alloc.mem
    ensures ok ==> ShareState(m0, s0, z, alloc, child, z, child.image.first, next)
    ensures ok ==> child.walks == old(child.walks)[page := Small(page, KERNEL_FLAGS)]
    ensures !ok ==> alloc.free == {} && TooFew(s0, z, child.image)
  {
    ghost var m, s, x := alloc.mem.cells, alloc.free, ChildSpace(child, z);
    ShareTooDear(s0, s, x.tabs, z, page, child.image);
    ok := child.MapPage(alloc, page, page, KERNEL_FLAGS);
    if ok {
      SharePaid(s0, s, x.tabs, alloc.free, child.tabs, z, USER_PAGES, child.image.first, page);
      ImageStep(m0, s0, m, s, alloc.mem.cells, alloc.free, x, ChildSpace(child, z), z, page, child.image);
    }
  }

  /**
   * Maps the kernel image's pages from `first` to `last` to themselves, for the kernel only; false when memory runs
   * out.
   */
  method MapKernelImage(alloc: Buddy, child: AddressSpace, first: nat, last: nat, ghost m0: Mem, ghost s0: set<nat>,
                        ghost z: Space) returns (ok: bool)
    requires ShareState(m0, s0, z, alloc, child, z, first, first)
    requires first <= last <= USER_PAGES && child.image == Image(first, last)
    modifies child`walks, child`tabs, alloc, alloc.mem
    ensures ok ==> ShareState(m0, s0, z, alloc, child, z, first, last) && MapsItself(child.walks, first, last)
    ensures !ok ==> alloc.free == {} && TooFew(s0, z, child.image)
  {
    CopiedNoHuge(alloc.mem.cells, z.walks, child.walks, z.areas, first, last);
    var page := first;
    while page != last
      invariant first <= page <= last && ShareState(m0, s0, z, alloc, child, z, first, page)
      invariant NoHuge(child.walks, first, last) && MapsItself(child.walks, first, page)
    {
      ghost var before := child.walks;
      var next := page + 1;
      ok := MapImagePage(alloc, child, page, m0, s0, z, next);
      if !ok { return; }
      ImageGrows(before, child.walks, first, page, last);
      page := next;
    }
    ok := true;
  }

  datatype ForkResult = Forked(child: AddressSpace) | Failed | Panicked

  /** The child is a sound, separate copy of the parent, and the parent is as it was in memory `m0`. */
  ghost predicate IsFork(m0: Mem, s0: set<nat>, alloc: Buddy, child: AddressSpace, parent: AddressSpace)
    reads child, parent, alloc, alloc.mem
  {
    && child.vmas == parent.vmas && child.MemoryOk(alloc, child.vmas) && parent.MemoryOk(alloc, parent.vmas)
    && Tidy(child.walks, child.vmas, child.image)
    && SameView(alloc.mem.cells, parent.walks, alloc.mem.cells, child.walks, parent.vmas)
    && SameSpaceView(m0, alloc.mem.cells, parent.Here())
    && ApartFrom(child.Here(), parent.Here()) && ApartFrom(parent.Here(), child.Here())
    && BuiltFrom(m0, s0, parent.Here(), alloc.mem.cells, alloc.free, child.Here())
    && SpentOn(s0, alloc.free, child.Here())
  }

  /**
   * Ring 3 has the same access in the child as in the parent, except that it reaches no page of the kernel image: those
   * are writable and executable, and for the kernel only.
   */
  ghost predicate SameAccess(m: Mem, child: nat, parent: nat, image: Image) {
    && (forall k: nat :: image.first <= k < image.last ==> Granted(m, child, k) == Some(Flags(true, false, false)))
    && (forall k: nat :: image.first <= k < image.last ==> !MayRead(m, child, k))
    && (forall k: nat :: k < USER_PAGES && !image.Has(k) ==> Granted(m, child, k) == Granted(m, parent, k))
  }

  lemma ForkAccess(m: Mem, free: set<nat>, x: Space, z: Space, image: Image)
    requires SpaceOk(m, free, x) && SpaceOk(m, free, z) && x.areas == z.areas && image.last <= USER_PAGES
    requires Tidy(x.walks, x.areas, image) && Tidy(z.walks, z.areas, image)
    requires Copied(m, z.walks, x.walks, z.areas, USER_PAGES) && MapsItself(x.walks, image.first, image.last)
    ensures SameAccess(m, x.root, z.root, image)
  {
    forall k: nat | k < USER_PAGES
      ensures if image.Has(k) then Granted(m, x.root, k) == Some(Flags(true, false, false))
              else Granted(m, x.root, k) == Granted(m, z.root, k)
    {
      ShownGrants(m, x.root, x.walks, x.tabs, free, k);
      ShownGrants(m, z.root, z.walks, z.tabs, free, k);
      assert RightPerms(x.walks, x.areas, k) && RightPerms(z.walks, z.areas, k);
      assert PageCopied(m, z.walks, x.walks, z.areas, k);
    }
  }

  /** What the copy loop and the two kernel steps leave is a fork. */
  lemma ForkComplete(m0: Mem, s0: set<nat>, alloc: Buddy, child: AddressSpace, parent: AddressSpace, z: Space)
    requires ForkState(m0, s0, z, alloc, child, z, USER_PAGES) && child.vmas == parent.vmas
    requires parent.pageTable.mem == alloc.mem && z == parent.Here() && child.image == parent.image
    requires Tidy(parent.walks, parent.vmas, parent.image) && child.image.last <= USER_PAGES
    requires MapsItself(child.walks, child.image.first, child.image.last)
    ensures IsFork(m0, s0, alloc, child, parent)
    ensures SameAccess(alloc.mem.cells, child.pageTable.pml4, parent.pageTable.pml4, parent.image)
  {
    ForkAccess(alloc.mem.cells, alloc.free, ChildSpace(child, z), z, child.image);
    CopiedView(alloc.mem.cells, parent.walks, child.walks, parent.vmas);
  }

  /** Gives the child the upper half of the parent, whose root is `pml4`. */
  method TakeParentUpper(alloc: Buddy, child: AddressSpace, pml4: nat, ghost m0: Mem, ghost s0: set<nat>,
                         ghost kernel: Space, ghost z: Space)
    requires ForkState(m0, s0, kernel, alloc, child, z, USER_PAGES) && pml4 == z.root
    modifies child`walks, child`tabs, alloc.mem
    ensures ForkState(m0, s0, z, alloc, child, z, USER_PAGES) && child.tabs == UpperTabs(old(child.tabs), z.tabs)
  {
    ghost var x := ChildSpace(child, z);
    UpperTaken(m0, s0, kernel, alloc.mem.cells, alloc.free, x, z, child.image);
    CopyUpper(alloc, alloc.mem, child.pageTable.pml4, pml4);
    child.walks := UpperWalks(x.walks, z.walks);
    child.tabs := UpperTabs(x.tabs, z.tabs);
  }

  /** The kernel's share of the child's address space, after everything has been copied. */
  method FinishFork(alloc: Buddy, child: AddressSpace, pml4: nat, imageFirst: nat, imageLast: nat, ghost m0: Mem,
                    ghost s0: set<nat>, ghost kernel: Space, ghost z: Space) returns (ok: bool)
    requires CopyState(m0, s0, kernel, alloc, child, z, USER_PAGES)
    requires imageFirst <= imageLast <= USER_PAGES && child.image == Image(imageFirst, imageLast) && pml4 == z.root
    modifies child`walks, child`tabs, alloc, alloc.mem
    ensures ok ==> ForkState(m0, s0, z, alloc, child, z, USER_PAGES)
    ensures ok ==> MapsItself(child.walks, imageFirst, imageLast) && |alloc.free| + Need(z, child.image) == |s0|
    ensures !ok ==> alloc.free == {} && TooFew(s0, z, child.image)
  {
    ghost var tabs := child.tabs;
    TakeParentUpper(alloc, child, pml4, m0, s0, kernel, z);
    LowPaid(s0, alloc.free, tabs, child.tabs, z, USER_PAGES, imageFirst, imageFirst);
    ok := MapKernelImage(alloc, child, imageFirst, imageLast, m0, s0, z);
    if ok { AllPaid(s0, alloc.free, child.tabs, z, child.image); }
  }

  /** A new address space for the child, before anything is copied. */
  method NewChildSpace(alloc: Buddy, parent: AddressSpace, kernelPml4: nat, ghost kernel: Space, ghost z: Space)
    returns (r: Option<AddressSpace>)
    requires parent.MemoryOk(alloc, parent.vmas) && z == parent.Here()
    requires SpaceOk(alloc.mem.cells, alloc.free, kernel) && kernel.root == kernelPml4 && ApartFrom(z, kernel)
    requires NoAreaPages(parent.vmas, parent.image.first, parent.image.last)
    modifies alloc, alloc.mem
    ensures r.Some? ==> fresh(r.value) && r.value.vmas == [] && r.value.image == parent.image
    ensures r.Some? ==> CopyState(old(alloc.mem.cells), old(alloc.free), kernel, alloc, r.value, z, 0)
    ensures r.None? <==> old(alloc.free) == {}
    ensures r.None? ==> alloc.Valid() && alloc.free == {} && alloc.mem.cells == old(alloc.mem.cells)
  {
    ghost var m, s := alloc.mem.cells, alloc.free;
    var pt: Option<PageTableManager>;
    ghost var x: Space;
    pt, x := NewUser(alloc, kernelPml4, kernel);
    if pt.None? { return None; }
    NewChild(m, s, kernel, alloc.mem.cells, alloc.free, x, z, parent.image);
    NewChildPaid(s, kernel, alloc.mem.cells, alloc.free, x, z, parent.image.first);
    var child := new AddressSpace(pt.value, x.walks, x.tabs, parent.image);
    return Some(child);
  }

  /** Copies everything into the new address space `child`, and gives it the kernel's share. */
  method FillChild(alloc: Buddy, child: AddressSpace, pml4: nat, vs: seq<Vma>, imageFirst: nat, imageLast: nat,
                   ghost m0: Mem, ghost s0: set<nat>, ghost kernel: Space, ghost z: Space) returns (ok: bool)
    requires Canonical(vs) && UserAreas(vs) && child.vmas == [] && pml4 == z.root && vs == z.areas
    requires CopyState(m0, s0, kernel, alloc, child, z, 0)
    requires imageFirst <= imageLast <= USER_PAGES && child.image == Image(imageFirst, imageLast)
    modifies child`vmas, child`walks, child`tabs, alloc, alloc.mem
    ensures ok ==> ForkState(m0, s0, z, alloc, child, z, USER_PAGES) && child.vmas == vs
    ensures ok ==> MapsItself(child.walks, imageFirst, imageLast) && |alloc.free| + Need(z, child.image) == |s0|
    ensures !ok ==> alloc.free == {} && TooFew(s0, z, child.image)
  {
    ghost var b: nat;
    ok, b := CopyAreas(alloc, child, pml4, vs, m0, s0, kernel, z);
    if ok {
      SkipPages(m0, s0, kernel, alloc, child, z, b, USER_PAGES);
      ok := FinishFork(alloc, child, pml4, imageFirst, imageLast, m0, s0, kernel, z);
    }
  }

  /** Forks the memory of `parent`: it fails only when memory runs out, and panics then if copying has begun. */
  method ForkMemory(alloc: Buddy, parent: AddressSpace, kernelPml4: nat, imageFirst: nat, imageLast: nat,
                    ghost kernel: Space)
    returns (r: ForkResult)
    requires parent.MemoryOk(alloc, parent.vmas) && Canonical(parent.vmas) && UserAreas(parent.vmas)
    requires SpaceOk(alloc.mem.cells, alloc.free, kernel) && kernel.root == kernelPml4
    requires ApartFrom(parent.Here(), kernel)
    requires imageFirst <= imageLast <= USER_PAGES && parent.image == Image(imageFirst, imageLast)
    requires Tidy(parent.walks, parent.vmas, parent.image)
    modifies alloc, alloc.mem
    ensures r.Failed? <==> old(alloc.free) == {}
    ensures r.Panicked? <==> 0 < |old(alloc.free)| < old(Need(parent.Here(), parent.image))
    ensures r.Failed? ==>
      parent.MemoryOk(alloc, parent.vmas) && alloc.free == {} && alloc.mem.cells == old(alloc.mem.cells)
    ensures r.Forked? ==> fresh(r.child) && r.child.image == parent.image
    ensures r.Forked? ==> IsFork(old(alloc.mem.cells), old(alloc.free), alloc, r.child, parent)
    ensures r.Forked? ==> MapsItself(r.child.walks, imageFirst, imageLast)
    ensures r.Forked? ==>
      SameAccess(alloc.mem.cells, r.child.pageTable.pml4, parent.pageTable.pml4, Image(imageFirst, imageLast))
    ensures r.Forked? ==> |alloc.free| + old(Need(parent.Here(), parent.image)) == |old(alloc.free)|
    ensures !r.Forked? ==> alloc.free == {}
  {
    ghost var m, s, z := alloc.mem.cells, alloc.free, parent.Here();
    var c := NewChildSpace(alloc, parent, kernelPml4, kernel, z);
    if c.None? { return Failed; }
    var child := c.value;
    var ok := FillChild(alloc, child, parent.pageTable.pml4, parent.vmas, imageFirst, imageLast, m, s, kernel, z);
    TooFewPages(s, z, parent.image);
    if !ok { return Panicked; }
    ForkComplete(m, s, alloc, child, parent, z);
    return Forked(child);
  }

  // ---------- With the kernel stack ----------

  /** The kernel stack of a process is a block of eight pages. */
  const STACK_ORDER: nat := 3
  const STACK_PAGES: nat := 8

  /** The pages of the kernel stack at `b`. */
  function Stack(b: nat): set<nat> { BuddyBlocks.BlockPages(b, STACK_ORDER) }

  datatype ForkOutcome = Child(child: AddressSpace, stack: nat) | NoStack | StackLost(stack: nat) | Panic

  lemma StackSize(s: set<nat>, stack: nat)
    requires Stack(stack) <= s
    ensures |s - Stack(stack)| + STACK_PAGES == |s|
  {
    BlockSize(stack, STACK_ORDER);
    assert Bits.Pow2(3) == 8;
    assert s == (s - Stack(stack)) + Stack(stack);
  }

  /** Frames that were free may be taken and written without disturbing an address space. */
  lemma StillSound(m: Mem, s: set<nat>, n: Mem, t: set<nat>, x: Space)
    requires SpaceOk(m, s, x) && t <= s && SameExcept(m, n, s)
    ensures SpaceOk(n, t, x) && SameSpaceView(m, n, x)
  {
    forall f: nat | Uses(x, f) ensures f !in t && At(n, f) == At(m, f) { UsedNotFree(m, s, x, f); }
    SameFrames(m, s, n, t, x);
  }

  /** Takes a zeroed kernel stack. */
  method TakeStack(alloc: Buddy) returns (r: Option<nat>)
    requires alloc.Valid()
    modifies alloc, alloc.mem
    ensures alloc.Valid() && SameExcept(old(alloc.mem.cells), alloc.mem.cells, old(alloc.free))
    ensures r.None? <==> forall b :: b in old(alloc.blocks) ==> old(alloc.blocks)[b] < STACK_ORDER
    ensures r.None? ==> alloc.free == old(alloc.free) && alloc.mem.cells == old(alloc.mem.cells)
    ensures r.Some? ==> Stack(r.value) <= old(alloc.free)
    ensures r.Some? ==> alloc.free == old(alloc.free) - Stack(r.value)
    ensures r.Some? ==> forall f :: f in Stack(r.value) ==> At(alloc.mem.cells, f) == Bytes(ZEROES)
  {
    ghost var before := alloc.blocks;
    r := alloc.Alloc(STACK_ORDER);
    if r.Some? {
      BuddyBlocks.AllocStepSound(before, STACK_ORDER, r.value, alloc.blocks);
      ZeroStack(alloc, r.value);
    }
  }

  method ZeroStack(alloc: Buddy, stack: nat)
    requires alloc.Valid() && Stack(stack) !! alloc.free
    modifies alloc.mem
    ensures alloc.Valid() && SameExcept(old(alloc.mem.cells), alloc.mem.cells, Stack(stack))
    ensures forall f :: f in Stack(stack) ==> At(alloc.mem.cells, f) == Bytes(ZEROES)
  {
    StackPages(stack);
    var zero := Bytes(ZEROES);
    for i := 0 to STACK_PAGES
      invariant alloc.Valid() && SameExcept(old(alloc.mem.cells), alloc.mem.cells, Stack(stack))
      invariant forall f: nat :: stack <= f < stack + i ==> At(alloc.mem.cells, f) == zero
    {
      ghost var m := alloc.mem.cells;
      alloc.StoreSafe(stack + i, zero);
      alloc.mem.cells := alloc.mem.cells[stack + i := zero];
      forall f: nat | stack <= f < stack + i + 1 ensures At(alloc.mem.cells, f) == zero {
        assert f != stack + i ==> At(alloc.mem.cells, f) == At(m, f);
      }
    }
  }

  lemma StackPages(stack: nat)
    ensures forall f: nat :: f in Stack(stack) <==> stack <= f < stack + STACK_PAGES
  {
    assert Bits.Pow2(3) == 8;
    forall f: nat ensures f in Stack(stack) <==> stack <= f < stack + STACK_PAGES {
      assert Bits.Within(f, stack, STACK_ORDER) <==> stack <= f < stack + 8;
    }
  }

  /** What remains to be done once the stack has been taken out of the free pages `s`. */
  method ForkOnStack(alloc: Buddy, parent: AddressSpace, kernelPml4: nat, imageFirst: nat, imageLast: nat, stack: nat,
                     ghost kernel: Space, ghost s: set<nat>)
    returns (r: ForkOutcome)
    requires parent.MemoryOk(alloc, parent.vmas) && Canonical(parent.vmas) && UserAreas(parent.vmas)
    requires SpaceOk(alloc.mem.cells, alloc.free, kernel) && kernel.root == kernelPml4
    requires ApartFrom(parent.Here(), kernel)
    requires imageFirst <= imageLast <= USER_PAGES && parent.image == Image(imageFirst, imageLast)
    requires Tidy(parent.walks, parent.vmas, parent.image)
    requires Stack(stack) <= s && alloc.free == s - Stack(stack)
    modifies alloc, alloc.mem
    ensures !r.NoStack? && (r.StackLost? <==> |s| == STACK_PAGES)
    ensures r.Panic? <==> STACK_PAGES < |s| < STACK_PAGES + old(Need(parent.Here(), parent.image))
    ensures r.StackLost? ==> r.stack == stack && alloc.free == {} && s == Stack(stack)
    ensures r.StackLost? ==> parent.MemoryOk(alloc, parent.vmas) && alloc.mem.cells == old(alloc.mem.cells)
    ensures r.Child? ==> r.stack == stack && fresh(r.child)
    ensures r.Child? ==> IsFork(old(alloc.mem.cells), old(alloc.free), alloc, r.child, parent)
    ensures r.Child? ==>
      SameAccess(alloc.mem.cells, r.child.pageTable.pml4, parent.pageTable.pml4, Image(imageFirst, imageLast))
    ensures r.Child? ==> |alloc.free| + STACK_PAGES + old(Need(parent.Here(), parent.image)) == |s|
  {
    StackSize(s, stack);
    var f := ForkMemory(alloc, parent, kernelPml4, imageFirst, imageLast, kernel);
    match f
    case Failed => return StackLost(stack);
    case Panicked => return Panic;
    case Forked(child) => return Child(child, stack);
  }

  /**
   * Forks a process's memory: the kernel stack first, then the address space. Memory `m1` is what the stack leaves.
   * When only the stack could be taken, it is free no more and belongs to nobody.
   */
  method ForkProcess(alloc: Buddy, parent: AddressSpace, kernelPml4: nat, imageFirst: nat, imageLast: nat,
                     ghost kernel: Space)
    returns (r: ForkOutcome, ghost m1: Mem)
    requires parent.MemoryOk(alloc, parent.vmas) && Canonical(parent.vmas) && UserAreas(parent.vmas)
    requires SpaceOk(alloc.mem.cells, alloc.free, kernel) && kernel.root == kernelPml4
    requires ApartFrom(parent.Here(), kernel)
    requires imageFirst <= imageLast <= USER_PAGES && parent.image == Image(imageFirst, imageLast)
    requires Tidy(parent.walks, parent.vmas, parent.image)
    modifies alloc, alloc.mem
    ensures r.NoStack? <==> forall b :: b in old(alloc.blocks) ==> old(alloc.blocks)[b] < STACK_ORDER
    ensures r.NoStack? ==> alloc.free == old(alloc.free) && alloc.mem.cells == old(alloc.mem.cells)
    ensures r.StackLost? <==> !r.NoStack? && |old(alloc.free)| == STACK_PAGES
    ensures r.Panic? <==>
      !r.NoStack? && STACK_PAGES < |old(alloc.free)| < STACK_PAGES + old(Need(parent.Here(), parent.image))
    ensures r.StackLost? ==> alloc.free == {} && old(alloc.free) == Stack(r.stack)
    ensures r.NoStack? || r.StackLost? ==> parent.MemoryOk(alloc, parent.vmas)
    ensures r.NoStack? || r.StackLost? ==> SameSpaceView(old(alloc.mem.cells), alloc.mem.cells, parent.Here())
    ensures r.Child? ==> SameExcept(old(alloc.mem.cells), m1, old(alloc.free)) && fresh(r.child)
    ensures r.Child? ==> IsFork(m1, old(alloc.free) - Stack(r.stack), alloc, r.child, parent)
    ensures r.Child? ==>
      SameAccess(alloc.mem.cells, r.child.pageTable.pml4, parent.pageTable.pml4, Image(imageFirst, imageLast))
    ensures r.Child? ==> Stack(r.stack) <= old(alloc.free)
    ensures r.Child? ==> forall f :: f in Stack(r.stack) ==> At(m1, f) == Bytes(ZEROES)
    ensures r.Child? ==> |alloc.free| + STACK_PAGES + old(Need(parent.Here(), parent.image)) == |old(alloc.free)|
  {
    ghost var m, s, z := alloc.mem.cells, alloc.free, parent.Here();
    var stack := TakeStack(alloc);
    m1 := alloc.mem.cells;
    StillSound(m, s, m1, alloc.free, z);
    if stack.None? { return NoStack, m1; }
    StillSound(m, s, m1, alloc.free, kernel);
    r := ForkOnStack(alloc, parent, kernelPml4, imageFirst, imageLast, stack.value, kernel, s);
  }
}
