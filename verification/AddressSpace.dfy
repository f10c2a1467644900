/** A process's address space: its list of areas and its page table. */
module AddressSpace {
  import Bits
  import opened PhysMem
  import opened BuddyAllocator
  import opened PageTable
  import opened Paging
  import opened PageMaps
  import opened VmaList
  import opened UserMemory
  import opened Isolation
  import opened Sweep
  import TableTeardown

  const MMAP_ZONE_START: nat := 0x6000_0000_0000
  const MMAP_ZONE_END: nat := 0x7000_0000_0000

  const USER_END: nat := 0x8000_0000_0000

  /** The area starts and ends on page boundaries of the user half. */
  predicate UserArea(v: Vma) {
    v.start % 4096 == 0 && v.end % 4096 == 0 && v.end <= USER_END
  }

  ghost predicate UserAreas(vs: seq<Vma>) {
    forall i :: 0 <= i < |vs| ==> UserArea(vs[i])
  }

  /** No address from `lo` to `hi` belongs to an area. */
  ghost predicate Vacant(vs: seq<Vma>, lo: nat, hi: nat) {
    forall a: nat :: lo <= a < hi ==> Lookup(vs, a).None?
  }

  /** The map of `ws` is that of `vs` with the addresses of `v` given its attributes. */
  ghost predicate Overlaid(vs: seq<Vma>, ws: seq<Vma>, v: Vma) {
    forall a: nat :: Lookup(ws, a) == if v.Contains(a) then Some(v.attr) else Lookup(vs, a)
  }

  /** The map of `ws` is that of `vs` with the addresses from `lo` to `hi` removed. */
  ghost predicate Cleared(vs: seq<Vma>, ws: seq<Vma>, lo: nat, hi: nat) {
    forall a: nat :: Lookup(ws, a) == if lo <= a < hi then None else Lookup(vs, a)
  }

  /** The neighbours of position `idx` leave room for the addresses from `start` to `end`. */
  ghost predicate Room(vs: seq<Vma>, idx: nat, start: nat, end: nat)
    requires idx <= |vs|
  {
    (idx > 0 ==> vs[idx - 1].end <= start) && (idx < |vs| ==> end <= vs[idx].start)
  }

  /** Two neighbours decide whether the whole range is vacant. */
  lemma RoomIsVacant(vs: seq<Vma>, idx: nat, start: nat, end: nat)
    requires Sorted(vs) && idx <= |vs| && start < end
    requires forall i :: 0 <= i < idx ==> vs[i].start < start
    requires forall i :: idx <= i < |vs| ==> start <= vs[i].start
    ensures Room(vs, idx, start, end) <==> Vacant(vs, start, end)
  {
    if Room(vs, idx, start, end) {
      forall a: nat | start <= a < end ensures Lookup(vs, a).None? {
        forall i | 0 <= i < |vs| ensures !vs[i].Contains(a) {
          assert i < idx - 1 ==> vs[i].end <= vs[idx - 1].start;
          assert idx < i ==> vs[idx].end <= vs[i].start;
        }
        LookupNone(vs, a);
      }
    } else if idx > 0 && vs[idx - 1].end > start {
      LookupAt(vs, idx - 1, start);
    } else {
      LookupAt(vs, idx, vs[idx].start);
    }
  }

  /** Adding `v` at `idx`, merged with the areas that touch it and have its attributes. */
  lemma AddFacts(vs: seq<Vma>, idx: nat, v: Vma, lo: nat, hi: nat, w: Vma)
    requires Canonical(vs) && idx <= |vs| && v.start < v.end && Room(vs, idx, v.start, v.end)
    requires lo == (if idx > 0 && Mergeable(vs[idx - 1], v) then idx - 1 else idx)
    requires hi == (if idx < |vs| && Mergeable(v, vs[idx]) then idx + 1 else idx)
    requires w == Vma(if lo < idx then vs[lo].start else v.start, if idx < hi then vs[idx].end else v.end, v.attr)
    ensures Canonical(Splice(vs, lo, hi, w)) && Overlaid(vs, Splice(vs, lo, hi, w), v)
  {
    assert lo < idx && lo > 0 ==> vs[lo - 1].end <= vs[lo].start && !Mergeable(vs[lo - 1], vs[lo]);
    assert idx < hi && hi < |vs| ==> vs[hi - 1].end <= vs[hi].start && !Mergeable(vs[hi - 1], vs[hi]);
    SpliceCanonical(vs, lo, hi, w);
    forall a: nat
      ensures Lookup(Splice(vs, lo, hi, w), a) == if v.Contains(a) then Some(v.attr) else Lookup(vs, a)
    {
      assert lo < idx ==> (vs[lo].Contains(a) <==> vs[lo].start <= a < v.start);
      assert idx < hi ==> (vs[idx].Contains(a) <==> v.end <= a < vs[idx].end);
      SpliceLookup(vs, lo, hi, w, v, a);
    }
  }

  /** Removing the merged neighbours one by one and then inserting is one splice. */
  lemma InsertIsSplice(vs: seq<Vma>, idx: nat, lo: nat, hi: nat, w: Vma)
    requires lo <= idx <= hi <= |vs| && idx <= lo + 1 && hi <= idx + 1
    ensures var v1 := if lo < idx then Without(vs, lo) else vs;
      && |v1| == |vs| - (idx - lo) && (idx < |vs| ==> v1[lo] == vs[idx])
      && var v2 := if idx < hi then Without(v1, lo) else v1;
      v2[..lo] + [w] + v2[lo..] == Splice(vs, lo, hi, w)
  {
    var v1 := if lo < idx then Without(vs, lo) else vs;
    assert v1[..lo] == vs[..lo] && v1[lo..] == vs[idx..];
    var v2 := if idx < hi then Without(v1, lo) else v1;
    assert v2[..lo] == vs[..lo] && v2[lo..] == vs[hi..];
  }

  // ---------- Empty areas ----------

  /** Some area touches the point `v.start` and has the attributes of `v`. */
  predicate TouchesSame(vs: seq<Vma>, v: Vma) {
    exists i :: 0 <= i < |vs| && (vs[i].end == v.start || vs[i].start == v.start) && vs[i].attr == v.attr
  }

  /** The point `v.start` lies strictly inside an area. */
  predicate StrictlyInside(vs: seq<Vma>, v: Vma) {
    exists i :: 0 <= i < |vs| && vs[i].start < v.start < vs[i].end
  }

  /** What adding an empty area does: it vanishes into a neighbour, or it stays and the list is canonical no more. */
  ghost predicate EmptyAdded(vs: seq<Vma>, v: Vma, ok: bool, ws: seq<Vma>) {
    && (ok <==> !StrictlyInside(vs, v))
    && (ok ==> (Canonical(ws) <==> TouchesSame(vs, v)))
    && (ok && TouchesSame(vs, v) ==> ws == vs)
  }

  lemma EmptyRoom(vs: seq<Vma>, idx: nat, v: Vma)
    requires Sorted(vs) && idx <= |vs| && v.start == v.end
    requires forall i :: 0 <= i < idx ==> vs[i].start < v.start
    requires forall i :: idx <= i < |vs| ==> v.start <= vs[i].start
    ensures Room(vs, idx, v.start, v.end) <==> !StrictlyInside(vs, v)
  {
    if Room(vs, idx, v.start, v.end) {
      forall i | 0 <= i < |vs| ensures !(vs[i].start < v.start < vs[i].end) {
        assert i < idx - 1 ==> vs[i].end <= vs[idx - 1].start;
      }
    } else {
      assert vs[idx - 1].start < v.start < vs[idx - 1].end;
    }
  }

  lemma EmptyFacts(vs: seq<Vma>, idx: nat, v: Vma, lo: nat, hi: nat, w: Vma)
    requires Canonical(vs) && idx <= |vs| && v.start == v.end && Room(vs, idx, v.start, v.end)
    requires forall i :: 0 <= i < idx ==> vs[i].start < v.start
    requires forall i :: idx <= i < |vs| ==> v.start <= vs[i].start
    requires lo == (if idx > 0 && Mergeable(vs[idx - 1], v) then idx - 1 else idx)
    requires hi == (if idx < |vs| && Mergeable(v, vs[idx]) then idx + 1 else idx)
    requires w == Vma(if lo < idx then vs[lo].start else v.start, if idx < hi then vs[idx].end else v.end, v.attr)
    ensures EmptyAdded(vs, v, true, Splice(vs, lo, hi, w))
  {
    EmptyRoom(vs, idx, v);
    EmptyTouches(vs, idx, v);
    assert 0 < idx < |vs| ==> !Mergeable(vs[idx - 1], vs[idx]);
    if lo < idx || idx < hi {
      assert vs == vs[..lo] + [vs[lo]] + vs[hi..];
    } else {
      assert Splice(vs, lo, hi, w)[idx] == v;
    }
  }

  lemma EmptyTouches(vs: seq<Vma>, idx: nat, v: Vma)
    requires Sorted(vs) && idx <= |vs| && v.start == v.end && Room(vs, idx, v.start, v.end)
    requires forall i :: 0 <= i < idx ==> vs[i].start < v.start
    requires forall i :: idx <= i < |vs| ==> v.start <= vs[i].start
    ensures TouchesSame(vs, v) <==> (idx > 0 && Mergeable(vs[idx - 1], v)) || (idx < |vs| && Mergeable(v, vs[idx]))
  {
    if i :| 0 <= i < |vs| && (vs[i].end == v.start || vs[i].start == v.start) && vs[i].attr == v.attr {
      assert i < idx - 1 ==> vs[i].end <= vs[idx - 1].start;
      assert idx < i ==> vs[idx].end <= vs[i].start;
    }
  }

  /** What adding an area does. */
  ghost predicate AreaAdded(vs: seq<Vma>, v: Vma, ok: bool, ws: seq<Vma>) {
    if v.start < v.end
    then (ok <==> Vacant(vs, v.start, v.end)) && Canonical(ws) && (ok ==> Overlaid(vs, ws, v))
    else EmptyAdded(vs, v, ok, ws)
  }

  lemma AreaRefused(vs: seq<Vma>, idx: nat, v: Vma)
    requires Canonical(vs) && idx <= |vs| && v.start <= v.end
    requires forall i :: 0 <= i < idx ==> vs[i].start < v.start
    requires forall i :: idx <= i < |vs| ==> v.start <= vs[i].start
    ensures !Room(vs, idx, v.start, v.end) ==> AreaAdded(vs, v, false, vs)
  {
    if v.start < v.end { RoomIsVacant(vs, idx, v.start, v.end); } else { EmptyRoom(vs, idx, v); }
  }

  lemma AreaSpliced(vs: seq<Vma>, idx: nat, v: Vma, lo: nat, hi: nat, w: Vma)
    requires Canonical(vs) && idx <= |vs| && v.start <= v.end && Room(vs, idx, v.start, v.end)
    requires forall i :: 0 <= i < idx ==> vs[i].start < v.start
    requires forall i :: idx <= i < |vs| ==> v.start <= vs[i].start
    requires lo == (if idx > 0 && Mergeable(vs[idx - 1], v) then idx - 1 else idx)
    requires hi == (if idx < |vs| && Mergeable(v, vs[idx]) then idx + 1 else idx)
    requires w == Vma(if lo < idx then vs[lo].start else v.start, if idx < hi then vs[idx].end else v.end, v.attr)
    ensures AreaAdded(vs, v, true, Splice(vs, lo, hi, w))
  {
    if v.start < v.end {
      RoomIsVacant(vs, idx, v.start, v.end);
      AddFacts(vs, idx, v, lo, hi, w);
    } else {
      EmptyFacts(vs, idx, v, lo, hi, w);
    }
  }

  lemma SpliceUserAreas(vs: seq<Vma>, lo: nat, hi: nat, w: Vma)
    requires lo <= hi <= |vs| && UserAreas(vs) && UserArea(w)
    ensures UserAreas(Splice(vs, lo, hi, w))
  {
    var r := Splice(vs, lo, hi, w);
    forall i | 0 <= i < |r| ensures UserArea(r[i]) { SpliceAt(vs, lo, hi, w, i); }
  }

  /** The zone has `size` vacant addresses from `a` on. */
  ghost predicate GapAt(vs: seq<Vma>, a: nat, size: nat) {
    MMAP_ZONE_START <= a && a + size <= MMAP_ZONE_END && Vacant(vs, a, a + size)
  }

  /** `r` is the lowest such address, or none if there is none. */
  ghost predicate FirstGap(vs: seq<Vma>, size: nat, r: Option<nat>) {
    match r
    case None => forall b: nat :: !GapAt(vs, b, size)
    case Some(a) => GapAt(vs, a, size) && forall b: nat :: b < a ==> !GapAt(vs, b, size)
  }

  /** Everything before area `i` ends by `cursor`, and `size` addresses are left before the area starts. */
  lemma GapBefore(vs: seq<Vma>, i: nat, cursor: nat, size: nat)
    requires Sorted(vs) && i <= |vs| && MMAP_ZONE_START <= cursor && cursor + size <= MMAP_ZONE_END
    requires forall j :: 0 <= j < i ==> vs[j].end <= cursor
    requires i < |vs| ==> cursor + size <= vs[i].start || MMAP_ZONE_END <= vs[i].start
    ensures GapAt(vs, cursor, size)
  {
    forall a: nat | cursor <= a < cursor + size ensures Lookup(vs, a).None? {
      forall j | 0 <= j < |vs| ensures !vs[j].Contains(a) {
        assert i < j ==> vs[i].end <= vs[j].start;
      }
      LookupNone(vs, a);
    }
  }

  /** Too little room before area `i`: no gap starts before the area ends. */
  lemma NoGapBefore(vs: seq<Vma>, i: nat, cursor: nat, size: nat)
    requires Sorted(vs) && i < |vs| && size > 0 && vs[i].start < cursor + size
    requires forall b: nat :: b < cursor ==> !GapAt(vs, b, size)
    ensures forall b: nat :: b < vs[i].end ==> !GapAt(vs, b, size)
  {
    forall b: nat | cursor <= b < vs[i].end ensures !GapAt(vs, b, size) {
      LookupAt(vs, i, if b < vs[i].start then vs[i].start else b);
    }
  }

  function RoundUp(a: nat): nat { (a + 4095) / 4096 * 4096 }

  /** What lies in the zone keeps off whatever avoids the zone. */
  lemma ZonePages(start: nat, size: nat)
    requires MMAP_ZONE_START <= start && start + size <= MMAP_ZONE_END
    ensures MMAP_ZONE_START / 4096 <= start / 4096 && (start + size) / 4096 <= MMAP_ZONE_END / 4096
  {
  }

  /** The pages that begin and end a range of `size` bytes from `addr` on, both rounded up. */
  function BeginPage(addr: nat): nat { RoundUp(addr) / 4096 }
  function EndPage(addr: nat, size: nat): nat { (RoundUp(addr) + RoundUp(size)) / 4096 }

  lemma RangePages(addr: nat, size: nat, start: nat, hi: nat)
    requires start == RoundUp(addr) && hi == RoundUp(start + size) / 4096
    ensures BeginPage(addr) == start / 4096 <= hi == EndPage(addr, size)
  {
    RoundUpFacts(addr);
    RoundUpShift(start, size);
  }

  lemma RoundUpShift(start: nat, size: nat)
    requires start % 4096 == 0
    ensures RoundUp(start + size) == start + RoundUp(size)
  {
  }

  lemma RoundUpFacts(size: nat)
    ensures RoundUp(size) % 4096 == 0 && size <= RoundUp(size) < size + 4096
  {
  }

  lemma ClearedVacant(vs: seq<Vma>, ws: seq<Vma>, lo: nat, hi: nat)
    requires Cleared(vs, ws, lo, hi)
    ensures Vacant(ws, lo, hi)
  {
  }

  lemma OverlaidAfterClear(vs: seq<Vma>, us: seq<Vma>, ws: seq<Vma>, v: Vma)
    requires Cleared(vs, us, v.start, v.end) && Overlaid(us, ws, v)
    ensures Overlaid(vs, ws, v)
  {
  }

  lemma NewAreaPages(vs: seq<Vma>, ws: seq<Vma>, v: Vma)
    requires Overlaid(vs, ws, v) && UserArea(v)
    ensures forall n: nat ::
      PageAttr(ws, n) == if v.start / 4096 <= n < v.end / 4096 then Some(v.attr) else PageAttr(vs, n)
  {
    WholePages(v.start);
    WholePages(v.end);
    forall n: nat
      ensures PageAttr(ws, n) == if v.start / 4096 <= n < v.end / 4096 then Some(v.attr) else PageAttr(vs, n)
    {
      assert Lookup(ws, n * 4096) == if v.Contains(n * 4096) then Some(v.attr) else Lookup(vs, n * 4096);
    }
  }

  lemma WholePages(a: nat)
    requires a % 4096 == 0
    ensures a == 4096 * (a / 4096)
  {
  }

  lemma PageBoundary(k: nat)
    ensures (4096 * k) % 4096 == 0
  {
  }

  lemma PageOfPage(k: nat)
    requires k < PAGES
    ensures PageOf(k * 4096) == k == Around(k)
  {
  }

  lemma PageAround(page: nat)
    ensures PageOf(page * 4096) == Around(page) < PAGES
  {
  }

  lemma UserPage(v: Vma, a: nat)
    requires UserArea(v) && v.Contains(a)
    ensures a / 4096 == Around(a / 4096) < USER_PAGES
  {
  }

  lemma TranslatePage(m: Mem, root: nat, k: nat)
    requires k < PAGES && !WalkPage(m, root, k).Huge?
    ensures Translate(m, root, k * 4096) ==
      if WalkPage(m, root, k).Small? then Some(WalkPage(m, root, k).frame * 4096) else None
  {
    PageOfPage(k);
    PartsOfPage(k * 4096);
  }

  /** The translation of a page that is an area's, or not mapped, gives the frame behind it, which holds data. */
  lemma SourcePage(m: Mem, s: set<nat>, z: Space, k: nat)
    requires SpaceOk(m, s, z) && k < USER_PAGES
    requires (PageAttr(z.areas, k).Some? || (k in z.walks && z.walks[k] == Unmapped))
    ensures match UserFrame(z.walks, z.areas, k)
      case None => Translate(m, z.root, k * 4096) == None
      case Some(g) => Translate(m, z.root, k * 4096) == Some(g * 4096) && g * 4096 / 4096 == g && IsData(At(m, g))
  {
    assert k in z.walks && WalkPage(m, z.root, k) == z.walks[k];
    TranslatePage(m, z.root, k);
    assert UserFrame(z.walks, z.areas, k).Some? ==> GoodFrame(m, z.tabs, s, UserFrame(z.walks, z.areas, k).value);
  }

  lemma AreaByStart(vs: seq<Vma>, v: Vma, r: Option<Vma>)
    requires Sorted(vs) && v in vs
    requires r.Some? <==> exists i :: 0 <= i < |vs| && vs[i].start == v.start
    requires r.Some? ==> r.value in vs && r.value.start == v.start
    ensures r == Some(v)
  {
    var i :| 0 <= i < |vs| && vs[i] == v;
    var j :| 0 <= j < |vs| && vs[j] == r.value;
    SameStart(vs, i, j);
  }

  lemma SameStart(vs: seq<Vma>, i: nat, j: nat)
    requires Sorted(vs) && i < |vs| && j < |vs| && vs[i].start == vs[j].start
    ensures i == j
  {
  }

  lemma AreaLookup(vs: seq<Vma>, v: Vma)
    requires Sorted(vs) && v in vs
    ensures v.start < v.end && forall a: nat :: v.Contains(a) ==> Lookup(vs, a) == Some(v.attr)
  {
    var i :| 0 <= i < |vs| && vs[i] == v;
    forall a: nat | v.Contains(a) ensures Lookup(vs, a) == Some(v.attr) { LookupAt(vs, i, a); }
  }

  /** Once `v` is removed, the parts of it outside the hole can be added again. */
  lemma RemainderVacant(vs: seq<Vma>, us: seq<Vma>, v: Vma, lo: nat, hi: nat)
    requires Sorted(vs) && v in vs && Cleared(vs, us, v.start, v.end) && lo < hi && v.start < hi && lo < v.end
    ensures Vacant(us, v.start, if v.start < lo then lo else v.start)
    ensures Vacant(us, if hi < v.end then hi else v.end, v.end)
    ensures forall ls :: Overlaid(us, ls, Vma(v.start, lo, v.attr)) ==>
      Vacant(ls, if hi < v.end then hi else v.end, v.end)
  {
  }

  lemma CarvedOut(vs: seq<Vma>, us: seq<Vma>, ls: seq<Vma>, rs: seq<Vma>, v: Vma, lo: nat, hi: nat)
    requires Sorted(vs) && v in vs && Cleared(vs, us, v.start, v.end) && lo < hi && v.start < hi && lo < v.end
    requires if v.start < lo then Overlaid(us, ls, Vma(v.start, lo, v.attr)) else ls == us
    requires if v.end > hi then Overlaid(ls, rs, Vma(hi, v.end, v.attr)) else rs == ls
    ensures Cleared(vs, rs, Bits.Max(v.start, lo), Bits.Min(v.end, hi))
  {
    AreaLookup(vs, v);
    forall a: nat
      ensures Lookup(rs, a) == if Bits.Max(v.start, lo) <= a < Bits.Min(v.end, hi) then None else Lookup(vs, a)
    {
      assert Lookup(us, a) == if v.Contains(a) then None else Lookup(vs, a);
      assert v.start < lo ==> Lookup(ls, a) == if v.start <= a < lo then Some(v.attr) else Lookup(us, a);
      assert v.end > hi ==> Lookup(rs, a) == if hi <= a < v.end then Some(v.attr) else Lookup(ls, a);
    }
  }

  lemma OverlapsToo(vs: seq<Vma>, first: nat, last: nat, i: nat, lo: nat, hi: nat)
    requires Sorted(vs) && first <= i < last <= |vs| && lo < vs[first].end && vs[last - 1].start < hi
    ensures lo < vs[i].end && vs[i].start < hi
  {
    assert first < i ==> vs[first].end <= vs[i].start;
    assert i < last - 1 ==> vs[i].end <= vs[last - 1].start;
  }

  lemma AllOverlap(vs: seq<Vma>, found: seq<Vma>, first: nat, lo: nat, hi: nat)
    requires Sorted(vs) && first + |found| <= |vs| && forall j :: 0 <= j < |found| ==> found[j] == vs[first + j]
    requires |found| > 0 ==> lo < vs[first].end && vs[first + |found| - 1].start < hi
    ensures forall j :: 0 <= j < |found| ==> lo < found[j].end && found[j].start < hi
  {
    forall j | 0 <= j < |found| ensures lo < found[j].end && found[j].start < hi {
      OverlapsToo(vs, first, first + |found|, first + j, lo, hi);
    }
  }

  lemma GapLookup(vs: seq<Vma>, i: nat, a: nat)
    requires Sorted(vs) && i <= |vs| && (i > 0 ==> vs[i - 1].end <= a) && (i < |vs| ==> a < vs[i].start)
    ensures Lookup(vs, a).None?
  {
    forall j | 0 <= j < |vs| ensures !vs[j].Contains(a) {
      assert j < i - 1 ==> vs[j].end <= vs[i - 1].start;
      assert i < j ==> vs[i].end <= vs[j].start;
    }
    LookupNone(vs, a);
  }

  /** Areas begin and end on page boundaries, so an address has the attributes of its page. */
  lemma PageLookup(vs: seq<Vma>, a: nat)
    requires Sorted(vs) && UserAreas(vs)
    ensures Lookup(vs, a) == PageAttr(vs, a / 4096)
  {
    var p := a / 4096 * 4096;
    assert p <= a < p + 4096;
    if Lookup(vs, a).Some? {
      var i := LookupFound(vs, a);
      PageInside(vs[i], a);
      LookupAt(vs, i, p);
    } else if Lookup(vs, p).Some? {
      var i := LookupFound(vs, p);
      PageInside(vs[i], a);
      LookupAt(vs, i, a);
    }
  }

  lemma PageInside(v: Vma, a: nat)
    requires UserArea(v)
    ensures v.Contains(a) <==> v.Contains(a / 4096 * 4096)
  {
  }

  /** The next area to cut is still in the list. */
  lemma NextArea(vs: seq<Vma>, ws: seq<Vma>, i: nat, lo: nat, hi: nat, b: nat)
    requires Canonical(vs) && Canonical(ws) && i < |vs| && Cleared(vs, ws, lo, b) && b <= Bits.Max(vs[i].start, lo)
    ensures vs[i] in ws
  {
    var v := vs[i];
    forall a: nat | v.Contains(a) ensures Lookup(ws, a) == Some(v.attr) { LookupAt(vs, i, a); }
    if v.start > 0 { StartsAtStart(vs, i); }
    StopsAtEnd(vs, i);
    var j := RunIsArea(ws, v);
  }

  lemma HoleGrows(vs: seq<Vma>, ws: seq<Vma>, us: seq<Vma>, i: nat, lo: nat, hi: nat, b: nat, e: nat)
    requires Sorted(vs) && i < |vs| && vs[i].start < hi && lo < vs[i].end && lo <= b
    requires b <= Bits.Max(vs[i].start, lo) && (i > 0 ==> vs[i - 1].end <= b) && e == Bits.Min(vs[i].end, hi)
    requires Cleared(vs, ws, lo, b) && Cleared(ws, us, Bits.Max(vs[i].start, lo), Bits.Min(vs[i].end, hi))
    ensures Cleared(vs, us, lo, e)
  {
    forall a: nat ensures Lookup(us, a) == if lo <= a < e then None else Lookup(vs, a) {
      if b <= a < vs[i].start { GapLookup(vs, i, a); }
      assert Lookup(ws, a) == if lo <= a < b then None else Lookup(vs, a);
    }
  }

  /** Page `b` separates the areas before position `i` from the part of the hole still to be cut. */
  ghost predicate HoleAt(vs: seq<Vma>, i: nat, lo: nat, hi: nat, b: nat)
    requires i <= |vs|
  {
    && lo <= b <= hi
    && (i > 0 ==> vs[i - 1].end <= 4096 * b || b == hi)
    && (i < |vs| ==> 4096 * b <= Bits.Max(vs[i].start, 4096 * lo))
  }

  lemma HoleStep(vs: seq<Vma>, i: nat, lo: nat, hi: nat, b: nat)
    requires Sorted(vs) && UserAreas(vs) && i < |vs| && vs[i].start < 4096 * hi && 4096 * lo < vs[i].end && lo < hi
    requires HoleAt(vs, i, lo, hi, b)
    ensures i > 0 ==> vs[i - 1].end <= 4096 * b
    ensures HoleAt(vs, i + 1, lo, hi, Bits.Min(vs[i].end / 4096, hi))
    ensures 4096 * Bits.Min(vs[i].end / 4096, hi) == Bits.Min(vs[i].end, 4096 * hi)
  {
    assert UserArea(vs[i]);
    assert i + 1 < |vs| ==> vs[i].end <= vs[i + 1].start;
    assert i > 0 ==> vs[i - 1].end <= vs[i].start;
  }

  /** The pages between `b` and the area belong to no area; those from `from` to `to` belong to it. */
  lemma HolePages(vs: seq<Vma>, i: nat, lo: nat, hi: nat, b: nat, from: nat, to: nat)
    requires Sorted(vs) && UserAreas(vs) && i < |vs| && vs[i].start < 4096 * hi && 4096 * lo < vs[i].end && lo < hi
    requires HoleAt(vs, i, lo, hi, b) && from == Bits.Max(vs[i].start / 4096, lo)
    requires to == Bits.Min(vs[i].end / 4096, hi)
    ensures b <= from <= to && NoAreaPages(vs, b, from)
    ensures forall n: nat :: from <= n < to ==> PageAttr(vs, n) == Some(vs[i].attr)
  {
    HoleStep(vs, i, lo, hi, b);
    assert UserArea(vs[i]);
    forall n: nat | b <= n < from ensures PageAttr(vs, n).None? { GapLookup(vs, i, n * 4096); }
    forall n: nat | from <= n < to ensures PageAttr(vs, n) == Some(vs[i].attr) { LookupAt(vs, i, n * 4096); }
  }

  lemma HoleEnds(vs: seq<Vma>, ws: seq<Vma>, i: nat, lo: nat, hi: nat, b: nat)
    requires Sorted(vs) && i <= |vs| && HoleAt(vs, i, lo, hi, b)
    requires i < |vs| ==> 4096 * hi <= vs[i].start
    requires Cleared(vs, ws, 4096 * lo, 4096 * b)
    ensures Cleared(vs, ws, 4096 * lo, 4096 * hi) && NoAreaPages(vs, b, hi)
  {
    forall a: nat | 4096 * b <= a < 4096 * hi ensures Lookup(vs, a).None? { GapLookup(vs, i, a); }
    forall n: nat | b <= n < hi ensures PageAttr(vs, n).None? { GapLookup(vs, i, n * 4096); }
  }

  lemma ClearedPages(vs: seq<Vma>, ws: seq<Vma>, lo: nat, hi: nat)
    requires Cleared(vs, ws, lo, hi)
    ensures forall n: nat :: PageAttr(ws, n).Some? ==> PageAttr(vs, n) == PageAttr(ws, n)
  {
    forall n: nat | PageAttr(ws, n).Some? ensures PageAttr(vs, n) == PageAttr(ws, n) {
      assert Lookup(ws, n * 4096).Some?;
    }
  }

  /** All pages from `lo` to `hi` can be released; freeing a frame before its page is unmapped needs an area. */
  ghost predicate AllReleasable(walks: Walks, vs: seq<Vma>, lo: nat, hi: nat, freeFirst: bool) {
    forall n: nat :: lo <= n < hi ==> Releasable(walks, vs, n) && (freeFirst ==> PageAttr(vs, n).Some?)
  }

  lemma RestReleasable(walks: Walks, vs: seq<Vma>, page: nat, hi: nat, freeFirst: bool)
    requires AllReleasable(walks, vs, page, hi, freeFirst)
    ensures AllReleasable(Zap(walks, page, page + 1), vs, page + 1, hi, freeFirst)
  {
    var next := Zap(walks, page, page + 1);
    forall n: nat | page + 1 <= n < hi ensures Releasable(next, vs, n) { assert Releasable(walks, vs, n); }
  }

  lemma AreaReleasable(m: Mem, walks: Walks, tabs: Tabs, vs: seq<Vma>, free: set<nat>, lo: nat, hi: nat)
    requires Backed(m, walks, tabs, vs, free) && hi <= USER_PAGES
    requires forall n: nat :: lo <= n < hi ==> PageAttr(vs, n).Some?
    ensures forall n: nat :: lo <= n < hi ==> Releasable(walks, vs, n)
  {
  }

  // ---------- What munmap does ----------

  /**
   * What removing area `v` and sweeping the pages from its start to `hi` does: which addresses, frames and bytes
   * change. It is confined to the address space exactly when it meets no page mapped outside the areas; nothing stale
   * stays mapped exactly when it visits every touched page of `v`; and no frame is lost exactly when both hold.
   */
  ghost predicate MunmapMeans(m: Mem, s: set<nat>, x: Space, n: Mem, t: set<nat>, y: Space, image: Image, v: Vma,
                              hi: nat)
  {
    var lo, end := v.start / 4096, v.end / 4096;
    && Cleared(x.areas, y.areas, v.start, v.end) && MunmapView(m, x, n, y, lo, hi, end)
    && Swept(m, s, x.walks, n, t, y.walks, x.tabs, lo, hi)
    && (Confined(m, s, x, n, t, y) <==> NoneForeign(x.walks, x.areas, lo, hi))
    && (Tidy(y.walks, y.areas, image) <==> NoneLeft(x.walks, x.areas, lo, hi, end))
    && (Conserved(s, x, t, y) <==>
          NoneForeign(x.walks, x.areas, lo, hi) && NoneLeft(x.walks, x.areas, lo, hi, end))
  }

  ghost predicate Munmapped(m: Mem, s: set<nat>, x: Space, n: Mem, t: set<nat>, y: Space, image: Image, start: nat,
                            hi: nat)
  {
    exists v :: v in x.areas && v.start == start && MunmapMeans(m, s, x, n, t, y, image, v, hi)
  }

  /** The pages of an area, and those that are left once it is removed. */
  lemma AreaGone(vs: seq<Vma>, ws: seq<Vma>, v: Vma)
    requires Sorted(vs) && UserAreas(vs) && v in vs && Cleared(vs, ws, v.start, v.end)
    ensures v.end / 4096 <= USER_PAGES
    ensures forall k: nat :: v.start / 4096 <= k < v.end / 4096 ==> PageAttr(vs, k).Some?
    ensures forall k: nat ::
      PageAttr(ws, k) == if v.start / 4096 <= k < v.end / 4096 then None else PageAttr(vs, k)
  {
    assert UserArea(v) by { var i :| 0 <= i < |vs| && vs[i] == v; }
    WholePages(v.start);
    WholePages(v.end);
    AreaLookup(vs, v);
    forall k: nat | v.start / 4096 <= k < v.end / 4096 ensures PageAttr(vs, k).Some? { assert v.Contains(k * 4096); }
    forall k: nat ensures PageAttr(ws, k) == if v.start / 4096 <= k < v.end / 4096 then None else PageAttr(vs, k) {
      var a := k * 4096;
      assert Lookup(ws, a) == if v.start <= a < v.end then None else Lookup(vs, a);
    }
  }

  lemma MunmapDone(m: Mem, s: set<nat>, x: Space, n: Mem, t: set<nat>, y: Space, image: Image, v: Vma, hi: nat)
    requires SpaceOk(m, s, x) && Tidy(x.walks, x.areas, image) && Sorted(x.areas) && v in x.areas && UserAreas(x.areas)
    requires Swept(m, s, x.walks, n, t, y.walks, x.tabs, v.start / 4096, hi)
    requires Freeable(x.walks, x.tabs, x.areas, s, v.start / 4096, hi)
    requires Cleared(x.areas, y.areas, v.start, v.end) && y.tabs == x.tabs && Backed(n, y.walks, y.tabs, x.areas, t)
    ensures MunmapMeans(m, s, x, n, t, y, image, v, hi) && Backed(n, y.walks, y.tabs, y.areas, t)
  {
    var lo, end := v.start / 4096, v.end / 4096;
    AreaGone(x.areas, y.areas, v);
    assert Unmapping(m, s, x, n, t, y, lo, hi, end);
    MunmapConfined(m, s, x, n, t, y, lo, hi, end);
    MunmapConserves(m, s, x, n, t, y, lo, hi, end);
    MunmapTidies(m, s, x, n, t, y, lo, hi, end, image);
    MunmapShows(m, s, x, n, t, y, lo, hi, end);
    ClearedPages(x.areas, y.areas, v.start, v.end);
    BackedSubset(n, y.walks, y.tabs, x.areas, y.areas, t);
  }

  lemma FrameKept(m: Mem, s: set<nat>, x: Space, n: Mem, t: set<nat>, lo: nat, hi: nat, k: nat)
    requires SpaceOk(m, s, x) && Reclaimed(s, t, x.walks, x.areas, lo, hi) && WrittenOnly(m, n, x.tabs, t)
    requires UserFrame(x.walks, x.areas, k).Some? && !(lo <= k < hi)
    ensures var f := UserFrame(x.walks, x.areas, k).value; At(n, f) == At(m, f) && IsData(At(m, f))
  {
    var f := UserFrame(x.walks, x.areas, k).value;
    assert GoodFrame(m, x.tabs, s, f);
    assert !Backs(x.walks, x.areas, lo, hi, f);
    assert !IsOwnTable(x.tabs, f);
  }

  /** The bytes from page `lo` to page `hi` are gone, the others read as before. */
  ghost predicate Holed(m: Mem, x: Space, n: Mem, y: Space, lo: nat, hi: nat) {
    forall a: nat ::
      View(n, y.walks, y.areas, a) == if 4096 * lo <= a < 4096 * hi then None else View(m, x.walks, x.areas, a)
  }

  lemma HoleShows(m: Mem, s: set<nat>, x: Space, n: Mem, t: set<nat>, y: Space, lo: nat, hi: nat)
    requires SpaceOk(m, s, x) && PunchedOut(m, s, x.walks, n, t, y.walks, x.tabs, x.areas, lo, hi)
    requires Cleared(x.areas, y.areas, 4096 * lo, 4096 * hi)
    ensures Holed(m, x, n, y, lo, hi)
  {
    PunchFrames(m, s, x, n, t, y, lo, hi);
    forall a: nat
      ensures View(n, y.walks, y.areas, a) == if 4096 * lo <= a < 4096 * hi then None else View(m, x.walks, x.areas, a)
    {
      var k := a / 4096;
      PageSplit(k, a);
      assert Lookup(y.areas, k * 4096) == if 4096 * lo <= k * 4096 < 4096 * hi then None else Lookup(x.areas, k * 4096);
      if UserFrame(x.walks, x.areas, k).Some? && !(lo <= k < hi) { FrameKept(m, s, x, n, t, lo, hi, k); }
    }
  }

  /** A hole leaves nothing stale. */
  lemma HoleTidy(m: Mem, s: set<nat>, x: Space, n: Mem, t: set<nat>, y: Space, lo: nat, hi: nat, image: Image)
    requires SpaceOk(m, s, x) && PunchedOut(m, s, x.walks, n, t, y.walks, x.tabs, x.areas, lo, hi)
    requires Cleared(x.areas, y.areas, 4096 * lo, 4096 * hi) && Tidy(x.walks, x.areas, image)
    ensures Tidy(y.walks, y.areas, image)
  {
    forall k: nat ensures PageAttr(y.areas, k) == if lo <= k < hi then None else PageAttr(x.areas, k) {
      assert Lookup(y.areas, k * 4096) == if 4096 * lo <= k * 4096 < 4096 * hi then None else Lookup(x.areas, k * 4096);
    }
    TidyAfter(x.walks, y.walks, x.areas, y.areas, image);
  }

  /** From a sound address space, a hole takes its own bytes only and leaves nothing stale. */
  ghost predicate HoleLeaves(m: Mem, s: set<nat>, x: Space, n: Mem, y: Space, image: Image, lo: nat, hi: nat) {
    SpaceOk(m, s, x) ==> Holed(m, x, n, y, lo, hi) && (Tidy(x.walks, x.areas, image) ==> Tidy(y.walks, y.areas, image))
  }

  lemma HoleLeft(m: Mem, s: set<nat>, x: Space, n: Mem, t: set<nat>, y: Space, image: Image, lo: nat, hi: nat)
    requires PunchedOut(m, s, x.walks, n, t, y.walks, x.tabs, x.areas, lo, hi)
    requires Cleared(x.areas, y.areas, 4096 * lo, 4096 * hi)
    ensures HoleLeaves(m, s, x, n, y, image, lo, hi)
  {
    if SpaceOk(m, s, x) {
      HoleShows(m, s, x, n, t, y, lo, hi);
      if Tidy(x.walks, x.areas, image) { HoleTidy(m, s, x, n, t, y, lo, hi, image); }
    }
  }

  // ---------- New areas ----------

  /** The bytes of `v` read as zero, the others as before. */
  ghost predicate ZeroArea(m: Mem, x: Space, n: Mem, y: Space, v: Vma) {
    forall a: nat :: View(n, y.walks, y.areas, a) == if v.Contains(a) then Some(0) else View(m, x.walks, x.areas, a)
  }

  /** A new area where nothing is mapped: it reads as zero, and nothing else changes. */
  lemma AreaMapped(m: Mem, s: set<nat>, x: Space, y: Space, v: Vma, image: Image)
    requires SpaceOk(m, s, x) && Tidy(x.walks, x.areas, image) && UserArea(v) && Vacant(x.areas, v.start, v.end)
    requires y == x.(areas := y.areas) && Overlaid(x.areas, y.areas, v) && image.Avoids(v.start / 4096, v.end / 4096)
    ensures SpaceOk(m, s, y) && Confined(m, s, x, m, s, y) && Conserved(s, x, s, y)
    ensures Tidy(y.walks, y.areas, image) && ZeroArea(m, x, m, y, v)
  {
    var lo, hi := v.start / 4096, v.end / 4096;
    WholePages(v.start);
    WholePages(v.end);
    NewAreaPages(x.areas, y.areas, v);
    forall k: nat | lo <= k < hi ensures PageAttr(x.areas, k).None? { assert Lookup(x.areas, k * 4096).None?; }
    TidyUnmapped(x.walks, x.areas, image, lo, hi);
    NewAreaBacked(m, x.walks, x.tabs, x.areas, y.areas, s, lo, hi);
    NewAreaConfined(m, s, x, m, s, x, y);
    TidyArea(x.walks, x.areas, y.areas, image, lo, hi);
    forall a: nat
      ensures View(m, y.walks, y.areas, a) == if v.Contains(a) then Some(0) else View(m, x.walks, x.areas, a)
    {
      PageSplit(a / 4096, a);
    }
  }

  predicate StartsAt(vs: seq<Vma>, start: nat) {
    exists i :: 0 <= i < |vs| && vs[i].start == start
  }

  /** Removing a whole area removes exactly the range asked for when it covers the area and meets no other. */
  lemma MunmapExact(vs: seq<Vma>, ws: seq<Vma>, v: Vma, end: nat)
    requires Sorted(vs) && v in vs && v.start < end && Cleared(vs, ws, v.start, v.end)
    ensures Cleared(vs, ws, v.start, end) <==> v.end <= end && Vacant(vs, v.end, end)
  {
    AreaLookup(vs, v);
    if v.end > end {
      assert Lookup(vs, end) == Some(v.attr) && Lookup(ws, end).None?;
    } else if !Vacant(vs, v.end, end) {
      var a: nat :| v.end <= a < end && Lookup(vs, a).Some?;
      assert Lookup(ws, a) == Lookup(vs, a);
    }
  }

  /** Unmapping the first of two pages takes both out of the list. */
  lemma MunmapTakesWholeArea() returns (vs: seq<Vma>, ws: seq<Vma>, v: Vma)
    ensures Canonical(vs) && v in vs && v.start == 4096 && Cleared(vs, ws, v.start, v.end)
    ensures !Cleared(vs, ws, 4096, 8192)
  {
    v := Vma(4096, 12288, Attr(VmaFlags(true, true, false), Anonymous));
    vs, ws := [v], [];
    assert vs[0] == v;
    MunmapExact(vs, ws, v, 8192);
  }

  /** A hole is cut out of nothing but the address space itself. */
  lemma PunchConfined(m: Mem, s: set<nat>, x: Space, n: Mem, t: set<nat>, y: Space, lo: nat, hi: nat)
    requires PunchedOut(m, s, x.walks, n, t, y.walks, x.tabs, x.areas, lo, hi) && hi <= USER_PAGES
    requires Cleared(x.areas, y.areas, 4096 * lo, 4096 * hi) && y.tabs == x.tabs
    ensures Confined(m, s, x, n, t, y) && Conserved(s, x, t, y)
  {
    PunchFrames(m, s, x, n, t, y, lo, hi);
    ShrinkConserved(s, x, t, y, lo, hi);
    ClearedPages(x.areas, y.areas, 4096 * lo, 4096 * hi);
    forall f: nat | Backs(x.walks, x.areas, lo, hi, f) ensures Holds(x, f) {
      var k: nat :| lo <= k < hi && UserFrame(x.walks, x.areas, k) == Some(f);
      assert 0 <= k < USER_PAGES;
    }
    ShrinkConfined(m, s, x, n, t, y);
  }

  lemma PunchFrames(m: Mem, s: set<nat>, x: Space, n: Mem, t: set<nat>, y: Space, lo: nat, hi: nat)
    requires PunchedOut(m, s, x.walks, n, t, y.walks, x.tabs, x.areas, lo, hi)
    requires Cleared(x.areas, y.areas, 4096 * lo, 4096 * hi)
    ensures forall k: nat ::
      UserFrame(y.walks, y.areas, k) == if lo <= k < hi then None else UserFrame(x.walks, x.areas, k)
  {
    forall k: nat
      ensures UserFrame(y.walks, y.areas, k) == if lo <= k < hi then None else UserFrame(x.walks, x.areas, k)
    {
      assert Lookup(y.areas, k * 4096) == if 4096 * lo <= k * 4096 < 4096 * hi then None else Lookup(x.areas, k * 4096);
    }
  }

  /** An area whose pages are unmapped adds no frame. */
  lemma NewAreaConfined(m: Mem, s: set<nat>, x: Space, n: Mem, t: set<nat>, y: Space, z: Space)
    requires Confined(m, s, x, n, t, y) && z == y.(areas := z.areas)
    requires forall k: nat :: UserFrame(z.walks, z.areas, k) == UserFrame(y.walks, y.areas, k)
    ensures Confined(m, s, x, n, t, z) && (Conserved(s, x, t, y) ==> Conserved(s, x, t, z))
  {
    forall f: nat | Holds(y, f) ensures Holds(z, f) {
      var k: nat :| 0 <= k < USER_PAGES && UserFrame(y.walks, y.areas, k) == Some(f);
      assert UserFrame(z.walks, z.areas, k) == Some(f);
    }
    forall f: nat | Holds(z, f) ensures Holds(y, f) {
      var k: nat :| 0 <= k < USER_PAGES && UserFrame(z.walks, z.areas, k) == Some(f);
      assert UserFrame(y.walks, y.areas, k) == Some(f);
    }
  }

  /** A hole and then a new area in it. */
  lemma FixedComposes(m: Mem, s: set<nat>, x: Space, y: Space, n: Mem, t: set<nat>, z: Space, v: Vma)
    requires v.start % 4096 == 0 && v.end % 4096 == 0
    requires Cleared(x.areas, y.areas, v.start, v.end) && Overlaid(y.areas, z.areas, v)
    requires Confined(m, s, x, n, t, y) && Confined(n, t, y, n, t, z) && Conserved(s, x, t, y) && Conserved(t, y, t, z)
    requires Holed(m, x, n, y, v.start / 4096, v.end / 4096) && ZeroArea(n, y, n, z, v)
    ensures Overlaid(x.areas, z.areas, v) && Confined(m, s, x, n, t, z) && Conserved(s, x, t, z)
    ensures ZeroArea(m, x, n, z, v)
  {
    OverlaidAfterClear(x.areas, y.areas, z.areas, v);
    ConfinedTrans(m, s, x, n, t, y, n, t, z);
    ConservedTrans(s, x, t, y, t, z);
    WholePages(v.start);
    WholePages(v.end);
    forall a: nat
      ensures View(n, z.walks, z.areas, a) == if v.Contains(a) then Some(0) else View(m, x.walks, x.areas, a)
    {
      assert View(n, z.walks, z.areas, a) == if v.Contains(a) then Some(0) else View(n, y.walks, y.areas, a);
    }
  }

  /** After the last area the address space is vacant. */
  lemma RestVacant(vs: seq<Vma>, b: nat)
    requires Sorted(vs) && UserAreas(vs) && HoleAt(vs, |vs|, 0, USER_PAGES, b)
    ensures NoAreaPages(vs, b, USER_PAGES)
  {
    forall n: nat | b <= n < USER_PAGES ensures PageAttr(vs, n).None? { GapLookup(vs, |vs|, n * 4096); }
  }

  lemma ShownIntact(m: Mem, free: set<nat>, root: nat, walks: Walks, tabs: Tabs)
    requires Shows(m, root, walks, tabs, free)
    ensures TableTeardown.Intact(m, root, Root, m, free)
  {
    forall f: nat | TableTeardown.Below(m, root, Root, f) ensures f > 0 && f !in free {
      var q :| Extends(q, Root) && Resolve(m, root, q) == Some(f);
      assert q in tabs && tabs[q] == f;
    }
  }

  lemma {:induction false} LowPaths(q: Path)
    requires q != Root
    ensures Extends(q, Root) && Extends(q, Sub(Root, TableTeardown.Through(q, Root)))
    ensures Low(q) <==> TableTeardown.Through(q, Root) < 256
  {
    if q.up != Root { LowPaths(q.up); }
  }

  /** The lower-half tables are the root and those that hang below its first 256 entries. */
  lemma OwnTables(m: Mem, free: set<nat>, root: nat, walks: Walks, tabs: Tabs, f: nat)
    requires Shows(m, root, walks, tabs, free)
    ensures IsOwnTable(tabs, f) <==> f == root || TableTeardown.BelowFirst(m, root, Root, 256, f)
  {
    assert Resolve(m, root, Root) == Some(root) && Low(Root);
    assert Root in tabs && tabs[Root] == root;
    if IsOwnTable(tabs, f) && f != root {
      var q :| q in tabs && Low(q) && tabs[q] == f;
      LowPaths(q);
      assert Resolve(m, root, q) == Some(f);
      assert TableTeardown.Below(m, root, Sub(Root, TableTeardown.Through(q, Root)), f);
    }
    if TableTeardown.BelowFirst(m, root, Root, 256, f) {
      var i: nat :| i < 256 && TableTeardown.Below(m, root, Sub(Root, i), f);
      var q :| Extends(q, Sub(Root, i)) && Resolve(m, root, q) == Some(f);
      TableTeardown.OneEntry(q, Root, i);
      LowPaths(q);
      assert q in tabs && Low(q) && tabs[q] == f;
    }
  }

  /** Area pages first, then the tables below the root, then the root: together, everything the address space owned. */
  lemma DestroyFacts(m: Mem, s: set<nat>, x: Space, n: Mem, t: set<nat>, walks: Walks, o: Mem, u: set<nat>, e: Mem,
                     free: set<nat>)
    requires PunchedOut(m, s, x.walks, n, t, walks, x.tabs, x.areas, 0, USER_PAGES)
    requires Shows(n, x.root, walks, x.tabs, t)
    requires TableTeardown.HalfDropped(n, x.root, 256, t, o, u) && free == u + {x.root} && SameExcept(o, e, free)
    ensures forall f: nat :: f in free <==> f in s || Owns(x, f)
    ensures SameExcept(m, e, free)
  {
    forall f: nat ensures IsOwnTable(x.tabs, f) <==> f == x.root || TableTeardown.BelowFirst(n, x.root, Root, 256, f) {
      OwnTables(n, t, x.root, walks, x.tabs, f);
    }
  }

  datatype FaultResult = Handled | NoArea | OutOfMemory | MapFailed

  lemma OneTaken(s: set<nat>, f: nat)
    requires f in s
    ensures |s - {f}| == |s| - 1
  {
  }

  datatype PageResult = Given | NoFrame | NotMapped

  /** How giving a frame to an untouched area page ends, by how many pages are free and how many tables are missing. */
  predicate PageDecided(r: PageResult, free: nat, lacking: nat) {
    && (r == NoFrame <==> free == 0)
    && (r == NotMapped <==> 1 <= free <= lacking)
    && (r == Given <==> free > lacking)
  }

  /**
   * Frame `f` left the free pages, was filled with `data`, and became the frame of page `k` if that could be mapped.
   */
  ghost predicate Placing(m: Mem, s: set<nat>, m1: Mem, f: nat, n: Mem, t: set<nat>, x: Space, y: Space,
                          k: nat, flags: Flags, data: seq<byte>, ok: bool)
  {
    && f > 0 && f in s && SameExcept(m, m1, s) && At(m1, f) == Bytes(data) && |data| == 4096
    && Grown(x.tabs, s - {f}, y.tabs, t) && WrittenOnly(m1, n, x.tabs, s - {f})
    && y == Space(x.root, if ok then x.walks[k := Small(f, flags)] else x.walks, y.tabs, x.areas)
    && Shows(n, y.root, y.walks, y.tabs, t)
  }

  /** What giving a frame to page `k` does, by its outcome. */
  ghost predicate PageGiven(m: Mem, s: set<nat>, x: Space, n: Mem, t: set<nat>, y: Space, k: nat, flags: Flags,
                            data: seq<byte>, r: PageResult)
    requires |data| == 4096
  {
    && Confined(m, s, x, n, t, y) && t <= s
    && match r
       case Given =>
         && Conserved(s, x, t, y) && PageFilled(m, x.walks, n, y.walks, x.areas, k, data)
         && FreshlyMapped(x.walks, y.walks, s, t, k, flags)
       case NoFrame => s == t == {} && n == m && y == x
       case NotMapped =>
         OneLost(s, x, t, y) && t == {} && y.walks == x.walks && SameView(m, x.walks, n, x.walks, x.areas)
  }

  lemma PagePlaced(m: Mem, s: set<nat>, m1: Mem, f: nat, n: Mem, t: set<nat>, x: Space, y: Space, k: nat, flags: Flags,
                   data: seq<byte>)
    requires SpaceOk(m, s, x) && Placing(m, s, m1, f, n, t, x, y, k, flags, data, true)
    requires k < USER_PAGES && k in x.walks && x.walks[k] == Unmapped && PageAttr(x.areas, k).Some?
    requires flags == PageFlags(PageAttr(x.areas, k).value.flags)
    ensures SpaceOk(n, t, y) && PageGiven(m, s, x, n, t, y, k, flags, data, Given)
  {
    FrameAdded(m, s, m1, f, n, t, x.walks, x.tabs, y.tabs, x.areas, k, flags, data);
    FilledView(m, n, x.walks, y.walks, x.areas, k, f, data);
    GrowConfined(m, s, m1, s - {f}, n, t, x, y);
    GrowConserved(s, f, x, t, y, k);
  }

  lemma PageNotPlaced(m: Mem, s: set<nat>, m1: Mem, f: nat, n: Mem, x: Space, y: Space, k: nat, flags: Flags,
                      data: seq<byte>)
    requires SpaceOk(m, s, x) && Placing(m, s, m1, f, n, {}, x, y, k, flags, data, false)
    ensures SpaceOk(n, {}, y) && PageGiven(m, s, x, n, {}, y, k, flags, data, NotMapped)
  {
    MappedElsewhere(m, s, m1, s - {f}, n, {}, x.walks, x.walks, x.tabs, y.tabs, x.areas);
    GrowConfined(m, s, m1, s - {f}, n, {}, x, y);
    FrameLost(m, s, f, x, {}, y);
  }

  /** How a fault on an untouched area page ends, given how many pages are free and how many tables are missing. */
  predicate FaultDecided(r: FaultResult, free: nat, lacking: nat) {
    && (r == OutOfMemory <==> free == 0)
    && (r == MapFailed <==> 1 <= free <= lacking)
    && (r == Handled <==> free > lacking)
  }

  /** Page `k` now has a frame that was free before and is not free any more, with the given permissions. */
  ghost predicate FreshlyMapped(walks: Walks, next: Walks, s: set<nat>, t: set<nat>, k: nat, flags: Flags) {
    exists f :: f in s && f !in t && next == walks[k := Small(f, flags)]
  }

  /** What giving page `k` a zeroed frame does, by its outcome: no byte that the process reads changes. */
  ghost predicate PageTouched(m: Mem, s: set<nat>, x: Space, n: Mem, t: set<nat>, y: Space, image: Image, k: nat,
                              flags: Flags, r: FaultResult)
  {
    && SameView(m, x.walks, n, y.walks, x.areas) && Confined(m, s, x, n, t, y) && t <= s
    && (Tidy(x.walks, x.areas, image) ==> Tidy(y.walks, x.areas, image))
    && (if r == MapFailed then OneLost(s, x, t, y) else Conserved(s, x, t, y))
    && (if r == Handled then FreshlyMapped(x.walks, y.walks, s, t, k, flags) else y.walks == x.walks && t == {})
  }

  /** Ring 3 reaches the page of an address exactly if it is mapped, and in an area as the area's flags say. */
  lemma FaultAccess(m: Mem, free: set<nat>, x: Space, a: nat)
    requires SpaceOk(m, free, x) && Canonical(x.areas) && UserAreas(x.areas)
    ensures PageOf(a) in x.walks
    ensures if x.walks[PageOf(a)] == Unmapped then !MayRead(m, x.root, PageOf(a))
            else Lookup(x.areas, a).Some? ==> AccessAs(m, x.root, PageOf(a), Lookup(x.areas, a).value.flags)
  {
    ShownGrants(m, x.root, x.walks, x.tabs, free, PageOf(a));
    if Lookup(x.areas, a).Some? {
      var i := LookupFound(x.areas, a);
      UserPage(x.areas[i], a);
      PageLookup(x.areas, a);
      AreaAccess(m, free, x, PageOf(a));
    }
  }

  class AddressSpace {
    const pageTable: PageTableManager
    ghost const image: Image
    var vmas: seq<Vma>
    ghost var walks: Walks
    ghost var tabs: Tabs

    constructor (pageTable: PageTableManager, ghost walks: Walks, ghost tabs: Tabs, ghost image: Image)
      ensures this.pageTable == pageTable && vmas == [] && this.walks == walks && this.tabs == tabs
      ensures this.image == image
    {
      this.pageTable := pageTable;
      this.image := image;
      vmas := [];
      this.walks := walks;
      this.tabs := tabs;
    }

    ghost function Here(): Space
      reads this`walks, this`tabs, this`vmas
    {
      Space(pageTable.pml4, walks, tabs, vmas)
    }

    /** The number of areas that start below `start`, by binary search. */
    method LowerBound(start: nat) returns (idx: nat)
      requires Sorted(vmas)
      ensures idx <= |vmas|
      ensures forall i :: 0 <= i < idx ==> vmas[i].start < start
      ensures forall i :: idx <= i < |vmas| ==> start <= vmas[i].start
    {
      idx := 0;
      var hi: nat := |vmas|;
      while idx < hi
        invariant idx <= hi <= |vmas|
        invariant forall i :: 0 <= i < idx ==> vmas[i].start < start
        invariant forall i :: hi <= i < |vmas| ==> start <= vmas[i].start
      {
        var mid := (idx + hi) / 2;
        if vmas[mid].start < start {
          idx := mid + 1;
        } else {
          hi := mid;
        }
      }
    }

    /** Adds an area, merging it with its neighbours; fails exactly when some address of it is taken. */
    method AddVma(v: Vma) returns (ok: bool)
      requires Canonical(vmas) && v.start <= v.end
      modifies this`vmas
      ensures AreaAdded(old(vmas), v, ok, vmas) && (!ok ==> vmas == old(vmas))
      ensures old(UserAreas(vmas)) && UserArea(v) ==> UserAreas(vmas)
    {
      var idx := LowerBound(v.start);
      AreaRefused(vmas, idx, v);
      if idx > 0 && vmas[idx - 1].end > v.start { return false; }
      if idx < |vmas| && v.end > vmas[idx].start { return false; }
      InsertMerged(idx, v);
      return true;
    }

    /** Inserts `v` at position `idx`, where there is room, merged with the areas that touch it and match it. */
    method InsertMerged(idx: nat, v: Vma)
      requires Canonical(vmas) && idx <= |vmas| && v.start <= v.end && Room(vmas, idx, v.start, v.end)
      requires forall i :: 0 <= i < idx ==> vmas[i].start < v.start
      requires forall i :: idx <= i < |vmas| ==> v.start <= vmas[i].start
      modifies this`vmas
      ensures AreaAdded(old(vmas), v, true, vmas)
      ensures old(UserAreas(vmas)) && UserArea(v) ==> UserAreas(vmas)
    {
      ghost var vs := vmas;
      ghost var lo := if idx > 0 && Mergeable(vs[idx - 1], v) then idx - 1 else idx;
      ghost var hi := if idx < |vs| && Mergeable(v, vs[idx]) then idx + 1 else idx;
      InsertIsSplice(vs, idx, lo, hi, v);
      var merged, at := v, idx;
      if at > 0 && Mergeable(vmas[at - 1], merged) {
        merged := merged.(start := vmas[at - 1].start);
        vmas := Without(vmas, at - 1);
        at := at - 1;
      }
      if at < |vmas| && Mergeable(merged, vmas[at]) {
        merged := merged.(end := vmas[at].end);
        vmas := Without(vmas, at);
      }
      InsertIsSplice(vs, idx, lo, hi, merged);
      vmas := vmas[..at] + [merged] + vmas[at..];
      AreaSpliced(vs, idx, v, at, hi, merged);
      if UserAreas(vs) && UserArea(v) { SpliceUserAreas(vs, at, hi, merged); }
    }

    /** The area that contains `addr`: the last one that starts at or below it, if it reaches that far. */
    method FindVma(addr: nat) returns (r: Option<Vma>)
      requires Sorted(vmas)
      ensures r.Some? <==> Lookup(vmas, addr).Some?
      ensures r.Some? ==> r.value in vmas && r.value.Contains(addr) && Lookup(vmas, addr) == Some(r.value.attr)
    {
      var idx := LowerBound(addr + 1);
      if idx == 0 {
        LookupNone(vmas, addr);
        return None;
      }
      var candidate := vmas[idx - 1];
      if candidate.Contains(addr) {
        LookupAt(vmas, idx - 1, addr);
        return Some(candidate);
      }
      forall i | 0 <= i < |vmas| ensures !vmas[i].Contains(addr) {
        assert i < idx - 1 ==> vmas[i].end <= vmas[idx - 1].start;
      }
      LookupNone(vmas, addr);
      return None;
    }

    /** Removes the area that starts exactly at `start`. */
    method RemoveVma(start: nat) returns (r: Option<Vma>)
      requires Canonical(vmas)
      modifies this`vmas
      ensures Canonical(vmas)
      ensures r.Some? <==> exists i :: 0 <= i < |old(vmas)| && old(vmas)[i].start == start
      ensures r.Some? ==>
        r.value in old(vmas) && r.value.start == start && Cleared(old(vmas), vmas, r.value.start, r.value.end)
      ensures r.None? ==> vmas == old(vmas)
      ensures old(UserAreas(vmas)) ==> UserAreas(vmas)
    {
      var idx := LowerBound(start);
      if idx < |vmas| && vmas[idx].start == start {
        r := Some(vmas[idx]);
        RemoveFacts(vmas, idx);
        vmas := Without(vmas, idx);
      } else {
        assert forall i :: idx < i < |vmas| ==> vmas[idx].end <= vmas[i].start;
        r := None;
      }
    }

    /** The lowest address of the mmap zone from which `size` addresses are vacant. */
    method FindFreeArea(size: nat) returns (r: Option<nat>)
      requires Sorted(vmas) && size > 0
      ensures FirstGap(vmas, size, r)
      ensures r.Some? && UserAreas(vmas) ==> r.value % 4096 == 0
    {
      var cursor := MMAP_ZONE_START;
      var i: nat := 0;
      while i < |vmas| && vmas[i].start < MMAP_ZONE_END
        invariant i <= |vmas| && MMAP_ZONE_START <= cursor
        invariant forall j :: 0 <= j < i ==> vmas[j].end <= cursor
        invariant forall b: nat :: b < cursor ==> !GapAt(vmas, b, size)
        invariant UserAreas(vmas) ==> cursor % 4096 == 0
      {
        var vma := vmas[i];
        if vma.end > MMAP_ZONE_START {
          if vma.start >= cursor && vma.start - cursor >= size {
            GapBefore(vmas, i, cursor, size);
            return Some(cursor);
          }
          NoGapBefore(vmas, i, cursor, size);
          cursor := if cursor < vma.end then vma.end else cursor;
        }
        i := i + 1;
      }
      if MMAP_ZONE_END >= cursor && MMAP_ZONE_END - cursor >= size {
        GapBefore(vmas, i, cursor, size);
        return Some(cursor);
      }
      return None;
    }

    /** Maps `size` bytes at the first gap of the zone, or at `addr` when that is not 0. */
    method Mmap(ghost alloc: Buddy, addr: nat, size: nat, attr: Attr) returns (r: Option<nat>)
      requires MemoryOk(alloc, vmas) && Canonical(vmas) && UserAreas(vmas) && Tidy(walks, vmas, image) && size > 0
      requires image.Avoids(MMAP_ZONE_START / 4096, MMAP_ZONE_END / 4096)
      requires addr != 0 ==> RoundUp(addr) + RoundUp(size) <= USER_END &&
                             image.Avoids(RoundUp(addr) / 4096, (RoundUp(addr) + RoundUp(size)) / 4096)
      modifies this`vmas
      ensures MemoryOk(alloc, vmas) && Canonical(vmas) && UserAreas(vmas) && Tidy(walks, vmas, image)
      ensures r.Some? ==> Overlaid(old(vmas), vmas, Vma(r.value, r.value + RoundUp(size), attr))
      ensures r.Some? ==>
        ZeroArea(alloc.mem.cells, old(Here()), alloc.mem.cells, Here(), Vma(r.value, r.value + RoundUp(size), attr))
      ensures r.None? ==> vmas == old(vmas)
      ensures addr == 0 ==> FirstGap(old(vmas), RoundUp(size), r)
      ensures addr != 0 ==>
        r == if Vacant(old(vmas), RoundUp(addr), RoundUp(addr) + RoundUp(size)) then Some(RoundUp(addr)) else None
      ensures Confined(alloc.mem.cells, alloc.free, old(Here()), alloc.mem.cells, alloc.free, Here())
      ensures Conserved(alloc.free, old(Here()), alloc.free, Here())
    {
      var start: nat;
      RoundUpFacts(size);
      if addr == 0 {
        r := FindFreeArea(RoundUp(size));
        if r.None? { return; }
        start := r.value;
        ZonePages(start, RoundUp(size));
      } else {
        start := RoundUp(addr);
        RoundUpFacts(addr);
      }
      r := AddZeroArea(alloc, start, size, attr);
    }

    /** Adds an area of `size` bytes at the page boundary `start`. */
    method AddZeroArea(ghost alloc: Buddy, start: nat, size: nat, attr: Attr) returns (r: Option<nat>)
      requires MemoryOk(alloc, vmas) && Canonical(vmas) && UserAreas(vmas) && Tidy(walks, vmas, image) && size > 0
      requires start % 4096 == 0 && start + RoundUp(size) <= USER_END
      requires image.Avoids(start / 4096, (start + RoundUp(size)) / 4096)
      modifies this`vmas
      ensures MemoryOk(alloc, vmas) && Canonical(vmas) && UserAreas(vmas) && Tidy(walks, vmas, image)
      ensures r == if Vacant(old(vmas), start, start + RoundUp(size)) then Some(start) else None
      ensures r.Some? ==> Overlaid(old(vmas), vmas, Vma(start, start + RoundUp(size), attr))
      ensures r.Some? ==>
        ZeroArea(alloc.mem.cells, old(Here()), alloc.mem.cells, Here(), Vma(start, start + RoundUp(size), attr))
      ensures r.None? ==> vmas == old(vmas)
      ensures Confined(alloc.mem.cells, alloc.free, old(Here()), alloc.mem.cells, alloc.free, Here())
      ensures Conserved(alloc.free, old(Here()), alloc.free, Here())
    {
      RoundUpFacts(size);
      RoundUpShift(start, size);
      ghost var x := Here();
      var v := Vma(start, RoundUp(start + size), attr);
      var ok := AddVma(v);
      if !ok { return None; }
      AreaMapped(alloc.mem.cells, alloc.free, x, Here(), v, image);
      return Some(start);
    }

    /**
     * The page table stands for `walks` and `tabs`, and the pages of the areas `vs` are backed by frames of their own.
     */
    ghost predicate MemoryOk(alloc: Buddy, vs: seq<Vma>)
      reads this`walks, this`tabs, alloc, alloc.mem
    {
      && alloc.mem == pageTable.mem && alloc.Valid()
      && Shows(alloc.mem.cells, pageTable.pml4, walks, tabs, alloc.free)
      && Backed(alloc.mem.cells, walks, tabs, vs, alloc.free)
    }

    /** Unmaps the page with number `page`. */
    method UnmapPage(ghost alloc: Buddy, page: nat, ghost k: nat) returns (r: Option<nat>)
      requires alloc.mem == pageTable.mem && alloc.Valid() && k == Around(page)
      requires Shows(alloc.mem.cells, pageTable.pml4, walks, tabs, alloc.free) && (k in walks ==> !walks[k].Huge?)
      modifies this`walks, alloc.mem
      ensures alloc.Valid() && k in old(walks) && walks == old(walks)[k := Unmapped] && r == FrameAt(old(walks), k)
      ensures Shows(alloc.mem.cells, pageTable.pml4, walks, tabs, alloc.free)
      ensures TablesWritten(old(alloc.mem.cells), alloc.mem.cells, tabs, alloc.free)
      ensures k < USER_PAGES || r.None? ==> WrittenOnly(old(alloc.mem.cells), alloc.mem.cells, tabs, alloc.free)
    {
      ghost var m, s, root := alloc.mem.cells, alloc.free, pageTable.pml4;
      PageAround(page);
      ShownTables(m, root, walks, tabs, s);
      assert k in walks && WalkPage(m, root, k) == walks[k];
      r := pageTable.Unmap(alloc, page * 4096);
      UnmapShown(m, s, alloc.mem.cells, root, k, walks, tabs);
      walks := walks[k := Unmapped];
    }

    /** Frees frame `f`, which is no table. */
    method FreeFrame(alloc: Buddy, f: nat)
      requires alloc.mem == pageTable.mem && alloc.Valid()
      requires Shows(alloc.mem.cells, pageTable.pml4, walks, tabs, alloc.free)
      requires f > 0 && f !in alloc.free && !IsTableFrame(tabs, f)
      modifies alloc, alloc.mem
      ensures alloc.Valid() && alloc.free == old(alloc.free) + {f}
      ensures Shows(alloc.mem.cells, pageTable.pml4, walks, tabs, alloc.free)
      ensures SameExcept(old(alloc.mem.cells), alloc.mem.cells, alloc.free)
    {
      ghost var m, s := alloc.mem.cells, alloc.free;
      forall q | q in tabs ensures tabs[q] != f { assert IsTableFrame(tabs, tabs[q]); }
      alloc.FreePage(f);
      ShownFramed(m, alloc.mem.cells, pageTable.pml4, walks, tabs, s, alloc.free);
    }

    /** Releases one page: unmap it, then free its frame. */
    method ReleasePage(alloc: Buddy, k: nat, ghost vs: seq<Vma>)
      requires MemoryOk(alloc, vs) && k < USER_PAGES && Releasable(walks, vs, k)
      modifies this`walks, alloc, alloc.mem
      ensures MemoryOk(alloc, vs)
      ensures Released(old(alloc.mem.cells), old(alloc.free), old(walks), alloc.mem.cells, alloc.free, walks, tabs, vs,
                       k, k + 1)
    {
      ghost var m, s, before := alloc.mem.cells, alloc.free, walks;
      PageOfPage(k);
      var phys := UnmapPage(alloc, k, k);
      assert phys == UserFrame(before, vs, k);
      if phys.Some? {
        assert GoodFrame(m, tabs, s, phys.value);
        FreeFrame(alloc, phys.value);
      }
      ReleaseOne(m, s, alloc.mem.cells, alloc.free, before, tabs, vs, k);
    }

    /** Clears one page the other way around: find its frame, free it, then unmap the page. */
    method ClearPage(alloc: Buddy, k: nat, ghost vs: seq<Vma>)
      requires MemoryOk(alloc, vs) && k < USER_PAGES && PageAttr(vs, k).Some?
      modifies this`walks, alloc, alloc.mem
      ensures MemoryOk(alloc, vs)
      ensures Released(old(alloc.mem.cells), old(alloc.free), old(walks), alloc.mem.cells, alloc.free, walks, tabs, vs,
                       k, k + 1)
    {
      ghost var m, s, before := alloc.mem.cells, alloc.free, walks;
      SourcePage(m, s, Space(pageTable.pml4, walks, tabs, vs), k);
      var phys := Translate(alloc.mem.cells, pageTable.pml4, k * 4096);
      if phys.Some? {
        assert GoodFrame(m, tabs, s, phys.value / 4096);
        FreeFrame(alloc, phys.value / 4096);
        PageOfPage(k);
        var again := UnmapPage(alloc, k, k);
      }
      ReleaseOne(m, s, alloc.mem.cells, alloc.free, before, tabs, vs, k);
    }

    method ReleaseEither(alloc: Buddy, k: nat, freeFirst: bool, ghost vs: seq<Vma>)
      requires MemoryOk(alloc, vs) && k < USER_PAGES && Releasable(walks, vs, k)
      requires (freeFirst ==> PageAttr(vs, k).Some?)
      modifies this`walks, alloc, alloc.mem
      ensures MemoryOk(alloc, vs)
      ensures Released(old(alloc.mem.cells), old(alloc.free), old(walks), alloc.mem.cells, alloc.free, walks, tabs, vs,
                       k, k + 1)
    {
      if freeFirst {
        ClearPage(alloc, k, vs);
      } else {
        ReleasePage(alloc, k, vs);
      }
    }

    /** One more page of a range whose pages from `lo` to `page` have been released. */
    method ReleaseNext(alloc: Buddy, page: nat, freeFirst: bool, ghost vs: seq<Vma>,
                       ghost m: Mem, ghost s: set<nat>, ghost w: Walks, ghost lo: nat, ghost hi: nat)
      requires MemoryOk(alloc, vs) && lo <= page < hi <= USER_PAGES && AllReleasable(walks, vs, page, hi, freeFirst)
      requires Released(m, s, w, alloc.mem.cells, alloc.free, walks, tabs, vs, lo, page)
      modifies this`walks, alloc, alloc.mem
      ensures MemoryOk(alloc, vs) && AllReleasable(walks, vs, page + 1, hi, freeFirst)
      ensures Released(m, s, w, alloc.mem.cells, alloc.free, walks, tabs, vs, lo, page + 1)
    {
      ghost var n, t, x := alloc.mem.cells, alloc.free, walks;
      RestReleasable(x, vs, page, hi, freeFirst);
      ReleaseEither(alloc, page, freeFirst, vs);
      ZapIs(x, walks, page, page + 1);
      ReleasedTrans(m, s, w, n, t, x, alloc.mem.cells, alloc.free, walks, tabs, vs, lo, page, page + 1);
    }

    /**
     * The loop that every teardown runs over an area: release each page from `lo` to `hi`. `clear_user` frees a frame
     * before it unmaps the page, the others after.
     */
    method ReleaseRange(alloc: Buddy, lo: nat, hi: nat, freeFirst: bool, ghost vs: seq<Vma>)
      requires MemoryOk(alloc, vs) && lo <= hi <= USER_PAGES && AllReleasable(walks, vs, lo, hi, freeFirst)
      modifies this`walks, alloc, alloc.mem
      ensures MemoryOk(alloc, vs)
      ensures Released(old(alloc.mem.cells), old(alloc.free), old(walks), alloc.mem.cells, alloc.free, walks, tabs, vs,
                       lo, hi)
    {
      ghost var m, s, w := alloc.mem.cells, alloc.free, walks;
      ReleasedNothing(m, s, w, tabs, vs, lo);
      for page := lo to hi
        invariant MemoryOk(alloc, vs) && AllReleasable(walks, vs, page, hi, freeFirst)
        invariant Released(m, s, w, alloc.mem.cells, alloc.free, walks, tabs, vs, lo, page)
      {
        ReleaseNext(alloc, page, freeFirst, vs, m, s, w, lo, hi);
      }
    }

    /** Maps page `k` to `frame`. */
    method MapPage(alloc: Buddy, k: nat, frame: nat, flags: Flags) returns (ok: bool)
      requires alloc.mem == pageTable.mem && alloc.Valid() && k < USER_PAGES
      requires Shows(alloc.mem.cells, pageTable.pml4, walks, tabs, alloc.free)
      modifies this`walks, this`tabs, alloc, alloc.mem
      ensures alloc.Valid() && Shows(alloc.mem.cells, pageTable.pml4, walks, tabs, alloc.free)
      ensures ok ==> walks == old(walks)[k := Small(frame, flags)]
      ensures !ok ==> walks == old(walks)
      ensures Grown(old(tabs), old(alloc.free), tabs, alloc.free)
      ensures WrittenOnly(old(alloc.mem.cells), alloc.mem.cells, old(tabs), old(alloc.free))
      ensures Paid(old(walks)[k], Lacking(old(tabs), k), old(alloc.free), alloc.free, ok)
      ensures ok ==> WayAdded(old(tabs), tabs, k)
    {
      ghost var w, ts := walks, tabs;
      ok := EnterPage(alloc, k, frame, flags, w, ts);
      if ok { walks := w[k := Small(frame, flags)]; }
      tabs := TabsOf(alloc.mem.cells, pageTable.pml4);
    }

    /** Writes the entry of page `k` into the page table, which stands for `w` and `ts` so far. */
    method EnterPage(alloc: Buddy, k: nat, frame: nat, flags: Flags, ghost w: Walks, ghost ts: Tabs) returns (ok: bool)
      requires alloc.mem == pageTable.mem && alloc.Valid() && k < USER_PAGES
      requires Shows(alloc.mem.cells, pageTable.pml4, w, ts, alloc.free)
      modifies alloc, alloc.mem
      ensures alloc.Valid()
      ensures Shows(alloc.mem.cells, pageTable.pml4, if ok then w[k := Small(frame, flags)] else w,
                    TabsOf(alloc.mem.cells, pageTable.pml4), alloc.free)
      ensures Grown(ts, old(alloc.free), TabsOf(alloc.mem.cells, pageTable.pml4), alloc.free)
      ensures WrittenOnly(old(alloc.mem.cells), alloc.mem.cells, ts, old(alloc.free))
      ensures Paid(w[k], Lacking(ts, k), old(alloc.free), alloc.free, ok)
      ensures ok ==> WayAdded(ts, TabsOf(alloc.mem.cells, pageTable.pml4), k)
    {
      ghost var m, s, root := alloc.mem.cells, alloc.free, pageTable.pml4;
      PageOfPage(k);
      ShownTables(m, root, w, ts, s);
      LackingIsMissing(m, root, w, ts, s, k);
      assert WalkPage(m, root, k) == w[k];
      alloc.ZeroNotFree();
      ok := pageTable.Map4K(alloc, k * 4096, frame, flags);
      if ok {
        MapShown(m, s, alloc.mem.cells, alloc.free, root, k, Small(frame, flags), w, ts);
        WayIsAdded(m, s, alloc.mem.cells, alloc.free, root, k, w, ts);
      } else {
        FailedMapShown(m, s, alloc.mem.cells, alloc.free, root, k, w, ts);
      }
    }

    /** Takes a free page and fills it with `data`; no table is disturbed. */
    method TakePage(alloc: Buddy, data: seq<byte>) returns (r: Option<nat>)
      requires alloc.mem == pageTable.mem && alloc.Valid() && |data| == 4096
      requires Shows(alloc.mem.cells, pageTable.pml4, walks, tabs, alloc.free)
      modifies alloc, alloc.mem
      ensures alloc.Valid() && Shows(alloc.mem.cells, pageTable.pml4, walks, tabs, alloc.free)
      ensures r.None? <==> old(alloc.free) == {}
      ensures r.None? ==> alloc.free == {} && alloc.mem.cells == old(alloc.mem.cells)
      ensures r.Some? ==> r.value > 0 && r.value in old(alloc.free) && alloc.free == old(alloc.free) - {r.value}
      ensures r.Some? ==> At(alloc.mem.cells, r.value) == Bytes(data)
      ensures SameExcept(old(alloc.mem.cells), alloc.mem.cells, old(alloc.free))
    {
      ghost var m, s := alloc.mem.cells, alloc.free;
      r := alloc.AllocPage();
      if r.Some? {
        alloc.StoreSafe(r.value, Bytes(data));
        alloc.mem.cells := alloc.mem.cells[r.value := Bytes(data)];
        ShownFramed(m, alloc.mem.cells, pageTable.pml4, walks, tabs, s, alloc.free);
      }
    }

    /** Gives the untouched area page `k` a frame filled with `data`. */
    method GivePage(alloc: Buddy, k: nat, data: seq<byte>, flags: Flags) returns (r: PageResult)
      requires MemoryOk(alloc, vmas) && k < USER_PAGES && PageAttr(vmas, k).Some? && |data| == 4096
      requires k in walks && walks[k] == Unmapped && flags == PageFlags(PageAttr(vmas, k).value.flags)
      modifies this`walks, this`tabs, alloc, alloc.mem
      ensures MemoryOk(alloc, vmas) && PageDecided(r, |old(alloc.free)|, Lacking(old(tabs), k))
      ensures PageGiven(old(alloc.mem.cells), old(alloc.free), old(Here()), alloc.mem.cells, alloc.free, Here(), k,
                        flags, data, r)
      ensures r == Given ==> WayAdded(old(tabs), tabs, k)
      ensures r == Given ==> |alloc.free| + 1 + Lacking(old(tabs), k) == |old(alloc.free)|
    {
      ghost var m, s, x := alloc.mem.cells, alloc.free, Here();
      var phys := TakePage(alloc, data);
      if phys.None? { return NoFrame; }
      r := MapTaken(alloc, k, phys.value, flags, data, m, s, x);
    }

    /** Maps page `k` to frame `f`, which has just been taken from the free pages `s` and filled with `data`. */
    method MapTaken(alloc: Buddy, k: nat, f: nat, flags: Flags, ghost data: seq<byte>, ghost m: Mem, ghost s: set<nat>,
                    ghost x: Space)
      returns (r: PageResult)
      requires alloc.mem == pageTable.mem && alloc.Valid()
      requires Shows(alloc.mem.cells, pageTable.pml4, walks, tabs, alloc.free)
      requires SpaceOk(m, s, x) && x == Here() && |data| == 4096 && SameExcept(m, alloc.mem.cells, s)
      requires f > 0 && f in s && alloc.free == s - {f} && At(alloc.mem.cells, f) == Bytes(data)
      requires k < USER_PAGES && k in walks && walks[k] == Unmapped && PageAttr(vmas, k).Some?
      requires flags == PageFlags(PageAttr(vmas, k).value.flags)
      modifies this`walks, this`tabs, alloc, alloc.mem
      ensures MemoryOk(alloc, vmas) && PageDecided(r, |s|, Lacking(x.tabs, k))
      ensures PageGiven(m, s, x, alloc.mem.cells, alloc.free, Here(), k, flags, data, r)
      ensures r == Given ==> WayAdded(x.tabs, tabs, k) && |alloc.free| + 1 + Lacking(x.tabs, k) == |s|
    {
      OneTaken(s, f);
      ghost var m1 := alloc.mem.cells;
      var ok := MapPage(alloc, k, f, flags);
      if ok {
        PagePlaced(m, s, m1, f, alloc.mem.cells, alloc.free, x, Here(), k, flags, data);
        return Given;
      }
      PageNotPlaced(m, s, m1, f, alloc.mem.cells, x, Here(), k, flags, data);
      return NotMapped;
    }

    /** Gives the page of `faultAddr` a zeroed frame, if an area contains it and it has none yet. */
    method HandlePageFault(alloc: Buddy, faultAddr: nat) returns (r: FaultResult)
      requires MemoryOk(alloc, vmas) && Canonical(vmas) && UserAreas(vmas)
      modifies this`walks, this`tabs, alloc, alloc.mem
      ensures MemoryOk(alloc, vmas) && SameView(old(alloc.mem.cells), old(walks), alloc.mem.cells, walks, vmas)
      ensures Confined(old(alloc.mem.cells), old(alloc.free), old(Here()), alloc.mem.cells, alloc.free, Here())
      ensures alloc.free <= old(alloc.free) && (old(Tidy(walks, vmas, image)) ==> Tidy(walks, vmas, image))
      ensures if r == MapFailed then OneLost(old(alloc.free), old(Here()), alloc.free, Here())
              else Conserved(old(alloc.free), old(Here()), alloc.free, Here())
      ensures old(walks)[PageOf(faultAddr)] == Unmapped && Lookup(vmas, faultAddr).Some? ==>
        FaultDecided(r, |old(alloc.free)|, Lacking(old(tabs), PageOf(faultAddr)))
      ensures r == NoArea || old(walks)[PageOf(faultAddr)] != Unmapped ==>
        alloc.free == old(alloc.free) && alloc.mem.cells == old(alloc.mem.cells)
      ensures r == Handled && Lookup(vmas, faultAddr).Some? ==>
        AccessAs(alloc.mem.cells, pageTable.pml4, PageOf(faultAddr), Lookup(vmas, faultAddr).value.flags)
      ensures r != Handled ==> !MayRead(alloc.mem.cells, pageTable.pml4, PageOf(faultAddr))
      ensures var k := PageOf(faultAddr);
        match r
        case Handled => walks[k] != Unmapped && (if old(walks)[k] != Unmapped then walks == old(walks)
                                                 else Lookup(vmas, faultAddr).Some? &&
                                                      FreshlyMapped(old(walks), walks, old(alloc.free), alloc.free, k,
                                                                    PageFlags(Lookup(vmas, faultAddr).value.flags)))
        case NoArea => walks == old(walks) && walks[k] == Unmapped && Lookup(vmas, faultAddr).None?
        case OutOfMemory =>
          walks == old(walks) && walks[k] == Unmapped && Lookup(vmas, faultAddr).Some? && alloc.free == {}
        case MapFailed =>
          walks == old(walks) && walks[k] == Unmapped && Lookup(vmas, faultAddr).Some? && alloc.free == {}
    {
      var k := faultAddr / 4096;
      ghost var m := alloc.mem.cells;
      PageAround(k);
      PartsOfPage(k * 4096);
      assert WalkPage(m, pageTable.pml4, Around(k)) == walks[Around(k)];
      FaultAccess(m, alloc.free, Here(), faultAddr);
      if Translate(alloc.mem.cells, pageTable.pml4, k * 4096).Some? {
        return Handled;
      }
      var vma := FindVma(faultAddr);
      if vma.None? { return NoArea; }
      UserPage(vma.value, faultAddr);
      PageLookup(vmas, faultAddr);
      r := TouchPage(alloc, k, PageFlags(vma.value.attr.flags));
      FaultAccess(alloc.mem.cells, alloc.free, Here(), faultAddr);
    }

    /** Gives the untouched area page `k` a zeroed frame. */
    method TouchPage(alloc: Buddy, k: nat, flags: Flags) returns (r: FaultResult)
      requires MemoryOk(alloc, vmas) && k < USER_PAGES && PageAttr(vmas, k).Some?
      requires k in walks && walks[k] == Unmapped && flags == PageFlags(PageAttr(vmas, k).value.flags)
      modifies this`walks, this`tabs, alloc, alloc.mem
      ensures MemoryOk(alloc, vmas) && r != NoArea && FaultDecided(r, |old(alloc.free)|, Lacking(old(tabs), k))
      ensures PageTouched(old(alloc.mem.cells), old(alloc.free), old(Here()), alloc.mem.cells, alloc.free, Here(),
                          image, k, flags, r)
    {
      ghost var m, w := alloc.mem.cells, walks;
      var given := GivePage(alloc, k, ZEROES, flags);
      match given
      case NoFrame => return OutOfMemory;
      case NotMapped => return MapFailed;
      case Given =>
        ZeroPageInvisible(m, alloc.mem.cells, w, walks, vmas, k);
        return Handled;
    }

    /**
     * Cuts the addresses from `lo` to `hi` out of area `v`, which is in the list: remove it, put back what sticks out.
     */
    method CarveArea(v: Vma, lo: nat, hi: nat) returns (ok: bool)
      requires Canonical(vmas) && v in vmas && lo < hi && v.start < hi && lo < v.end
      modifies this`vmas
      ensures ok && Canonical(vmas) && Cleared(old(vmas), vmas, Bits.Max(v.start, lo), Bits.Min(v.end, hi))
      ensures old(UserAreas(vmas)) && lo % 4096 == 0 && hi % 4096 == 0 ==> UserAreas(vmas)
    {
      ghost var vs := vmas;
      var removed := RemoveVma(v.start);
      AreaByStart(vs, v, removed);
      ghost var us := vmas;
      RemainderVacant(vs, us, v, lo, hi);
      if v.start < lo {
        ok := AddVma(Vma(v.start, lo, v.attr));
        if !ok { return; }
      }
      ghost var ls := vmas;
      if v.end > hi {
        ok := AddVma(Vma(hi, v.end, v.attr));
        if !ok { return; }
      }
      ok := true;
      CarvedOut(vs, us, ls, vmas, v, lo, hi);
    }

    /** The position of the first area that ends above `lo`. */
    method FirstOverlap(lo: nat) returns (first: nat)
      requires Sorted(vmas)
      ensures first <= |vmas| && (first > 0 ==> vmas[first - 1].end <= lo) && (first < |vmas| ==> lo < vmas[first].end)
    {
      first := LowerBound(lo);
      assert first > 1 ==> vmas[first - 2].end <= vmas[first - 1].start;
      if first > 0 && vmas[first - 1].end > lo {
        first := first - 1;
      }
    }

    /** The areas that meet the addresses from `lo` to `hi`, in order, from position `first` on. */
    method Overlapping(lo: nat, hi: nat) returns (ghost first: nat, found: seq<Vma>)
      requires Sorted(vmas)
      ensures first + |found| <= |vmas| && forall j :: 0 <= j < |found| ==> found[j] == vmas[first + j]
      ensures first > 0 ==> vmas[first - 1].end <= lo
      ensures first < |vmas| ==> lo < vmas[first].end
      ensures |found| > 0 ==> vmas[first + |found| - 1].start < hi
      ensures first + |found| < |vmas| ==> hi <= vmas[first + |found|].start
    {
      var i := FirstOverlap(lo);
      first := i;
      found := [];
      while i < |vmas| && vmas[i].start < hi
        invariant first <= i <= |vmas| && |found| == i - first
        invariant forall j :: 0 <= j < |found| ==> found[j] == vmas[first + j]
        invariant i > first ==> vmas[i - 1].start < hi
      {
        found := found + [vmas[i]];
        i := i + 1;
      }
    }

    /**
     * The hole of pages `lo` to `hi` has been cut out of the areas `vs` up to page `b`; the area at position `i` is
     * next.
     */
    ghost predicate HoleState(alloc: Buddy, vs: seq<Vma>, i: nat, lo: nat, hi: nat, b: nat, m: Mem, s: set<nat>,
                              w: Walks)
      requires i <= |vs|
      reads this, pageTable, alloc, alloc.mem
    {
      && MemoryOk(alloc, vs) && Canonical(vmas) && UserAreas(vmas)
      && HoleAt(vs, i, lo, hi, b)
      && Cleared(vs, vmas, 4096 * lo, 4096 * b)
      && PunchedOut(m, s, w, alloc.mem.cells, alloc.free, walks, tabs, vs, lo, b)
    }

    /** Cuts the hole out of one more area, and releases its pages there. */
    method PunchNext(alloc: Buddy, v: Vma, lo: nat, hi: nat, ghost vs: seq<Vma>, ghost i: nat, ghost b: nat,
                     ghost m: Mem, ghost s: set<nat>, ghost w: Walks) returns (ok: bool, ghost c: nat)
      requires Canonical(vs) && UserAreas(vs) && i < |vs| && v == vs[i] && v.start < 4096 * hi && 4096 * lo < v.end
      requires lo < hi <= USER_PAGES
      requires HoleState(alloc, vs, i, lo, hi, b, m, s, w)
      modifies this`vmas, this`walks, alloc, alloc.mem
      ensures ok && HoleState(alloc, vs, i + 1, lo, hi, c, m, s, w)
    {
      c := Bits.Min(v.end / 4096, hi);
      PageBoundary(lo);
      PageBoundary(hi);
      HoleStep(vs, i, lo, hi, b);
      NextArea(vs, vmas, i, 4096 * lo, 4096 * hi, 4096 * b);
      ghost var ws := vmas;
      ok := CarveArea(v, 4096 * lo, 4096 * hi);
      HoleGrows(vs, ws, vmas, i, 4096 * lo, 4096 * hi, 4096 * b, 4096 * c);
      ReleaseArea(alloc, v, lo, hi, false, vs, i, b, c, m, s, w);
    }

    /** Releases the pages of area `v` that lie in the hole. */
    method ReleaseArea(alloc: Buddy, v: Vma, lo: nat, hi: nat, freeFirst: bool, ghost vs: seq<Vma>, ghost i: nat,
                       ghost b: nat, ghost c: nat,
                       ghost m: Mem, ghost s: set<nat>, ghost w: Walks)
      requires MemoryOk(alloc, vs) && Sorted(vs) && UserAreas(vs) && i < |vs| && v == vs[i]
      requires v.start < 4096 * hi && 4096 * lo < v.end && lo < hi <= USER_PAGES && c == Bits.Min(v.end / 4096, hi)
      requires HoleAt(vs, i, lo, hi, b) && PunchedOut(m, s, w, alloc.mem.cells, alloc.free, walks, tabs, vs, lo, b)
      modifies this`walks, alloc, alloc.mem
      ensures MemoryOk(alloc, vs)
      ensures PunchedOut(m, s, w, alloc.mem.cells, alloc.free, walks, tabs, vs, lo, c)
    {
      var from, to := Bits.Max(v.start / 4096, lo), Bits.Min(v.end / 4096, hi);
      HolePages(vs, i, lo, hi, b, from, to);
      SkipGap(m, s, w, alloc.mem.cells, alloc.free, walks, tabs, vs, lo, b, from);
      ghost var n, t, x := alloc.mem.cells, alloc.free, walks;
      AreaReleasable(alloc.mem.cells, walks, tabs, vs, alloc.free, from, to);
      ReleaseRange(alloc, from, to, freeFirst, vs);
      PunchMore(m, s, w, n, t, x, alloc.mem.cells, alloc.free, walks, tabs, vs, lo, from, to);
    }

    /** The loop of `PunchHole` over the areas it found. */
    method PunchAreas(alloc: Buddy, found: seq<Vma>, lo: nat, hi: nat, ghost vs: seq<Vma>, ghost first: nat,
                      ghost m: Mem, ghost s: set<nat>, ghost w: Walks) returns (ok: bool, ghost b: nat)
      requires Canonical(vs) && UserAreas(vs) && first + |found| <= |vs| && lo < hi <= USER_PAGES
      requires forall j :: 0 <= j < |found| ==> found[j] == vs[first + j]
      requires forall j :: 0 <= j < |found| ==> 4096 * lo < found[j].end && found[j].start < 4096 * hi
      requires HoleState(alloc, vs, first, lo, hi, lo, m, s, w)
      modifies this`vmas, this`walks, alloc, alloc.mem
      ensures ok && HoleState(alloc, vs, first + |found|, lo, hi, b, m, s, w)
    {
      b := lo;
      ok := true;
      for j := 0 to |found|
        invariant ok && HoleState(alloc, vs, first + j, lo, hi, b, m, s, w)
      {
        var v := found[j];
        assert v == vs[first + j];
        ok, b := PunchNext(alloc, v, lo, hi, vs, first + j, b, m, s, w);
        if !ok { return; }
      }
    }

    /** Before the first area nothing has been cut. */
    lemma StartHole(alloc: Buddy, first: nat, lo: nat, hi: nat)
      requires MemoryOk(alloc, vmas) && Canonical(vmas) && UserAreas(vmas) && lo < hi && first <= |vmas|
      requires (first > 0 ==> vmas[first - 1].end <= 4096 * lo) && (first < |vmas| ==> 4096 * lo < vmas[first].end)
      ensures HoleState(alloc, vmas, first, lo, hi, lo, alloc.mem.cells, alloc.free, walks)
    {
      PunchedNothing(alloc.mem.cells, alloc.free, walks, tabs, vmas, lo);
    }

    /** After the last area, the rest of the hole is vacant. */
    lemma FinishHole(alloc: Buddy, vs: seq<Vma>, i: nat, lo: nat, hi: nat, b: nat, m: Mem, s: set<nat>, w: Walks)
      requires Canonical(vs) && i <= |vs| && (i < |vs| ==> 4096 * hi <= vs[i].start) && hi <= USER_PAGES
      requires HoleState(alloc, vs, i, lo, hi, b, m, s, w)
      ensures MemoryOk(alloc, vmas) && Cleared(vs, vmas, 4096 * lo, 4096 * hi)
      ensures PunchedOut(m, s, w, alloc.mem.cells, alloc.free, walks, tabs, vs, lo, hi)
      ensures Confined(m, s, Space(pageTable.pml4, w, tabs, vs), alloc.mem.cells, alloc.free, Here())
      ensures Conserved(s, Space(pageTable.pml4, w, tabs, vs), alloc.free, Here())
      ensures HoleLeaves(m, s, Space(pageTable.pml4, w, tabs, vs), alloc.mem.cells, Here(), image, lo, hi)
    {
      HoleEnds(vs, vmas, i, lo, hi, b);
      SkipGap(m, s, w, alloc.mem.cells, alloc.free, walks, tabs, vs, lo, b, hi);
      ClearedPages(vs, vmas, 4096 * lo, 4096 * hi);
      BackedSubset(alloc.mem.cells, walks, tabs, vs, vmas, alloc.free);
      PunchConfined(m, s, Space(pageTable.pml4, w, tabs, vs), alloc.mem.cells, alloc.free, Here(), lo, hi);
      HoleLeft(m, s, Space(pageTable.pml4, w, tabs, vs), alloc.mem.cells, alloc.free, Here(), image, lo, hi);
    }

    /** The pages from `lo` to `hi` lose their areas and frames. */
    method PunchPages(alloc: Buddy, lo: nat, hi: nat) returns (ok: bool)
      requires MemoryOk(alloc, vmas) && Canonical(vmas) && UserAreas(vmas) && lo < hi <= USER_PAGES
      modifies this`vmas, this`walks, alloc, alloc.mem
      ensures ok && MemoryOk(alloc, vmas) && Canonical(vmas) && UserAreas(vmas)
      ensures Cleared(old(vmas), vmas, 4096 * lo, 4096 * hi)
      ensures PunchedOut(old(alloc.mem.cells), old(alloc.free), old(walks), alloc.mem.cells, alloc.free, walks, tabs,
                         old(vmas), lo, hi)
      ensures Confined(old(alloc.mem.cells), old(alloc.free), old(Here()), alloc.mem.cells, alloc.free, Here())
      ensures Conserved(old(alloc.free), old(Here()), alloc.free, Here())
      ensures HoleLeaves(old(alloc.mem.cells), old(alloc.free), old(Here()), alloc.mem.cells, Here(), image, lo, hi)
    {
      ghost var vs, m, s, w := vmas, alloc.mem.cells, alloc.free, walks;
      ghost var first: nat, b: nat;
      var found: seq<Vma>;
      first, found := Overlapping(4096 * lo, 4096 * hi);
      StartHole(alloc, first, lo, hi);
      AllOverlap(vs, found, first, 4096 * lo, 4096 * hi);
      ok, b := PunchAreas(alloc, found, lo, hi, vs, first, m, s, w);
      FinishHole(alloc, vs, first + |found|, lo, hi, b, m, s, w);
    }

    /** Removes every area, page and frame between two page boundaries. */
    method PunchHole(alloc: Buddy, holeStart: nat, holeEnd: nat) returns (ok: bool)
      requires MemoryOk(alloc, vmas) && Canonical(vmas) && UserAreas(vmas)
      requires holeStart < holeEnd <= USER_END && holeStart % 4096 == 0 && holeEnd % 4096 == 0
      modifies this`vmas, this`walks, alloc, alloc.mem
      ensures ok && MemoryOk(alloc, vmas) && Canonical(vmas) && UserAreas(vmas)
      ensures Cleared(old(vmas), vmas, holeStart, holeEnd)
      ensures PunchedOut(old(alloc.mem.cells), old(alloc.free), old(walks), alloc.mem.cells, alloc.free, walks, tabs,
                         old(vmas), holeStart / 4096, holeEnd / 4096)
      ensures Confined(old(alloc.mem.cells), old(alloc.free), old(Here()), alloc.mem.cells, alloc.free, Here())
      ensures Conserved(old(alloc.free), old(Here()), alloc.free, Here())
      ensures Holed(old(alloc.mem.cells), old(Here()), alloc.mem.cells, Here(), holeStart / 4096, holeEnd / 4096)
      ensures old(Tidy(walks, vmas, image)) ==> Tidy(walks, vmas, image)
    {
      WholePages(holeStart);
      WholePages(holeEnd);
      ok := PunchPages(alloc, holeStart / 4096, holeEnd / 4096);
    }

    /** Maps `size` bytes at `addr`, whatever was there before. */
    method MmapFixed(alloc: Buddy, addr: nat, size: nat, attr: Attr) returns (r: Option<nat>)
      requires MemoryOk(alloc, vmas) && Canonical(vmas) && UserAreas(vmas) && Tidy(walks, vmas, image) && size > 0
      requires RoundUp(addr) + RoundUp(size) <= USER_END
      requires image.Avoids(RoundUp(addr) / 4096, (RoundUp(addr) + RoundUp(size)) / 4096)
      modifies this`vmas, this`walks, alloc, alloc.mem
      ensures r == Some(RoundUp(addr)) && MemoryOk(alloc, vmas) && Canonical(vmas) && UserAreas(vmas)
      ensures Tidy(walks, vmas, image)
      ensures Overlaid(old(vmas), vmas, Vma(RoundUp(addr), RoundUp(addr) + RoundUp(size), attr))
      ensures ZeroArea(old(alloc.mem.cells), old(Here()), alloc.mem.cells, Here(),
                       Vma(RoundUp(addr), RoundUp(addr) + RoundUp(size), attr))
      ensures PunchedOut(old(alloc.mem.cells), old(alloc.free), old(walks), alloc.mem.cells, alloc.free, walks, tabs,
                         old(vmas), RoundUp(addr) / 4096, (RoundUp(addr) + RoundUp(size)) / 4096)
      ensures Confined(old(alloc.mem.cells), old(alloc.free), old(Here()), alloc.mem.cells, alloc.free, Here())
      ensures Conserved(old(alloc.free), old(Here()), alloc.free, Here())
    {
      ghost var m, s, x := alloc.mem.cells, alloc.free, Here();
      var start := RoundUp(addr);
      RoundUpFacts(addr);
      RoundUpFacts(size);
      RoundUpShift(start, size);
      var end := RoundUp(start + size);
      var ok := PunchHole(alloc, start, end);
      if !ok { return None; }
      ghost var y := Here();
      ClearedVacant(x.areas, y.areas, start, end);
      r := AddZeroArea(alloc, start, size, attr);
      FixedComposes(m, s, x, y, alloc.mem.cells, alloc.free, Here(), Vma(start, end, attr));
    }

    /** The loop over all areas: unmaps every area page and frees its frame. */
    method ReleaseAll(alloc: Buddy, freeFirst: bool)
      requires MemoryOk(alloc, vmas) && Sorted(vmas) && UserAreas(vmas)
      modifies this`walks, alloc, alloc.mem
      ensures MemoryOk(alloc, vmas)
      ensures PunchedOut(old(alloc.mem.cells), old(alloc.free), old(walks), alloc.mem.cells, alloc.free, walks, tabs,
                         vmas, 0, USER_PAGES)
    {
      ghost var m, s, w := alloc.mem.cells, alloc.free, walks;
      ghost var b: nat := 0;
      PunchedNothing(m, s, w, tabs, vmas, 0);
      for i := 0 to |vmas|
        invariant MemoryOk(alloc, vmas) && HoleAt(vmas, i, 0, USER_PAGES, b)
        invariant PunchedOut(m, s, w, alloc.mem.cells, alloc.free, walks, tabs, vmas, 0, b)
      {
        var v := vmas[i];
        assert UserArea(v);
        HoleStep(vmas, i, 0, USER_PAGES, b);
        ReleaseArea(alloc, v, 0, USER_PAGES, freeFirst, vmas, i, b, Bits.Min(v.end / 4096, USER_PAGES), m, s, w);
        b := Bits.Min(v.end / 4096, USER_PAGES);
      }
      RestVacant(vmas, b);
      SkipGap(m, s, w, alloc.mem.cells, alloc.free, walks, tabs, vmas, 0, b, USER_PAGES);
    }

    /** Empties the address space but keeps its tables: exactly the frames of area pages become free. */
    method ClearUser(alloc: Buddy)
      requires MemoryOk(alloc, vmas) && Sorted(vmas) && UserAreas(vmas)
      modifies this`vmas, this`walks, alloc, alloc.mem
      ensures MemoryOk(alloc, vmas) && vmas == []
      ensures forall f: nat :: f in alloc.free <==> f in old(alloc.free) || old(Holds(Here(), f))
      ensures Confined(old(alloc.mem.cells), old(alloc.free), old(Here()), alloc.mem.cells, alloc.free, Here())
      ensures Conserved(old(alloc.free), old(Here()), alloc.free, Here())
      ensures old(Tidy(walks, vmas, image)) ==> Tidy(walks, vmas, image)
    {
      ghost var vs := vmas;
      ReleaseAll(alloc, true);
      vmas := [];
      if Tidy(old(walks), vs, image) { TidyAfter(old(walks), walks, vs, [], image); }
      BackedSubset(alloc.mem.cells, walks, tabs, vs, [], alloc.free);
      ShrinkConfined(old(alloc.mem.cells), old(alloc.free), old(Here()), alloc.mem.cells, alloc.free, Here());
      ShrinkConserved(old(alloc.free), old(Here()), alloc.free, Here(), 0, USER_PAGES);
    }

    /**
     * Removes the area that starts at `addr` rounded up, whatever `size` is, and unmaps and frees whatever is mapped in
     * the range; false if no area starts there.
     */
    method Munmap(alloc: Buddy, addr: nat, size: nat) returns (ok: bool)
      requires MemoryOk(alloc, vmas) && Canonical(vmas) && UserAreas(vmas) && Tidy(walks, vmas, image)
      requires StartsAt(vmas, RoundUp(addr)) ==>
        Freeable(walks, tabs, vmas, alloc.free, BeginPage(addr), EndPage(addr, size))
      modifies this`vmas, this`walks, alloc, alloc.mem
      ensures MemoryOk(alloc, vmas) && Canonical(vmas) && UserAreas(vmas)
      ensures ok <==> StartsAt(old(vmas), RoundUp(addr))
      ensures !ok ==> vmas == old(vmas) && walks == old(walks) && alloc.free == old(alloc.free)
      ensures !ok ==> alloc.mem.cells == old(alloc.mem.cells)
      ensures ok ==> Munmapped(old(alloc.mem.cells), old(alloc.free), old(Here()), alloc.mem.cells, alloc.free, Here(),
                               image, RoundUp(addr), EndPage(addr, size))
    {
      var start := RoundUp(addr);
      var hi := RoundUp(start + size) / 4096;
      RangePages(addr, size, start, hi);
      ok := MunmapPages(alloc, start, hi, BeginPage(addr));
    }

    /** `Munmap` from the area's start address to page `hi`. */
    method MunmapPages(alloc: Buddy, start: nat, hi: nat, ghost lo: nat) returns (ok: bool)
      requires MemoryOk(alloc, vmas) && Canonical(vmas) && UserAreas(vmas) && Tidy(walks, vmas, image)
      requires lo == start / 4096 <= hi
      requires StartsAt(vmas, start) ==> Freeable(walks, tabs, vmas, alloc.free, lo, hi)
      modifies this`vmas, this`walks, alloc, alloc.mem
      ensures MemoryOk(alloc, vmas) && Canonical(vmas) && UserAreas(vmas)
      ensures ok <==> StartsAt(old(vmas), start)
      ensures !ok ==> vmas == old(vmas) && walks == old(walks) && alloc.free == old(alloc.free)
      ensures !ok ==> alloc.mem.cells == old(alloc.mem.cells)
      ensures ok ==> Munmapped(old(alloc.mem.cells), old(alloc.free), old(Here()), alloc.mem.cells, alloc.free, Here(),
                               image, start, hi)
    {
      ghost var x := Here();
      var removed := RemoveVma(start);
      if removed.None? { return false; }
      SweepRemoved(alloc, removed.value, hi, x);
      return true;
    }

    /** The page loop of `Munmap`, after area `v` has left the list. */
    method SweepRemoved(alloc: Buddy, v: Vma, hi: nat, ghost x: Space)
      requires MemoryOk(alloc, x.areas) && Sorted(x.areas) && UserAreas(x.areas) && Tidy(walks, x.areas, image)
      requires x == Space(pageTable.pml4, walks, tabs, x.areas) && v in x.areas
      requires Cleared(x.areas, vmas, v.start, v.end)
      requires v.start / 4096 <= hi && Freeable(walks, tabs, x.areas, alloc.free, v.start / 4096, hi)
      modifies this`walks, alloc, alloc.mem
      ensures MemoryOk(alloc, vmas)
      ensures Munmapped(old(alloc.mem.cells), old(alloc.free), x, alloc.mem.cells, alloc.free, Here(), image, v.start,
                        hi)
    {
      ghost var m, s := alloc.mem.cells, alloc.free;
      SweepRange(alloc, v.start / 4096, hi, x.areas);
      MunmapDone(m, s, x, alloc.mem.cells, alloc.free, Here(), image, v, hi);
    }

    /** Unmaps every page from `lo` to `hi` and frees whatever frame it had. */
    method SweepRange(alloc: Buddy, lo: nat, hi: nat, ghost vs: seq<Vma>)
      requires MemoryOk(alloc, vs) && lo <= hi && Freeable(walks, tabs, vs, alloc.free, lo, hi)
      modifies this`walks, alloc, alloc.mem
      ensures MemoryOk(alloc, vs)
      ensures Swept(old(alloc.mem.cells), old(alloc.free), old(walks), alloc.mem.cells, alloc.free, walks, tabs, lo, hi)
    {
      ghost var m, s, w := alloc.mem.cells, alloc.free, walks;
      SweptNothing(m, s, w, tabs, lo);
      var page := lo;
      while page != hi
        invariant lo <= page <= hi && MemoryOk(alloc, vs)
        invariant Swept(m, s, w, alloc.mem.cells, alloc.free, walks, tabs, lo, page)
      {
        var next := page + 1;
        SweepNext(alloc, page, vs, m, s, w, lo, hi, next);
        page := next;
      }
    }

    method SweepNext(alloc: Buddy, page: nat, ghost vs: seq<Vma>, ghost m: Mem, ghost s: set<nat>, ghost w: Walks,
                     ghost lo: nat, ghost hi: nat, ghost next: nat)
      requires MemoryOk(alloc, vs) && lo <= page < hi && Freeable(w, tabs, vs, s, lo, hi) && next == page + 1
      requires Swept(m, s, w, alloc.mem.cells, alloc.free, walks, tabs, lo, page)
      modifies this`walks, alloc, alloc.mem
      ensures MemoryOk(alloc, vs) && Swept(m, s, w, alloc.mem.cells, alloc.free, walks, tabs, lo, next)
    {
      ghost var n, t, y := alloc.mem.cells, alloc.free, walks;
      NextLoose(m, s, w, n, t, y, tabs, vs, lo, page, hi);
      SweepPage(alloc, page, Around(page));
      StillBackedAfter(m, s, w, n, t, y, alloc.mem.cells, alloc.free, walks, tabs, vs, lo, page, hi);
      SweepMore(m, s, w, n, t, y, alloc.mem.cells, alloc.free, walks, tabs, lo, page);
    }

    /** Unmaps one page and frees its frame, if it had one. */
    method SweepPage(alloc: Buddy, page: nat, ghost k: nat)
      requires alloc.mem == pageTable.mem && alloc.Valid() && k == Around(page) && k in walks && !walks[k].Huge?
      requires Shows(alloc.mem.cells, pageTable.pml4, walks, tabs, alloc.free)
      requires FrameAt(walks, k).Some? ==>
        var f := FrameAt(walks, k).value; f > 0 && f !in alloc.free && !IsTableFrame(tabs, f)
      modifies this`walks, alloc, alloc.mem
      ensures alloc.Valid() && Shows(alloc.mem.cells, pageTable.pml4, walks, tabs, alloc.free)
      ensures SweptOne(old(alloc.mem.cells), old(alloc.free), old(walks), alloc.mem.cells, alloc.free, walks, tabs, k)
    {
      var phys := UnmapPage(alloc, page, k);
      if phys.Some? {
        FreeFrame(alloc, phys.value);
      }
    }

    /** Takes the address space down: area pages, lower-half tables and the root all become free. */
    method Destroy(alloc: Buddy)
      requires MemoryOk(alloc, vmas) && Sorted(vmas) && UserAreas(vmas)
      modifies this`vmas, this`walks, alloc, alloc.mem
      ensures alloc.Valid() && vmas == []
      ensures forall f: nat :: f in alloc.free <==> f in old(alloc.free) || old(Owns(Here(), f))
      ensures SameExcept(old(alloc.mem.cells), alloc.mem.cells, alloc.free)
      ensures TornDown(old(alloc.mem.cells), old(alloc.free), old(Here()), alloc.mem.cells, alloc.free)
    {
      ghost var x, m, s := Here(), alloc.mem.cells, alloc.free;
      ReleaseAll(alloc, false);
      ghost var n, t := alloc.mem.cells, alloc.free;
      vmas := [];
      ShownIntact(n, t, pageTable.pml4, walks, tabs);
      TableTeardown.FreeUserTables(alloc, pageTable.pml4);
      ghost var o, u := alloc.mem.cells, alloc.free;
      alloc.FreePage(pageTable.pml4);
      DestroyFacts(m, s, x, n, t, walks, o, u, alloc.mem.cells, alloc.free);
    }

    /**
     * Writes `data` at `vaddr` through the page table, page by page, and stops at the first page that has no frame.
     */
    method WriteToUser(ghost alloc: Buddy, mem: Memory, vaddr: nat, data: seq<byte>) returns (ok: bool)
      requires MemoryOk(alloc, vmas) && mem == alloc.mem && vaddr + |data| <= USER_END
      requires OwnBytes(walks, vmas, vaddr, vaddr + |data|)
      modifies mem
      ensures MemoryOk(alloc, vmas) && mem.cells == Stored(old(mem.cells), Here(), vaddr / 4096, vaddr % 4096, data)
      ensures ok <==> Extent(Here(), vaddr / 4096, vaddr % 4096, |data|) == |data|
    {
      ok := WriteFrom(alloc, mem, vaddr / 4096, vaddr % 4096, data);
    }

    /** The recursion of `WriteToUser`: the address is offset `off` of page `k`. */
    method WriteFrom(ghost alloc: Buddy, mem: Memory, k: nat, off: nat, data: seq<byte>) returns (ok: bool)
      requires MemoryOk(alloc, vmas) && mem == alloc.mem && off < 4096 && 4096 * k + off + |data| <= USER_END
      requires OwnBytes(walks, vmas, 4096 * k + off, 4096 * k + off + |data|)
      modifies mem
      ensures MemoryOk(alloc, vmas) && mem.cells == Stored(old(mem.cells), Here(), k, off, data)
      ensures ok <==> Extent(Here(), k, off, |data|) == |data|
      decreases |data|
    {
      if data == [] { return true; }
      StoredStep(mem.cells, Here(), k, off, data);
      var avail := Chunk(off, |data|);
      ok := WritePage(alloc, mem, k, off, data[..avail]);
      if ok && avail < |data| {
        ok := WriteFrom(alloc, mem, k + 1, 0, data[avail..]);
      }
    }

    /** Writes `bytes` within page `k`, if it has a frame. */
    method WritePage(ghost alloc: Buddy, mem: Memory, k: nat, off: nat, bytes: seq<byte>) returns (ok: bool)
      requires MemoryOk(alloc, vmas) && mem == alloc.mem && k < USER_PAGES && Releasable(walks, vmas, k)
      requires off + |bytes| <= 4096
      modifies mem
      ensures MemoryOk(alloc, vmas) && (ok <==> UserFrame(walks, vmas, k).Some?)
      ensures !ok ==> mem.cells == old(mem.cells)
      ensures ok ==> var f := UserFrame(walks, vmas, k).value;
        && IsData(At(old(mem.cells), f))
        && mem.cells == old(mem.cells)[f := Bytes(Patch(At(old(mem.cells), f).data, off, bytes))]
    {
      SourcePage(mem.cells, alloc.free, Here(), k);
      var phys := Translate(mem.cells, pageTable.pml4, k * 4096);
      if phys.None? { return false; }
      StoreChunk(alloc, mem, phys.value / 4096, k, off, bytes);
      return true;
    }

    /** Stores `bytes` at offset `off` of page `k`, through its frame `f`. */
    method StoreChunk(ghost alloc: Buddy, mem: Memory, f: nat, ghost k: nat, off: nat, bytes: seq<byte>)
      requires MemoryOk(alloc, vmas) && mem == alloc.mem && UserFrame(walks, vmas, k) == Some(f)
      requires off + |bytes| <= 4096
      requires IsData(At(mem.cells, f))
      modifies mem
      ensures MemoryOk(alloc, vmas)
      ensures mem.cells == old(mem.cells)[f := Bytes(Patch(At(old(mem.cells), f).data, off, bytes))]
    {
      assert GoodFrame(mem.cells, tabs, alloc.free, f);
      var d := Patch(At(mem.cells, f).data, off, bytes);
      alloc.StoreSafe(f, Bytes(d));
      StoreConfined(mem.cells, alloc.free, Here(), f, k, Bytes(d));
      mem.cells := mem.cells[f := Bytes(d)];
    }
  }
}
