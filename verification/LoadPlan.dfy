/** Which pages the segments of an executable cover, and when all of them can be loaded. */
module LoadPlan {
  import opened PhysMem
  import opened PageMaps
  import opened VmaList
  import opened UserMemory
  import opened ElfHeader
  import opened LoadCost

  predicate Loadable(s: Segment) {
    s.kind == PT_LOAD && s.memsz > 0
  }

  /** The pages that the segment covers. */
  function FirstPage(s: Segment): nat { s.vaddr / 4096 }
  function LastPage(s: Segment): nat { (s.vaddr + s.memsz + 4095) / 4096 }

  /** The segment is to be loaded and has an address in page `k`. */
  predicate Covers(s: Segment, k: nat) {
    s.kind == 1 && s.memsz > 0 && s.vaddr < 4096 * k + 4096 && 4096 * k < s.vaddr + s.memsz
  }

  lemma CoversIs(s: Segment, k: nat)
    requires Loadable(s)
    ensures Covers(s, k) <==> FirstPage(s) <= k < LastPage(s)
  {
  }

  /** The pages below `p` that the segment covers. */
  ghost function Below(s: Segment, p: nat): set<nat> {
    set k: nat | k < p && Covers(s, k)
  }

  lemma BelowNext(s: Segment, p: nat)
    requires Covers(s, p)
    ensures Below(s, p + 1) == Below(s, p) + {p} && p !in Below(s, p)
  {
  }

  lemma BelowEnds(s: Segment)
    requires Loadable(s)
    ensures Below(s, FirstPage(s)) == {}
    ensures LastPage(s) <= USER_PAGES ==> Below(s, LastPage(s)) == Below(s, USER_PAGES)
  {
    forall k: nat ensures Covers(s, k) <==> FirstPage(s) <= k < LastPage(s) { CoversIs(s, k); }
  }

  /** The pages `ps` leave no page, or too few, for page `p`. */
  ghost predicate RunsOut(tabs: Tabs, free: nat, ps: set<nat>, p: nat, e: ElfError) {
    (e == NoMemory && UsesUp(tabs, free, ps)) || (e == PageMapFailed && FallsShort(tabs, free, ps, p))
  }

  /** Some page of the segment is the first that cannot be paid for. */
  ghost predicate SegmentBreaks(tabs: Tabs, free: nat, s: Segment, e: ElfError) {
    exists p: nat :: Covers(s, p) && RunsOut(tabs, free, Below(s, p), p, e)
  }

  /** Every loadable segment lies in the user half and keeps off the kernel image. */
  ghost predicate Loads(segs: seq<Segment>, image: Image) {
    forall i :: 0 <= i < |segs| && Loadable(segs[i]) ==>
      LastPage(segs[i]) <= USER_PAGES && image.Avoids(FirstPage(segs[i]), LastPage(segs[i]))
  }

  // ---------- When the file can be loaded ----------

  /** Page `k` is covered by one of the first `n` segments. */
  ghost predicate CoveredBefore(segs: seq<Segment>, n: nat, k: nat) {
    exists j :: 0 <= j < n && j < |segs| && Covers(segs[j], k)
  }

  /** The user pages that the first `n` segments cover. */
  ghost function Covered(segs: seq<Segment>, n: nat): set<nat> {
    set k: nat | k < USER_PAGES && CoveredBefore(segs, n, k)
  }

  /** The segment's file range ends within the file, and within 64 bits. */
  predicate FileInside(data: seq<byte>, s: Segment) {
    s.offset + s.filesz <= |data| && s.offset + s.filesz < 0x1_0000_0000_0000_0000
  }

  /** Segment `i` covers no page of an area, and none that an earlier segment covers. */
  ghost predicate SpanFree(vs: seq<Vma>, segs: seq<Segment>, i: nat)
    requires i < |segs|
  {
    forall k: nat :: Covers(segs[i], k) ==> PageAttr(vs, k).None? && !CoveredBefore(segs, i, k)
  }

  /** The first `n` segments can be loaded, if memory lasts. */
  ghost predicate Fine(data: seq<byte>, vs: seq<Vma>, segs: seq<Segment>, n: nat)
    requires n <= |segs|
  {
    forall i :: 0 <= i < n ==>
      (segs[i].kind == 1 && segs[i].memsz > 0 ==> FileInside(data, segs[i])) && SpanFree(vs, segs, i)
  }

  /**
   * Every segment to be loaded has its data in the file; their pages lie in no area, and no two of them share one; and
   * there are as many free pages as they cover, and as many more as they lack tables.
   */
  ghost predicate CanLoad(data: seq<byte>, vs: seq<Vma>, tabs: Tabs, free: nat, segs: seq<Segment>) {
    Fine(data, vs, segs, |segs|) && Cost(tabs, Covered(segs, |segs|)) <= free
  }

  /**
   * Loading stops at segment `i` for reason `e`: those before it can be loaded, and it is the first whose data is not
   * in the file, whose pages are taken, or of which a page cannot be paid for. For that page there is no frame, or
   * there is one and then not enough for its tables.
   */
  ghost predicate StopsAt(data: seq<byte>, vs: seq<Vma>, tabs: Tabs, free: nat, segs: seq<Segment>, i: nat, e: ElfError)
  {
    && i < |segs| && Fine(data, vs, segs, i) && Cost(tabs, Covered(segs, i)) <= free
    && var s := segs[i];
    && s.kind == 1 && s.memsz > 0
    && match e
       case DataOverflow => s.offset + s.filesz >= 0x1_0000_0000_0000_0000
       case DataOutOfBounds => |data| < s.offset + s.filesz < 0x1_0000_0000_0000_0000
       case AreaTaken => FileInside(data, s) && !SpanFree(vs, segs, i)
       case NoMemory => FileInside(data, s) && SpanFree(vs, segs, i) && NoFrameFor(tabs, free, segs, i)
       case PageMapFailed => FileInside(data, s) && SpanFree(vs, segs, i) && NoTablesFor(tabs, free, segs, i)
       case _ => false
  }

  /** The pages before some page of segment `i` use up all free pages. */
  ghost predicate NoFrameFor(tabs: Tabs, free: nat, segs: seq<Segment>, i: nat)
    requires i < |segs|
  {
    exists p: nat :: Covers(segs[i], p) && Cost(tabs, Covered(segs, i) + Below(segs[i], p)) == free
  }

  /** The pages before some page of segment `i` leave a frame for it, but too few pages for its tables. */
  ghost predicate NoTablesFor(tabs: Tabs, free: nat, segs: seq<Segment>, i: nat)
    requires i < |segs|
  {
    exists p: nat :: Covers(segs[i], p) &&
      Cost(tabs, Covered(segs, i) + Below(segs[i], p)) < free < Cost(tabs, Covered(segs, i) + Below(segs[i], p) + {p})
  }

  lemma CoveredNext(segs: seq<Segment>, i: nat, next: nat)
    requires next == i + 1 <= |segs|
    ensures Covered(segs, next) == Covered(segs, i) + Below(segs[i], USER_PAGES)
  {
    forall k: nat ensures CoveredBefore(segs, next, k) <==> CoveredBefore(segs, i, k) || Covers(segs[i], k) {
      if j :| 0 <= j < next && Covers(segs[j], k) { assert j < i || j == i; }
    }
  }

  lemma CoveredGrows(segs: seq<Segment>, i: nat, n: nat)
    requires i <= n <= |segs|
    ensures Covered(segs, i) <= Covered(segs, n)
  {
  }

  /** Every page that a segment covers is a user page. */
  ghost predicate InUserHalf(segs: seq<Segment>) {
    forall i, k: nat :: 0 <= i < |segs| && Covers(segs[i], k) ==> k < USER_PAGES
  }

  lemma LoadsInUserHalf(segs: seq<Segment>, image: Image)
    requires Loads(segs, image)
    ensures InUserHalf(segs)
  {
    forall i, k: nat | 0 <= i < |segs| && Covers(segs[i], k) ensures k < USER_PAGES { CoversIs(segs[i], k); }
  }

  /** The pages before page `p` of segment `i`, those of earlier segments included. */
  ghost function Before(segs: seq<Segment>, i: nat, p: nat): set<nat>
    requires i < |segs|
  {
    Covered(segs, i) + Below(segs[i], p)
  }

  lemma BeforeIn(vs: seq<Vma>, segs: seq<Segment>, i: nat, p: nat, n: nat)
    requires i < n <= |segs| && InUserHalf(segs) && SpanFree(vs, segs, i) && Covers(segs[i], p)
    ensures p !in Before(segs, i, p) && Before(segs, i, p) + {p} <= Covered(segs, n)
  {
    CoveredNext(segs, i, i + 1);
    CoveredGrows(segs, i + 1, n);
  }

  /** A stop means that what includes the segment cannot be loaded. */
  lemma StopMeans(data: seq<byte>, vs: seq<Vma>, tabs: Tabs, free: nat, segs: seq<Segment>, i: nat, e: ElfError, n: nat)
    requires StopsAt(data, vs, tabs, free, segs, i, e) && i < n <= |segs| && InUserHalf(segs)
    ensures !(Fine(data, vs, segs, n) && Cost(tabs, Covered(segs, n)) <= free)
  {
    if Fine(data, vs, segs, n) {
      assert SpanFree(vs, segs, i) && FileInside(data, segs[i]);
      if e == NoMemory {
        var p: nat :| Covers(segs[i], p) && Cost(tabs, Covered(segs, i) + Below(segs[i], p)) == free;
        BeforeIn(vs, segs, i, p, n);
        UsesUpIs(tabs, free, Before(segs, i, p));
        ShortMeans(tabs, free, Before(segs, i, p), p, Covered(segs, n));
      } else {
        var p: nat :| Covers(segs[i], p) && Cost(tabs, Covered(segs, i) + Below(segs[i], p)) < free <
                                            Cost(tabs, Covered(segs, i) + Below(segs[i], p) + {p});
        BeforeIn(vs, segs, i, p, n);
        FallsShortIs(tabs, free, Before(segs, i, p), p);
        ShortMeans(tabs, free, Before(segs, i, p), p, Covered(segs, n));
      }
    }
  }

  /** Where loading stops and why is settled by the state before. */
  lemma StopsOnce(data: seq<byte>, vs: seq<Vma>, tabs: Tabs, free: nat, segs: seq<Segment>, i: nat, e: ElfError, j: nat,
                  f: ElfError)
    requires StopsAt(data, vs, tabs, free, segs, i, e) && StopsAt(data, vs, tabs, free, segs, j, f) && InUserHalf(segs)
    ensures i == j && e == f
  {
    if i < j {
      StopMeans(data, vs, tabs, free, segs, i, e, j);
    } else if j < i {
      StopMeans(data, vs, tabs, free, segs, j, f, i);
    } else if e == NoMemory && f == PageMapFailed {
      FrameOrTables(tabs, free, segs, i);
    } else if e == PageMapFailed && f == NoMemory {
      FrameOrTables(tabs, free, segs, i);
    }
  }

  lemma FrameOrTables(tabs: Tabs, free: nat, segs: seq<Segment>, i: nat)
    requires i < |segs| && NoFrameFor(tabs, free, segs, i)
    ensures !NoTablesFor(tabs, free, segs, i)
  {
    var p: nat :| Covers(segs[i], p) && Cost(tabs, Covered(segs, i) + Below(segs[i], p)) == free;
    forall q: nat | Covers(segs[i], q)
      ensures !(Cost(tabs, Covered(segs, i) + Below(segs[i], q)) < free <
                Cost(tabs, Covered(segs, i) + Below(segs[i], q) + {q}))
    {
      if q < p {
        CostGrows(tabs, Before(segs, i, q) + {q}, Before(segs, i, p));
      } else {
        CostGrows(tabs, Before(segs, i, p), Before(segs, i, q));
      }
    }
  }
}
