/** Seeding the allocator: a memory region minus a list of excluded intervals. */
module Regions {
  import opened Bits
  import opened PhysMem
  import opened BuddyBlocks
  import opened BuddyAllocator

  type Interval = (nat, nat)

  predicate Touches(lo: nat, hi: nat, ex: Interval) {
    lo < ex.1 && hi > ex.0
  }

  /** The window from `lo` to `hi` lies in the region and meets none of the excluded intervals. */
  predicate Usable(start: nat, end: nat, excludes: seq<Interval>, lo: nat, hi: nat) {
    start <= lo && hi <= end && forall i :: 0 <= i < |excludes| ==> !Touches(lo, hi, excludes[i])
  }

  predicate Fits(rs: seq<Interval>, lo: nat, hi: nat) {
    exists i :: 0 <= i < |rs| && rs[i].0 <= lo && hi <= rs[i].1
  }

  predicate PageUsable(start: nat, end: nat, excludes: seq<Interval>, p: nat) {
    Usable(start, end, excludes, p * 4096, p * 4096 + 4096)
  }

  /** The pages that lie wholly inside the region and outside every excluded interval. */
  function UsablePages(start: nat, end: nat, excludes: seq<Interval>): set<nat> {
    set p: nat | p < end && PageUsable(start, end, excludes, p)
  }

  ghost predicate Ordered(rs: seq<Interval>) {
    && (forall i :: 0 <= i < |rs| ==> rs[i].0 <= rs[i].1)
    && (forall i, j :: 0 <= i < j < |rs| ==> rs[i].1 <= rs[j].0)
  }

  /** What is left of one interval after removing `ex`. */
  function Cut(r: Interval, ex: Interval): seq<Interval> {
    if r.0 < ex.1 && r.1 > ex.0 then
      (if r.0 < ex.0 then [(r.0, ex.0)] else []) + (if r.1 > ex.1 then [(ex.1, r.1)] else [])
    else [r]
  }

  function CutAll(rs: seq<Interval>, ex: Interval): seq<Interval> {
    if rs == [] then [] else CutAll(rs[..|rs| - 1], ex) + Cut(rs[|rs| - 1], ex)
  }

  lemma {:induction false} CutAllFits(rs: seq<Interval>, ex: Interval, lo: nat, hi: nat)
    requires lo < hi && ex.0 <= ex.1
    ensures Fits(CutAll(rs, ex), lo, hi) <==> Fits(rs, lo, hi) && !Touches(lo, hi, ex)
  {
    if rs != [] {
      var front, last := rs[..|rs| - 1], rs[|rs| - 1];
      CutAllFits(front, ex, lo, hi);
      FitsConcat(front, [last], lo, hi);
      assert front + [last] == rs;
      FitsConcat(CutAll(front, ex), Cut(last, ex), lo, hi);
      CutFits(last, ex, lo, hi);
    }
  }

  lemma CutFits(r: Interval, ex: Interval, lo: nat, hi: nat)
    requires lo < hi && ex.0 <= ex.1
    ensures Fits(Cut(r, ex), lo, hi) <==> Fits([r], lo, hi) && !Touches(lo, hi, ex)
  {
    var c := Cut(r, ex);
    assert [r][0] == r;
    if Fits([r], lo, hi) && !Touches(lo, hi, ex) {
      if r.0 < ex.1 && r.1 > ex.0 {
        if hi <= ex.0 { assert c[0].0 <= lo && hi <= c[0].1; }
        else { assert c[|c| - 1].0 <= lo && hi <= c[|c| - 1].1; }
      } else {
        assert c[0] == r;
      }
    }
  }

  lemma FitsConcat(rs: seq<Interval>, ts: seq<Interval>, lo: nat, hi: nat)
    ensures Fits(rs + ts, lo, hi) <==> Fits(rs, lo, hi) || Fits(ts, lo, hi)
  {
    var all := rs + ts;
    if Fits(rs, lo, hi) {
      var i :| 0 <= i < |rs| && rs[i].0 <= lo && hi <= rs[i].1;
      assert all[i] == rs[i];
    }
    if Fits(ts, lo, hi) {
      var i :| 0 <= i < |ts| && ts[i].0 <= lo && hi <= ts[i].1;
      assert all[|rs| + i] == ts[i];
    }
  }

  /** Cutting keeps the intervals ordered, and at most one of them is cut in two. */
  lemma {:induction false} CutAllOrdered(rs: seq<Interval>, ex: Interval)
    requires Ordered(rs) && ex.0 <= ex.1
    ensures var c := CutAll(rs, ex);
      && Ordered(c)
      && |c| <= |rs| + 1
      && (|c| == |rs| + 1 ==> rs != [] && rs[|rs| - 1].1 > ex.1)
      && (c != [] ==> rs != [] && c[|c| - 1].1 <= rs[|rs| - 1].1)
  {
    if rs != [] {
      var front, last := rs[..|rs| - 1], rs[|rs| - 1];
      assert Ordered(front);
      CutAllOrdered(front, ex);
      var a, b := CutAll(front, ex), Cut(last, ex);
      CutOrdered(last, ex);
      assert front != [] ==> front[|front| - 1].1 <= last.0;
      OrderedConcat(a, b);
    }
  }

  lemma CutOrdered(r: Interval, ex: Interval)
    requires r.0 <= r.1 && ex.0 <= ex.1
    ensures var c := Cut(r, ex);
      && Ordered(c) && |c| <= 2 && (|c| == 2 ==> r.0 < ex.0 && r.1 > ex.1)
      && (c != [] ==> r.0 <= c[0].0 && c[|c| - 1].1 <= r.1)
  {
  }

  lemma OrderedConcat(a: seq<Interval>, b: seq<Interval>)
    requires Ordered(a) && Ordered(b)
    requires a != [] && b != [] ==> a[|a| - 1].1 <= b[0].0
    ensures Ordered(a + b)
  {
    var c := a + b;
    forall i, j | 0 <= i < j < |c|
      ensures c[i].1 <= c[j].0
    {
      if i < |a| <= j {
        assert i < |a| - 1 ==> a[i].1 <= a[|a| - 1].0;
        assert j - |a| > 0 ==> b[0].1 <= b[j - |a|].0;
      }
    }
  }

  /** The pages that lie wholly inside one of the intervals. */
  ghost predicate PageFits(rs: seq<Interval>, p: nat) {
    Fits(rs, p * 4096, p * 4096 + 4096)
  }

  ghost function FitPages(rs: seq<Interval>, end: nat): set<nat> {
    set p: nat | p < end && PageFits(rs, p)
  }

  /** The intervals in `rs` are the region minus `excludes`, in order. */
  ghost predicate Subtracted(rs: seq<Interval>, start: nat, end: nat, excludes: seq<Interval>) {
    && Ordered(rs)
    && forall lo: nat, hi: nat :: lo < hi ==> (Fits(rs, lo, hi) <==> Usable(start, end, excludes, lo, hi))
  }

  lemma SubtractNext(rs: seq<Interval>, start: nat, end: nat, excludes: seq<Interval>, ex: Interval)
    requires Subtracted(rs, start, end, excludes) && ex.0 <= ex.1
    ensures Subtracted(CutAll(rs, ex), start, end, excludes + [ex])
  {
    CutAllOrdered(rs, ex);
    forall lo: nat, hi: nat | lo < hi
      ensures Fits(CutAll(rs, ex), lo, hi) <==> Usable(start, end, excludes + [ex], lo, hi)
    {
      CutAllFits(rs, ex, lo, hi);
      var all := excludes + [ex];
      assert Usable(start, end, excludes, lo, hi) && !Touches(lo, hi, ex) ==> Usable(start, end, all, lo, hi);
      if Usable(start, end, all, lo, hi) {
        assert all[|excludes|] == ex;
        assert forall i :: 0 <= i < |excludes| ==> all[i] == excludes[i];
      }
    }
  }

  /** Intervals that are not empty end by `end`. */
  predicate EndBy(rs: seq<Interval>, end: nat) {
    forall i :: 0 <= i < |rs| ==> rs[i].0 == rs[i].1 || rs[i].1 <= end
  }

  lemma FitPagesGrow(rs: seq<Interval>, i: nat, end: nat)
    requires Ordered(rs) && i < |rs| && EndBy(rs, end)
    ensures FitPages(rs[..i + 1], end) == FitPages(rs[..i], end) + Range(AlignUpPage(rs[i].0), AlignDownPage(rs[i].1))
    ensures FitPages(rs[..i], end) !! Range(AlignUpPage(rs[i].0), AlignDownPage(rs[i].1))
  {
    var lo, hi := AlignUpPage(rs[i].0), AlignDownPage(rs[i].1);
    assert rs[..i + 1] == rs[..i] + [rs[i]];
    forall p: nat
      ensures PageFits(rs[..i + 1], p) <==> PageFits(rs[..i], p) || InRange(p, lo, hi)
      ensures !(PageFits(rs[..i], p) && InRange(p, lo, hi))
    {
      FitsConcat(rs[..i], [rs[i]], p * 4096, p * 4096 + 4096);
      assert [rs[i]][0] == rs[i];
      PageInInterval(rs[i], p);
    }
  }

  lemma PageInInterval(r: Interval, p: nat)
    ensures Fits([r], p * 4096, p * 4096 + 4096) <==> InRange(p, AlignUpPage(r.0), AlignDownPage(r.1))
  {
    assert [r][0] == r;
  }

  // ---------- When the seeded allocator is coalesced ----------

  /** The bytes of a block of pages. */
  predicate BlockFits(rs: seq<Interval>, b: nat, o: nat) {
    Fits(rs, b * 4096, (b + Pow2(o)) * 4096)
  }

  lemma BlockInInterval(r: Interval, b: nat, o: nat)
    ensures BlockFits([r], b, o) <==> BlockPages(b, o) <= Range(AlignUpPage(r.0), AlignDownPage(r.1))
  {
    assert [r][0] == r;
    var lo, hi, last := AlignUpPage(r.0), AlignDownPage(r.1), b + Pow2(o) - 1;
    forall p: nat ensures p in BlockPages(b, o) <==> Within(p, b, o) {}
    forall p: nat ensures p in Range(lo, hi) <==> InRange(p, lo, hi) {}
    PageInInterval(r, b);
    PageInInterval(r, last);
    if BlockFits([r], b, o) {
      forall p: nat | Within(p, b, o) ensures InRange(p, lo, hi) { PageInInterval(r, p); }
    } else {
      assert Within(b, b, o) && Within(last, b, o);
    }
  }

  lemma BlockFitsPages(rs: seq<Interval>, b: nat, o: nat, end: nat)
    requires BlockFits(rs, b, o) && EndBy(rs, end)
    ensures BlockPages(b, o) <= FitPages(rs, end)
  {
    var i :| 0 <= i < |rs| && rs[i].0 <= b * 4096 && (b + Pow2(o)) * 4096 <= rs[i].1;
    forall p: nat | p in BlockPages(b, o) ensures p in FitPages(rs, end) {
      assert Within(p, b, o);
      assert rs[i].0 <= p * 4096 && p * 4096 + 4096 <= rs[i].1;
      assert PageFits(rs, p);
    }
  }

  /** An aligned block that is wholly free lies in the old pages or inside one of the intervals. */
  ghost predicate OnePart(s: set<nat>, rs: seq<Interval>, end: nat) {
    forall b: nat, o: nat :: WholeIn(b, o, s + FitPages(rs, end)) ==> BlockPages(b, o) <= s || BlockFits(rs, b, o)
  }

  lemma OnePartStep(s: set<nat>, rs: seq<Interval>, i: nat, end: nat)
    requires Ordered(rs) && i < |rs| && EndBy(rs, end) && s !! FitPages(rs, end)
    ensures OnePart(s, rs[..i + 1], end) <==>
      && OnePart(s, rs[..i], end)
      && Unmixed(s + FitPages(rs[..i], end), Range(AlignUpPage(rs[i].0), AlignDownPage(rs[i].1)))
  {
    var done, more := FitPages(rs[..i], end), Range(AlignUpPage(rs[i].0), AlignDownPage(rs[i].1));
    FitPagesGrow(rs, i, end);
    FitPagesMonotone(rs, i + 1, end);
    assert s + FitPages(rs[..i + 1], end) == s + done + more;
    assert (s + done) !! more;
    forall b: nat, o: nat
      ensures BlockFits(rs[..i + 1], b, o) <==> BlockFits(rs[..i], b, o) || BlockPages(b, o) <= more
      ensures BlockFits(rs[..i], b, o) ==> BlockPages(b, o) <= done
      ensures b in BlockPages(b, o)
    {
      assert rs[..i + 1] == rs[..i] + [rs[i]];
      FitsConcat(rs[..i], [rs[i]], b * 4096, (b + Pow2(o)) * 4096);
      BlockInInterval(rs[i], b, o);
      if BlockFits(rs[..i], b, o) { BlockFitsPages(rs[..i], b, o, end); }
      assert Within(b, b, o);
    }
    PartsGrow(s, rs, i, end, done, more);
  }

  lemma PartsGrow(s: set<nat>, rs: seq<Interval>, i: nat, end: nat, done: set<nat>, more: set<nat>)
    requires i < |rs| && (s + done) !! more && s + FitPages(rs[..i + 1], end) == s + done + more
    requires done == FitPages(rs[..i], end)
    requires forall b: nat, o: nat :: BlockFits(rs[..i + 1], b, o) <==>
      BlockFits(rs[..i], b, o) || BlockPages(b, o) <= more
    requires forall b: nat, o: nat :: BlockFits(rs[..i], b, o) ==> BlockPages(b, o) <= done
    requires forall b: nat, o: nat :: b in BlockPages(b, o)
    ensures OnePart(s, rs[..i + 1], end) <==> OnePart(s, rs[..i], end) && Unmixed(s + done, more)
  {
    if OnePart(s, rs[..i + 1], end) {
      forall b: nat, o: nat | WholeIn(b, o, s + done) ensures BlockPages(b, o) <= s || BlockFits(rs[..i], b, o) {
        assert WholeIn(b, o, s + FitPages(rs[..i + 1], end));
        assert b in BlockPages(b, o);
      }
      forall b: nat, o: nat | WholeIn(b, o, s + done + more)
        ensures BlockPages(b, o) <= s + done || BlockPages(b, o) <= more
      {
        assert WholeIn(b, o, s + FitPages(rs[..i + 1], end));
      }
    }
    if OnePart(s, rs[..i], end) && Unmixed(s + done, more) {
      forall b: nat, o: nat | WholeIn(b, o, s + FitPages(rs[..i + 1], end))
        ensures BlockPages(b, o) <= s || BlockFits(rs[..i + 1], b, o)
      {
        assert WholeIn(b, o, s + done + more);
        assert BlockPages(b, o) <= s + done ==> WholeIn(b, o, s + done);
      }
    }
  }

  /** Every aligned block that is wholly free lies in the old pages, or in the region clear of all exclusions. */
  ghost predicate Separate(s: set<nat>, start: nat, end: nat, excludes: seq<Interval>) {
    forall b: nat, o: nat :: WholeIn(b, o, s + UsablePages(start, end, excludes)) ==>
      BlockPages(b, o) <= s || Usable(start, end, excludes, b * 4096, (b + Pow2(o)) * 4096)
  }

  /** With exclusions that are not empty and an empty allocator, this is always so. */
  lemma EmptySeparate(start: nat, end: nat, excludes: seq<Interval>)
    requires forall i :: 0 <= i < |excludes| ==> excludes[i].0 < excludes[i].1
    ensures Separate({}, start, end, excludes)
  {
    forall b: nat, o: nat | WholeIn(b, o, {} + UsablePages(start, end, excludes))
      ensures Usable(start, end, excludes, b * 4096, (b + Pow2(o)) * 4096)
    {
      forall p: nat | Within(p, b, o) ensures PageUsable(start, end, excludes, p) { assert p in BlockPages(b, o); }
      assert Within(b, b, o) && Within(b + Pow2(o) - 1, b, o);
      forall i | 0 <= i < |excludes| ensures !Touches(b * 4096, (b + Pow2(o)) * 4096, excludes[i]) {
        ClearOf(start, end, excludes, b, o, i);
      }
    }
  }

  lemma ClearOf(start: nat, end: nat, excludes: seq<Interval>, b: nat, o: nat, i: nat)
    requires i < |excludes| && excludes[i].0 < excludes[i].1
    requires forall p: nat :: Within(p, b, o) ==> PageUsable(start, end, excludes, p)
    ensures !Touches(b * 4096, (b + Pow2(o)) * 4096, excludes[i])
  {
    var lo, hi, ex := b * 4096, (b + Pow2(o)) * 4096, excludes[i];
    var a := if lo < ex.0 then ex.0 else lo;
    var p := a / 4096;
    assert Touches(lo, hi, ex) ==> Within(p, b, o) && Touches(p * 4096, p * 4096 + 4096, ex);
    assert Within(p, b, o) ==> PageUsable(start, end, excludes, p);
  }

  /** An empty exclusion at a page boundary cuts a free block in two: here, of the pages 2 and 3. */
  lemma EmptyExclusionCuts()
    ensures !Separate({}, 8192, 16384, [(12288, 12288)])
  {
    var pages := UsablePages(8192, 16384, [(12288, 12288)]);
    assert Pow2(1) == 2 && Aligned(2, 1);
    assert PageUsable(8192, 16384, [(12288, 12288)], 2) && PageUsable(8192, 16384, [(12288, 12288)], 3);
    forall p: nat | p in BlockPages(2, 1) ensures p in pages { assert p == 2 || p == 3; }
    assert WholeIn(2, 1, {} + pages);
    assert 2 in BlockPages(2, 1);
    assert Touches(2 * 4096, (2 + Pow2(1)) * 4096, [(12288, 12288)][0]);
  }

  // ---------- The subtraction ----------

  const SLOTS: nat := 8

  /** The intervals left after taking out one exclusion after another. */
  function Remaining(start: nat, end: nat, excludes: seq<Interval>): seq<Interval> {
    if excludes == [] then [(start, end)]
    else CutAll(Remaining(start, end, excludes[..|excludes| - 1]), excludes[|excludes| - 1])
  }

  /** At no time are there more intervals than slots. */
  predicate FitSlots(start: nat, end: nat, excludes: seq<Interval>) {
    |Remaining(start, end, excludes)| <= SLOTS && (excludes == [] || FitSlots(start, end, excludes[..|excludes| - 1]))
  }

  lemma {:induction false} FitSlotsPrefix(start: nat, end: nat, excludes: seq<Interval>, k: nat)
    requires k <= |excludes| && FitSlots(start, end, excludes)
    ensures FitSlots(start, end, excludes[..k])
  {
    if k < |excludes| {
      FitSlotsPrefix(start, end, excludes[..|excludes| - 1], k);
      assert excludes[..|excludes| - 1][..k] == excludes[..k];
    } else {
      assert excludes[..k] == excludes;
    }
  }

  lemma NextExclusion(start: nat, end: nat, excludes: seq<Interval>, k: nat)
    requires k < |excludes| && FitSlots(start, end, excludes[..k])
    ensures Remaining(start, end, excludes[..k + 1]) == CutAll(Remaining(start, end, excludes[..k]), excludes[k])
    ensures FitSlots(start, end, excludes[..k + 1]) <==> |Remaining(start, end, excludes[..k + 1])| <= SLOTS
    ensures FitSlots(start, end, excludes) ==> FitSlots(start, end, excludes[..k + 1])
  {
    assert excludes[..k + 1][..k] == excludes[..k];
    if FitSlots(start, end, excludes) { FitSlotsPrefix(start, end, excludes, k + 1); }
  }

  lemma {:induction false} RemainingSubtracted(start: nat, end: nat, excludes: seq<Interval>)
    requires start <= end && forall i :: 0 <= i < |excludes| ==> excludes[i].0 <= excludes[i].1
    ensures Subtracted(Remaining(start, end, excludes), start, end, excludes)
  {
    if excludes == [] {
      WholeRegion(start, end);
    } else {
      var front, ex := excludes[..|excludes| - 1], excludes[|excludes| - 1];
      assert front + [ex] == excludes;
      var rs := Remaining(start, end, front);
      assert Subtracted(rs, start, end, front) by { RemainingSubtracted(start, end, front); }
      assert Subtracted(CutAll(rs, ex), start, end, front + [ex]) by { SubtractNext(rs, start, end, front, ex); }
    }
  }

  lemma CutAdds(rs: seq<Interval>, ex: Interval)
    requires Ordered(rs) && ex.0 <= ex.1
    ensures |CutAll(rs, ex)| <= |rs| + 1
  {
    CutAllOrdered(rs, ex);
  }

  /** Each exclusion adds at most one interval, so seven never overflow the slots. */
  lemma {:induction false} SevenFit(start: nat, end: nat, excludes: seq<Interval>)
    requires start <= end && forall i :: 0 <= i < |excludes| ==> excludes[i].0 <= excludes[i].1
    ensures |Remaining(start, end, excludes)| <= |excludes| + 1
    ensures |excludes| < SLOTS ==> FitSlots(start, end, excludes)
  {
    if excludes != [] {
      var front, ex := excludes[..|excludes| - 1], excludes[|excludes| - 1];
      SevenFit(start, end, front);
      RemainingSubtracted(start, end, front);
      CutAdds(Remaining(start, end, front), ex);
    }
  }

  lemma {:induction false} CutAllLonger(rs: seq<Interval>, ex: Interval, i: nat)
    requires i <= |rs|
    ensures |CutAll(rs[..i], ex)| <= |CutAll(rs, ex)|
  {
    if i < |rs| {
      CutAllLonger(rs[..|rs| - 1], ex, i);
      assert rs[..|rs| - 1][..i] == rs[..i];
    } else {
      assert rs[..i] == rs;
    }
  }

  /** Stores into the next slot; a store past the last one panics. */
  method Append(next: array<Interval>, n: nat, r: Interval) returns (ok: bool, n2: nat)
    requires n <= next.Length
    modifies next
    ensures ok <==> n < next.Length
    ensures ok ==> n2 == n + 1 && next[..n2] == old(next[..n]) + [r]
  {
    if n == next.Length { return false, n; }
    next[n] := r;
    return true, n + 1;
  }

  /** Appends what is left of `r` after removing `ex`. */
  method CutOne(r: Interval, ex: Interval, next: array<Interval>, n: nat) returns (ok: bool, n2: nat)
    requires n <= next.Length
    modifies next
    ensures ok <==> n + |Cut(r, ex)| <= next.Length
    ensures ok ==> n2 == n + |Cut(r, ex)| && next[..n2] == old(next[..n]) + Cut(r, ex)
  {
    ok, n2 := true, n;
    if r.0 < ex.1 && r.1 > ex.0 {
      if r.0 < ex.0 {
        ok, n2 := Append(next, n2, (r.0, ex.0));
        if !ok { return; }
      }
      if r.1 > ex.1 {
        ok, n2 := Append(next, n2, (ex.1, r.1));
      }
    } else {
      ok, n2 := Append(next, n2, r);
    }
  }

  /** One round of the subtraction, from the first `count` intervals of `remaining` into a fresh array. */
  method CutRound(remaining: array<Interval>, count: nat, ex: Interval)
    returns (ok: bool, next: array<Interval>, nextCount: nat)
    requires count <= remaining.Length
    ensures fresh(next) && next.Length == SLOTS
    ensures ok <==> |CutAll(remaining[..count], ex)| <= SLOTS
    ensures ok ==> nextCount <= SLOTS && next[..nextCount] == CutAll(remaining[..count], ex)
  {
    ghost var rs := remaining[..count];
    next := new Interval[SLOTS](_ => (0, 0));
    ok, nextCount := true, 0;
    for i := 0 to count
      invariant ok && nextCount <= SLOTS
      invariant remaining[..count] == rs
      invariant next[..nextCount] == CutAll(rs[..i], ex)
    {
      assert rs[..i + 1][..i] == rs[..i];
      assert remaining[i] == rs[i];
      CutAllLonger(rs, ex, i + 1);
      ok, nextCount := CutOne(remaining[i], ex, next, nextCount);
      if !ok { return; }
    }
    assert rs[..count] == rs;
  }

  /**
   * Subtracts `excludes` from the region, then registers each remaining interval; false is the panic on a ninth
   * interval.
   */
  method AddRegionExcluding(alloc: Buddy, start: nat, end: nat, excludes: seq<Interval>) returns (ok: bool)
    requires alloc.Valid() && 0 < start <= end
    requires forall i :: 0 <= i < |excludes| ==> excludes[i].0 <= excludes[i].1
    requires UsablePages(start, end, excludes) !! alloc.free
    modifies alloc, alloc.mem
    ensures alloc.Valid() && (ok <==> FitSlots(start, end, excludes)) && (|excludes| < SLOTS ==> ok)
    ensures !ok ==> alloc.free == old(alloc.free) && alloc.mem.cells == old(alloc.mem.cells)
    ensures ok ==> alloc.free == old(alloc.free) + UsablePages(start, end, excludes)
    ensures ok ==>
      (Coalesced(alloc.blocks) <==> old(Coalesced(alloc.blocks)) && Separate(old(alloc.free), start, end, excludes))
    ensures ok && old(alloc.free) == {} && (forall i :: 0 <= i < |excludes| ==> excludes[i].0 < excludes[i].1) ==>
      Coalesced(alloc.blocks)
    ensures SameExcept(old(alloc.mem.cells), alloc.mem.cells, UsablePages(start, end, excludes))
  {
    var remaining: array<Interval>, count: nat;
    ok, remaining, count := SubtractAll(start, end, excludes);
    SevenFit(start, end, excludes);
    if !ok { return; }
    NothingCoalesced(alloc.blocks);
    Register(alloc, remaining, count, start, end, excludes);
    if forall i :: 0 <= i < |excludes| ==> excludes[i].0 < excludes[i].1 { EmptySeparate(start, end, excludes); }
  }

  lemma NothingCoalesced(bs: Blocks)
    ensures Pages(bs) == {} ==> Coalesced(bs)
  {
    if b :| b in bs { HeadInPages(bs, b); }
  }

  lemma WholeRegion(start: nat, end: nat)
    requires start <= end
    ensures Subtracted([(start, end)], start, end, [])
  {
    forall lo: nat, hi: nat | lo < hi ensures Fits([(start, end)], lo, hi) <==> Usable(start, end, [], lo, hi) {
      assert [(start, end)][0] == (start, end);
    }
  }

  /** The region with one excluded interval after another taken out. */
  method SubtractAll(start: nat, end: nat, excludes: seq<Interval>)
    returns (ok: bool, remaining: array<Interval>, count: nat)
    requires start <= end && forall i :: 0 <= i < |excludes| ==> excludes[i].0 <= excludes[i].1
    ensures fresh(remaining) && (ok <==> FitSlots(start, end, excludes))
    ensures ok ==> count <= remaining.Length && Subtracted(remaining[..count], start, end, excludes)
  {
    remaining := new Interval[SLOTS](_ => (0, 0));
    remaining[0] := (start, end);
    ok, count := true, 1;
    assert remaining[..count] == [(start, end)];
    for k := 0 to |excludes|
      invariant ok && fresh(remaining) && remaining.Length == SLOTS && count <= SLOTS
      invariant remaining[..count] == Remaining(start, end, excludes[..k])
      invariant FitSlots(start, end, excludes[..k])
    {
      NextExclusion(start, end, excludes, k);
      ok, remaining, count := CutRound(remaining, count, excludes[k]);
      if !ok { return; }
    }
    assert excludes[..|excludes|] == excludes;
    RemainingSubtracted(start, end, excludes);
  }

  /**
   * The free pages are `s` and those of the intervals, and `was` with their position says whether they are coalesced.
   */
  ghost predicate Seeded(bs: Blocks, free: set<nat>, s: set<nat>, was: bool, rs: seq<Interval>, end: nat) {
    free == s + FitPages(rs, end) && (Coalesced(bs) <==> was && OnePart(s, rs, end))
  }

  /** Registers interval `i`, if it is not empty. */
  method RegisterOne(alloc: Buddy, r: Interval, ghost s: set<nat>, ghost was: bool, ghost rs: seq<Interval>,
                     ghost i: nat, ghost end: nat)
    requires alloc.Valid() && Ordered(rs) && EndBy(rs, end) && i < |rs| && rs[i] == r && s !! FitPages(rs, end)
    requires (r.0 < r.1 ==> r.0 > 0) && Seeded(alloc.blocks, alloc.free, s, was, rs[..i], end)
    modifies alloc, alloc.mem
    ensures alloc.Valid() && Seeded(alloc.blocks, alloc.free, s, was, rs[..i + 1], end)
    ensures SameExcept(old(alloc.mem.cells), alloc.mem.cells, FitPages(rs, end))
  {
    ghost var more := Range(AlignUpPage(r.0), AlignDownPage(r.1));
    SeedStep(alloc.blocks, alloc.free, s, was, rs, i, end, more);
    if r.1 > r.0 {
      assert r.0 + (r.1 - r.0) == r.1;
      alloc.AddRegion(r.0, r.1 - r.0);
    }
  }

  /** What registering the pages of interval `i` does to the seeding. */
  lemma SeedStep(bs: Blocks, free: set<nat>, s: set<nat>, was: bool, rs: seq<Interval>, i: nat, end: nat,
                 more: set<nat>)
    requires Ordered(rs) && EndBy(rs, end) && i < |rs| && s !! FitPages(rs, end)
    requires more == Range(AlignUpPage(rs[i].0), AlignDownPage(rs[i].1)) && Seeded(bs, free, s, was, rs[..i], end)
    ensures more !! free && more <= FitPages(rs, end)
    ensures forall next: Blocks :: (Coalesced(next) <==> Coalesced(bs) && Unmixed(free, more)) ==>
      Seeded(next, free + more, s, was, rs[..i + 1], end)
    ensures rs[i].1 <= rs[i].0 ==> Seeded(bs, free, s, was, rs[..i + 1], end)
  {
    OnePartStep(s, rs, i, end);
    FitPagesGrow(rs, i, end);
    FitPagesMonotone(rs, i + 1, end);
    assert free + more == s + FitPages(rs[..i + 1], end);
    if rs[i].1 <= rs[i].0 {
      EmptyInterval(free, rs[i].0, rs[i].1);
      assert free + more == free;
    }
  }

  method Register(alloc: Buddy, remaining: array<Interval>, count: nat,
                  ghost start: nat, ghost end: nat, ghost excludes: seq<Interval>)
    requires alloc.Valid() && 0 < start <= end && count <= remaining.Length
    requires Subtracted(remaining[..count], start, end, excludes)
    requires UsablePages(start, end, excludes) !! alloc.free
    modifies alloc, alloc.mem
    ensures alloc.Valid()
    ensures alloc.free == old(alloc.free) + UsablePages(start, end, excludes)
    ensures Coalesced(alloc.blocks) <==> old(Coalesced(alloc.blocks)) && Separate(old(alloc.free), start, end, excludes)
    ensures SameExcept(old(alloc.mem.cells), alloc.mem.cells, UsablePages(start, end, excludes))
  {
    ghost var rs, s, was := remaining[..count], alloc.free, Coalesced(alloc.blocks);
    SubtractedPages(rs, start, end, excludes);
    NothingFits(s, rs, end);
    for i := 0 to count
      invariant alloc.Valid() && remaining[..count] == rs
      invariant Seeded(alloc.blocks, alloc.free, s, was, rs[..i], end)
      invariant SameExcept(old(alloc.mem.cells), alloc.mem.cells, FitPages(rs, end))
    {
      assert rs[i] == remaining[i];
      if rs[i].0 < rs[i].1 { WindowInside(rs, i, start, end, excludes); }
      RegisterOne(alloc, remaining[i], s, was, rs, i, end);
    }
    assert rs[..count] == rs;
    SeparateIsOnePart(s, rs, start, end, excludes);
  }

  /** Nothing of an empty interval is registered, and nothing mixes with it. */
  lemma EmptyInterval(s: set<nat>, lo: nat, hi: nat)
    requires hi <= lo
    ensures Range(AlignUpPage(lo), AlignDownPage(hi)) == {} && Unmixed(s, Range(AlignUpPage(lo), AlignDownPage(hi)))
  {
    forall p: nat ensures !InRange(p, AlignUpPage(lo), AlignDownPage(hi)) {}
    assert Range(AlignUpPage(lo), AlignDownPage(hi)) == {};
    assert s + {} == s;
  }

  lemma SubtractedPages(rs: seq<Interval>, start: nat, end: nat, excludes: seq<Interval>)
    requires Subtracted(rs, start, end, excludes) && start <= end
    ensures FitPages(rs, end) == UsablePages(start, end, excludes)
    ensures EndBy(rs, end)
  {
    forall i | 0 <= i < |rs| && rs[i].0 < rs[i].1 ensures start <= rs[i].0 && rs[i].1 <= end {
      WindowInside(rs, i, start, end, excludes);
    }
  }

  lemma WindowInside(rs: seq<Interval>, i: nat, start: nat, end: nat, excludes: seq<Interval>)
    requires Subtracted(rs, start, end, excludes) && i < |rs| && rs[i].0 < rs[i].1
    ensures start <= rs[i].0 && rs[i].1 <= end
  {
    assert Fits(rs, rs[i].0, rs[i].1);
  }

  lemma NothingFits(s: set<nat>, rs: seq<Interval>, end: nat)
    ensures FitPages(rs[..0], end) == {} && OnePart(s, rs[..0], end)
  {
    assert FitPages(rs[..0], end) == {};
    assert s + {} == s;
  }

  lemma SeparateIsOnePart(s: set<nat>, rs: seq<Interval>, start: nat, end: nat, excludes: seq<Interval>)
    requires Subtracted(rs, start, end, excludes) && FitPages(rs, end) == UsablePages(start, end, excludes)
    ensures OnePart(s, rs, end) <==> Separate(s, start, end, excludes)
  {
    forall b: nat, o: nat
      ensures BlockFits(rs, b, o) <==> Usable(start, end, excludes, b * 4096, (b + Pow2(o)) * 4096)
    {
    }
  }

  lemma FitPagesMonotone(rs: seq<Interval>, i: nat, end: nat)
    requires i <= |rs|
    ensures FitPages(rs[..i], end) <= FitPages(rs, end)
  {
    forall p: nat | PageFits(rs[..i], p)
      ensures PageFits(rs, p)
    {
      FitsConcat(rs[..i], rs[i..], p * 4096, p * 4096 + 4096);
      assert rs[..i] + rs[i..] == rs;
    }
  }

  // ---------- The memory map ----------

  /** The usable pages of the entries; one that starts at address 0 is skipped. */
  ghost function SeedPages(entries: seq<Interval>, excludes: seq<Interval>): set<nat> {
    if entries == [] then {}
    else SeedPages(entries[..|entries| - 1], excludes) + EntryPages(entries[|entries| - 1], excludes)
  }

  function EntryPages(e: Interval, excludes: seq<Interval>): set<nat> {
    if e.0 == 0 then {} else UsablePages(e.0, e.1, excludes)
  }

  /** The block lies in that entry, clear of all exclusions. */
  predicate ClearIn(e: Interval, excludes: seq<Interval>, b: nat, o: nat) {
    e.0 != 0 && Usable(e.0, e.1, excludes, b * 4096, (b + Pow2(o)) * 4096)
  }

  predicate InSomeEntry(entries: seq<Interval>, excludes: seq<Interval>, b: nat, o: nat) {
    exists i :: 0 <= i < |entries| && ClearIn(entries[i], excludes, b, o)
  }

  /** Every aligned block of usable pages lies in one entry, clear of all exclusions. */
  ghost predicate NoneSpans(entries: seq<Interval>, excludes: seq<Interval>) {
    forall b: nat, o: nat :: WholeIn(b, o, SeedPages(entries, excludes)) ==> InSomeEntry(entries, excludes, b, o)
  }

  /** Entries have no usable page in common. */
  ghost predicate EntriesApart(entries: seq<Interval>, excludes: seq<Interval>) {
    entries == [] ||
    (&& EntriesApart(entries[..|entries| - 1], excludes)
     && EntryPages(entries[|entries| - 1], excludes) !! SeedPages(entries[..|entries| - 1], excludes))
  }

  lemma ClearPages(e: Interval, excludes: seq<Interval>, b: nat, o: nat)
    requires ClearIn(e, excludes, b, o)
    ensures BlockPages(b, o) <= EntryPages(e, excludes)
  {
    forall p: nat | p in BlockPages(b, o) ensures p in EntryPages(e, excludes) {
      assert Within(p, b, o);
      forall i | 0 <= i < |excludes| ensures !Touches(p * 4096, p * 4096 + 4096, excludes[i]) {
        assert !Touches(b * 4096, (b + Pow2(o)) * 4096, excludes[i]);
      }
      assert PageUsable(e.0, e.1, excludes, p);
    }
  }

  lemma {:induction false} EntrySeeds(entries: seq<Interval>, excludes: seq<Interval>, i: nat)
    requires i < |entries|
    ensures EntryPages(entries[i], excludes) <= SeedPages(entries, excludes)
  {
    if i < |entries| - 1 { EntrySeeds(entries[..|entries| - 1], excludes, i); }
  }

  /** Adding the last entry: it must keep apart from what is there already. */
  lemma NoneSpansStep(entries: seq<Interval>, excludes: seq<Interval>, front: seq<Interval>, e: Interval)
    requires entries == front + [e] && e.0 != 0 && EntryPages(e, excludes) !! SeedPages(front, excludes)
    ensures SeedPages(entries, excludes) == SeedPages(front, excludes) + EntryPages(e, excludes)
    ensures NoneSpans(entries, excludes) <==>
      NoneSpans(front, excludes) && Separate(SeedPages(front, excludes), e.0, e.1, excludes)
  {
    var s, u := SeedPages(front, excludes), EntryPages(e, excludes);
    assert entries[..|entries| - 1] == front;
    assert SeedPages(entries, excludes) == s + u;
    forall b: nat, o: nat ensures b in BlockPages(b, o) && (ClearIn(e, excludes, b, o) ==> BlockPages(b, o) <= u) {
      assert Within(b, b, o);
      if ClearIn(e, excludes, b, o) { ClearPages(e, excludes, b, o); }
    }
    forall i, b: nat, o: nat | 0 <= i < |front| && ClearIn(front[i], excludes, b, o) ensures BlockPages(b, o) <= s {
      ClearPages(front[i], excludes, b, o);
      EntrySeeds(front, excludes, i);
    }
    if NoneSpans(entries, excludes) {
      forall b: nat, o: nat | WholeIn(b, o, s) ensures InSomeEntry(front, excludes, b, o) {
        assert WholeIn(b, o, s + u);
        var i :| 0 <= i < |entries| && ClearIn(entries[i], excludes, b, o);
        assert b in BlockPages(b, o);
        assert i < |front| ==> entries[i] == front[i];
      }
      forall b: nat, o: nat | WholeIn(b, o, s + u) ensures BlockPages(b, o) <= s || ClearIn(e, excludes, b, o) {
        var i :| 0 <= i < |entries| && ClearIn(entries[i], excludes, b, o);
        assert i < |front| ==> entries[i] == front[i];
      }
    }
    if NoneSpans(front, excludes) && Separate(s, e.0, e.1, excludes) {
      forall b: nat, o: nat | WholeIn(b, o, s + u) ensures InSomeEntry(entries, excludes, b, o) {
        if BlockPages(b, o) <= s {
          assert WholeIn(b, o, s);
          var i :| 0 <= i < |front| && ClearIn(front[i], excludes, b, o);
          assert entries[i] == front[i];
        } else {
          assert ClearIn(entries[|front|], excludes, b, o);
        }
      }
    }
  }

  lemma SkippedEntry(entries: seq<Interval>, excludes: seq<Interval>, front: seq<Interval>, e: Interval)
    requires entries == front + [e] && e.0 == 0
    ensures SeedPages(entries, excludes) == SeedPages(front, excludes)
    ensures (NoneSpans(entries, excludes) <==> NoneSpans(front, excludes))
  {
    assert entries[..|entries| - 1] == front;
    forall b: nat, o: nat
      ensures InSomeEntry(entries, excludes, b, o) <==> InSomeEntry(front, excludes, b, o)
    {
      if i :| 0 <= i < |entries| && ClearIn(entries[i], excludes, b, o) { assert entries[i] == front[i]; }
      if i :| 0 <= i < |front| && ClearIn(front[i], excludes, b, o) { assert entries[i] == front[i]; }
    }
  }

  /**
   * Seeds an empty allocator from the memory map. The free blocks end up coalesced if and only if no aligned block of
   * usable pages spans two entries or an exclusion.
   */
  method Seed(alloc: Buddy, entries: seq<Interval>, excludes: seq<Interval>)
    requires alloc.Valid() && alloc.free == {} && |excludes| < SLOTS && EntriesApart(entries, excludes)
    requires forall i :: 0 <= i < |excludes| ==> excludes[i].0 <= excludes[i].1
    requires forall i :: 0 <= i < |entries| ==> entries[i].0 <= entries[i].1
    modifies alloc, alloc.mem
    ensures alloc.Valid() && alloc.free == SeedPages(entries, excludes)
    ensures Coalesced(alloc.blocks) <==> NoneSpans(entries, excludes)
  {
    NothingCoalesced(alloc.blocks);
    NothingSpans(excludes);
    for k := 0 to |entries|
      invariant alloc.Valid() && alloc.free == SeedPages(entries[..k], excludes)
      invariant Coalesced(alloc.blocks) <==> NoneSpans(entries[..k], excludes)
    {
      SeedNext(alloc, entries[..k], entries[k], entries[..k + 1], excludes, entries);
    }
    assert entries[..|entries|] == entries;
  }

  lemma NothingSpans(excludes: seq<Interval>)
    ensures SeedPages([], excludes) == {} && NoneSpans([], excludes)
  {
    forall b: nat, o: nat ensures !WholeIn(b, o, {}) { assert Within(b, b, o) && b in BlockPages(b, o); }
  }

  lemma {:induction false} EntryApart(entries: seq<Interval>, excludes: seq<Interval>, k: nat)
    requires EntriesApart(entries, excludes) && k < |entries|
    ensures EntryPages(entries[k], excludes) !! SeedPages(entries[..k], excludes)
  {
    var n := |entries| - 1;
    if k < n {
      EntryApart(entries[..n], excludes, k);
      assert entries[..n][..k] == entries[..k];
    }
  }

  /** One entry of the memory map. */
  method SeedNext(alloc: Buddy, ghost front: seq<Interval>, e: Interval, ghost next: seq<Interval>,
                  excludes: seq<Interval>, ghost entries: seq<Interval>)
    requires alloc.Valid() && |excludes| < SLOTS && EntriesApart(entries, excludes) && e.0 <= e.1
    requires |front| < |entries| && front == entries[..|front|] && e == entries[|front|]
    requires next == entries[..|front| + 1]
    requires forall i :: 0 <= i < |excludes| ==> excludes[i].0 <= excludes[i].1
    requires alloc.free == SeedPages(front, excludes) && (Coalesced(alloc.blocks) <==> NoneSpans(front, excludes))
    modifies alloc, alloc.mem
    ensures alloc.Valid() && alloc.free == SeedPages(next, excludes)
    ensures (Coalesced(alloc.blocks) <==> NoneSpans(next, excludes))
  {
    EntryApart(entries, excludes, |front|);
    assert next == front + [e];
    if e.0 == 0 {
      SkippedEntry(next, excludes, front, e);
      return;
    }
    NoneSpansStep(next, excludes, front, e);
    var ok := AddRegionExcluding(alloc, e.0, e.1, excludes);
  }
}
