/**
 * The buddy allocator: one free list per order, threaded through the first word of each free block.
 * Page number 0 is the null link.
 */
module BuddyAllocator {
  import opened Bits
  import opened PhysMem
  import opened BuddyBlocks

  datatype Option<+T> = None | Some(value: T)

  function First(list: seq<nat>): nat {
    if list == [] then 0 else list[0]
  }

  function NextIn(list: seq<nat>, i: nat): nat {
    if i + 1 < |list| then list[i + 1] else 0
  }

  ghost predicate LinkAt(m: Mem, list: seq<nat>, i: nat)
    requires i < |list|
  {
    At(m, list[i]) == Link(NextIn(list, i))
  }

  /** The words in memory starting at `head` spell out `list`, which holds the free blocks of order `o`. */
  ghost predicate ListOk(m: Mem, head: nat, count: nat, list: seq<nat>, bs: Blocks, o: nat) {
    && head == First(list)
    && count == |list|
    && (forall i, j :: 0 <= i < j < |list| ==> list[i] != list[j])
    && (forall i :: 0 <= i < |list| ==> list[i] in bs && bs[list[i]] == o)
    && (forall i :: 0 <= i < |list| ==> LinkAt(m, list, i))
    && (forall b :: b in bs && bs[b] == o ==> b in list)
  }

  /** The first `n` lists are in order. */
  ghost predicate ListsOk(m: Mem, heads: seq<nat>, counts: seq<nat>, lists: seq<seq<nat>>, bs: Blocks, n: nat)
    requires n <= |heads| == |counts| == |lists|
  {
    n == 0 ||
    (ListOk(m, heads[n - 1], counts[n - 1], lists[n - 1], bs, n - 1) && ListsOk(m, heads, counts, lists, bs, n - 1))
  }

  ghost predicate AllListsOk(m: Mem, heads: seq<nat>, counts: seq<nat>, lists: seq<seq<nat>>, bs: Blocks) {
    |heads| == |counts| == |lists| == MAX_ORDER && ListsOk(m, heads, counts, lists, bs, |heads|)
  }

  lemma {:induction false} EachList(m: Mem, heads: seq<nat>, counts: seq<nat>, lists: seq<seq<nat>>, bs: Blocks, n: nat,
                                    o: nat)
    requires o < n <= |heads| == |counts| == |lists| && ListsOk(m, heads, counts, lists, bs, n)
    ensures ListOk(m, heads[o], counts[o], lists[o], bs, o)
  {
    if o < n - 1 { EachList(m, heads, counts, lists, bs, n - 1, o); }
  }

  lemma {:induction false} JoinLists(m: Mem, heads: seq<nat>, counts: seq<nat>, lists: seq<seq<nat>>, bs: Blocks,
                                     n: nat)
    requires n <= |heads| == |counts| == |lists|
    requires forall o :: 0 <= o < n ==> ListOk(m, heads[o], counts[o], lists[o], bs, o)
    ensures ListsOk(m, heads, counts, lists, bs, n)
  {
    if n > 0 { JoinLists(m, heads, counts, lists, bs, n - 1); }
  }

  lemma PushList(m: Mem, head: nat, count: nat, list: seq<nat>, bs: Blocks, o: nat, b: nat)
    requires ListOk(m, head, count, list, bs, o) && b !in bs
    ensures ListOk(m[b := Link(head)], b, count + 1, [b] + list, bs[b := o], o)
  {
    var next, m2 := [b] + list, m[b := Link(head)];
    forall i | 0 <= i < |next|
      ensures LinkAt(m2, next, i)
    {
      if i > 0 { assert LinkAt(m, list, i - 1); }
    }
    forall c | c in bs[b := o] && bs[b := o][c] == o
      ensures c in next
    {
      assert c == b || c in list;
    }
  }

  lemma OtherListPush(m: Mem, head: nat, count: nat, list: seq<nat>, bs: Blocks, o: nat, b: nat, cell: Cell, k: nat)
    requires ListOk(m, head, count, list, bs, o) && b !in bs && k != o
    ensures ListOk(m[b := cell], head, count, list, bs[b := k], o)
  {
    LinksFramed(m, list, b, cell, m[b := cell]);
  }

  lemma LinksFramed(m: Mem, list: seq<nat>, b: nat, cell: Cell, m2: Mem)
    requires b !in list && m2 == m[b := cell]
    requires forall i :: 0 <= i < |list| ==> LinkAt(m, list, i)
    ensures forall i :: 0 <= i < |list| ==> LinkAt(m2, list, i)
  {
    forall i | 0 <= i < |list| ensures LinkAt(m2, list, i) { assert LinkAt(m, list, i); }
  }

  /** Unlinking the element at position `k`: the link before it, if there is one, skips over it. */
  lemma UnlinkList(m: Mem, head: nat, count: nat, list: seq<nat>, bs: Blocks, o: nat, k: nat, m2: Mem, head2: nat)
    requires ListOk(m, head, count, list, bs, o) && k < |list|
    requires k == 0 ==> m2 == m && head2 == NextIn(list, k)
    requires k > 0 ==> m2 == m[list[k - 1] := Link(NextIn(list, k))] && head2 == head
    ensures ListOk(m2, head2, count - 1, list[..k] + list[k + 1..], bs - {list[k]}, o)
  {
    var next := list[..k] + list[k + 1..];
    UnlinkMembers(list, k);
    forall i | 0 <= i < |next|
      ensures LinkAt(m2, next, i)
    {
      UnlinkLink(m, list, k, m2, i);
    }
  }

  lemma UnlinkMembers(list: seq<nat>, k: nat)
    requires forall i, j :: 0 <= i < j < |list| ==> list[i] != list[j]
    requires k < |list|
    ensures var next := list[..k] + list[k + 1..];
      && (forall i, j :: 0 <= i < j < |next| ==> next[i] != next[j])
      && (forall b :: b in next <==> b in list && b != list[k])
  {
    var next := list[..k] + list[k + 1..];
    forall b | b in list && b != list[k]
      ensures b in next
    {
      var i :| 0 <= i < |list| && list[i] == b;
      assert b == next[if i < k then i else i - 1];
    }
  }

  lemma UnlinkLink(m: Mem, list: seq<nat>, k: nat, m2: Mem, i: nat)
    requires forall i, j :: 0 <= i < j < |list| ==> list[i] != list[j]
    requires forall i :: 0 <= i < |list| ==> LinkAt(m, list, i)
    requires k < |list| && i < |list| - 1
    requires k == 0 ==> m2 == m
    requires k > 0 ==> m2 == m[list[k - 1] := Link(NextIn(list, k))]
    ensures var next := list[..k] + list[k + 1..]; LinkAt(m2, next, i)
  {
    var next := list[..k] + list[k + 1..];
    var j := if i < k then i else i + 1;
    assert next[i] == list[j] && LinkAt(m, list, j);
    assert k > 0 && j != k - 1 ==> list[j] != list[k - 1];
  }

  lemma OtherListUnlink(m: Mem, head: nat, count: nat, list: seq<nat>, bs: Blocks, o: nat, b: nat, c: nat, cell: Cell)
    requires ListOk(m, head, count, list, bs, o)
    requires b in bs && bs[b] != o && c in bs && bs[c] != o
    ensures ListOk(m, head, count, list, bs - {b}, o)
    ensures ListOk(m[c := cell], head, count, list, bs - {b}, o)
  {
    LinksFramed(m, list, c, cell, m[c := cell]);
  }

  lemma {:induction false} ListsFramed(m: Mem, heads: seq<nat>, counts: seq<nat>, lists: seq<seq<nat>>, bs: Blocks,
                                       f: nat, cell: Cell, n: nat)
    requires n <= |heads| == |counts| == |lists| && ListsOk(m, heads, counts, lists, bs, n) && f !in bs
    ensures ListsOk(m[f := cell], heads, counts, lists, bs, n)
  {
    if n > 0 {
      ListsFramed(m, heads, counts, lists, bs, f, cell, n - 1);
      LinksFramed(m, lists[n - 1], f, cell, m[f := cell]);
    }
  }

  /** Unlinking from one list leaves all lists in order. */
  lemma UnlinkFromAll(m: Mem, heads: seq<nat>, counts: seq<nat>, lists: seq<seq<nat>>, bs: Blocks, o: nat, k: nat,
                      m2: Mem, head2: nat)
    requires AllListsOk(m, heads, counts, lists, bs) && o < MAX_ORDER && k < |lists[o]| && counts[o] > 0
    requires k == 0 ==> m2 == m && head2 == NextIn(lists[o], k)
    requires k > 0 ==> m2 == m[lists[o][k - 1] := Link(NextIn(lists[o], k))] && head2 == heads[o]
    ensures AllListsOk(m2, heads[o := head2], counts[o := counts[o] - 1],
                       lists[o := lists[o][..k] + lists[o][k + 1..]], bs - {lists[o][k]})
  {
    var list, heads2, counts2 := lists[o], heads[o := head2], counts[o := counts[o] - 1];
    var lists2, bs2 := lists[o := list[..k] + list[k + 1..]], bs - {list[k]};
    EachList(m, heads, counts, lists, bs, |heads|, o);
    forall q | 0 <= q < MAX_ORDER
      ensures ListOk(m2, heads2[q], counts2[q], lists2[q], bs2, q)
    {
      EachList(m, heads, counts, lists, bs, |heads|, q);
      if q == o {
        UnlinkList(m, heads[o], counts[o], list, bs, o, k, m2, head2);
      } else {
        OtherListUnlink(m, heads[q], counts[q], lists[q], bs, q, list[k], if k > 0 then list[k - 1] else list[k],
                        Link(NextIn(list, k)));
      }
    }
    JoinLists(m2, heads2, counts2, lists2, bs2, |heads|);
  }

  /** Pushing onto one list leaves all lists in order. */
  lemma PushOntoAll(m: Mem, heads: seq<nat>, counts: seq<nat>, lists: seq<seq<nat>>, bs: Blocks, o: nat, b: nat)
    requires AllListsOk(m, heads, counts, lists, bs) && o < MAX_ORDER && b !in bs
    ensures AllListsOk(m[b := Link(heads[o])], heads[o := b], counts[o := counts[o] + 1], lists[o := [b] + lists[o]],
                       bs[b := o])
  {
    var m2, heads2, counts2 := m[b := Link(heads[o])], heads[o := b], counts[o := counts[o] + 1];
    var lists2, bs2 := lists[o := [b] + lists[o]], bs[b := o];
    forall q | 0 <= q < MAX_ORDER
      ensures ListOk(m2, heads2[q], counts2[q], lists2[q], bs2, q)
    {
      EachList(m, heads, counts, lists, bs, |heads|, q);
      if q == o {
        PushList(m, heads[o], counts[o], lists[o], bs, o, b);
      } else {
        OtherListPush(m, heads[q], counts[q], lists[q], bs, q, b, Link(heads[o]), o);
      }
    }
    JoinLists(m2, heads2, counts2, lists2, bs2, |heads|);
  }

  function AlignUpPage(a: nat): nat { (a + 4095) / 4096 }
  function AlignDownPage(a: nat): nat { a / 4096 }

  predicate InRange(p: nat, lo: nat, hi: nat) { lo <= p < hi }

  function Range(lo: nat, hi: nat): set<nat> {
    set p: nat | p < hi && InRange(p, lo, hi)
  }

  lemma {:induction false} RangeSize(lo: nat, hi: nat)
    requires lo <= hi
    ensures |Range(lo, hi)| == hi - lo
  {
    if lo < hi {
      RangeSize(lo, hi - 1);
      forall p: nat ensures InRange(p, lo, hi) <==> InRange(p, lo, hi - 1) || p == hi - 1 {}
      assert Range(lo, hi) == Range(lo, hi - 1) + {hi - 1};
    } else {
      assert Range(lo, hi) == {};
    }
  }

  lemma BlockSize(b: nat, o: nat)
    ensures |BlockPages(b, o)| == Pow2(o)
  {
    assert BlockPages(b, o) == Range(b, b + Pow2(o)) by {
      forall p: nat ensures Within(p, b, o) <==> InRange(p, b, b + Pow2(o)) {}
    }
    RangeSize(b, b + Pow2(o));
  }

  predicate OrderFits(p: nat, remaining: nat, o: nat) {
    Pow2(o) <= remaining && Aligned(p, o)
  }

  /** The largest order up to `o` whose block fits in `remaining` pages and is aligned at `p`, or 0. */
  ghost function LargestOrder(p: nat, remaining: nat, o: nat): (k: nat)
    ensures k <= o && (remaining > 0 ==> OrderFits(p, remaining, k))
    ensures k < o ==> !OrderFits(p, remaining, k + 1)
  {
    if o == 0 || OrderFits(p, remaining, o) then o else LargestOrder(p, remaining, o - 1)
  }

  method MaxOrderFor(p: nat, remaining: nat) returns (o: nat)
    ensures o == LargestOrder(p, remaining, MAX_ORDER - 1)
  {
    o := MAX_ORDER - 1;
    while o > 0
      invariant o < MAX_ORDER && LargestOrder(p, remaining, o) == LargestOrder(p, remaining, MAX_ORDER - 1)
    {
      MaskTest(p, o);
      if Pow2(o) <= remaining && And(p, Pow2(o) - 1) == 0 { return; }
      o := o - 1;
    }
  }

  /** The free blocks after registering the pages from `p` to `hi`, largest block first at each page. */
  ghost function Fill(bs: Blocks, p: nat, hi: nat): Blocks
    decreases hi - p
  {
    if p >= hi then bs
    else var o := LargestOrder(p, hi - p, MAX_ORDER - 1); Fill(bs[p := o], p + Pow2(o), hi)
  }

  predicate Beside(b: nat, o: nat, lo: nat, hi: nat) {
    b + Pow2(o) <= lo || hi <= b
  }

  ghost predicate Outside(bs: Blocks, lo: nat, hi: nat) {
    forall b {:trigger Beside(b, bs[b], lo, hi)} :: b in bs ==> Beside(b, bs[b], lo, hi)
  }

  lemma FillStep(bs: Blocks, p: nat, hi: nat)
    requires Wf(bs) && Outside(bs, p, hi) && 0 < p < hi
    ensures var o := LargestOrder(p, hi - p, MAX_ORDER - 1); var next := bs[p := o];
      && IsBlock(p, o) && ApartFromAll(bs, p, o) && p + Pow2(o) <= hi
      && Wf(next) && Outside(next, p + Pow2(o), hi) && Pages(next) == Pages(bs) + BlockPages(p, o)
  {
    var o := LargestOrder(p, hi - p, MAX_ORDER - 1);
    var next := bs[p := o];
    forall c | c in bs ensures Apart(p, o, c, bs[c]) { assert Beside(c, bs[c], p, hi); }
    forall c | c in next
      ensures Beside(c, next[c], p + Pow2(o), hi)
    {
      assert c != p ==> Beside(c, bs[c], p, hi);
    }
    AddBlock(bs, p, o);
  }

  lemma {:induction false} FillPages(bs: Blocks, p: nat, hi: nat)
    requires Wf(bs) && Outside(bs, p, hi) && 0 < p
    ensures Wf(Fill(bs, p, hi)) && Pages(Fill(bs, p, hi)) == Pages(bs) + Range(p, hi)
    decreases hi - p
  {
    if p < hi {
      FillStep(bs, p, hi);
      var o := LargestOrder(p, hi - p, MAX_ORDER - 1);
      FillPages(bs[p := o], p + Pow2(o), hi);
      RangeSplits(p, o, hi);
    }
  }

  lemma RangeSplits(p: nat, o: nat, hi: nat)
    requires p + Pow2(o) <= hi
    ensures Range(p, hi) == BlockPages(p, o) + Range(p + Pow2(o), hi)
  {
    forall q: nat ensures InRange(q, p, hi) <==> Within(q, p, o) || InRange(q, p + Pow2(o), hi) {}
  }

  lemma OutsideMeansApart(bs: Blocks, lo: nat, hi: nat)
    requires lo < hi && Range(lo, hi) !! Pages(bs)
    ensures Outside(bs, lo, hi)
  {
    forall b | b in bs
      ensures Beside(b, bs[b], lo, hi)
    {
      var q := if lo <= b then b else lo;
      assert Within(q, b, bs[b]) && InRange(q, lo, hi) ==> q in Pages(bs) && q in Range(lo, hi);
    }
  }

  // ---------- When registering pages keeps the free blocks coalesced ----------

  /** The block lies between `p` and `hi`, and there it could not have been one order larger. */
  predicate Greedy(b: nat, o: nat, p: nat, hi: nat) {
    && p <= b && b + Pow2(o) <= hi
    && (o < MAX_ORDER - 1 ==> b + Pow2(o + 1) > hi || !Aligned(b, o + 1))
  }

  /** Registering pages keeps every block there was, and what it adds is greedy. */
  lemma {:induction false} FillKinds(bs: Blocks, p: nat, hi: nat)
    requires Wf(bs) && Outside(bs, p, hi) && 0 < p
    ensures var r := Fill(bs, p, hi);
      && (forall b :: b in bs ==> b in r && r[b] == bs[b])
      && (forall b :: b in r ==> (b in bs && bs[b] == r[b]) || Greedy(b, r[b], p, hi))
    decreases hi - p
  {
    if p < hi {
      FillStep(bs, p, hi);
      var o := LargestOrder(p, hi - p, MAX_ORDER - 1);
      var next := bs[p := o];
      HeadElsewhere(bs, p, o, p);
      FillKinds(next, p + Pow2(o), hi);
      var r := Fill(next, p + Pow2(o), hi);
      forall b | b in bs ensures b in r && r[b] == bs[b] { assert next[b] == bs[b]; }
      assert Greedy(p, o, p, hi);
      forall b | b in r ensures (b in bs && bs[b] == r[b]) || Greedy(b, r[b], p, hi) {
        assert Greedy(b, r[b], p + Pow2(o), hi) ==> Greedy(b, r[b], p, hi);
      }
    }
  }

  /** The aligned block of a listed order lies wholly in `pages`. */
  ghost predicate WholeIn(b: nat, o: nat, pages: set<nat>) {
    o < MAX_ORDER && Aligned(b, o) && BlockPages(b, o) <= pages
  }

  /** No aligned block of a listed order that lies in the two sets together takes pages from both. */
  ghost predicate Unmixed(s: set<nat>, t: set<nat>) {
    forall b: nat, o: nat :: WholeIn(b, o, s + t) ==> BlockPages(b, o) <= s || BlockPages(b, o) <= t
  }

  predicate Straddles(b: nat, o: nat, x: nat) {
    b < x < b + Pow2(o)
  }

  /** For a range of pages, such blocks are those that straddle one of its ends. */
  lemma MixedStraddles(s: set<nat>, lo: nat, hi: nat)
    requires lo < hi && s !! Range(lo, hi)
    ensures Unmixed(s, Range(lo, hi)) <==>
      forall b: nat, o: nat :: WholeIn(b, o, s + Range(lo, hi)) ==> !Straddles(b, o, lo) && !Straddles(b, o, hi)
  {
    forall b: nat, o: nat | WholeIn(b, o, s + Range(lo, hi))
      ensures BlockPages(b, o) <= s || BlockPages(b, o) <= Range(lo, hi) <==>
        !Straddles(b, o, lo) && !Straddles(b, o, hi)
    {
      StraddlingBlock(s, b, o, lo, hi);
    }
  }

  lemma StraddlingBlock(s: set<nat>, b: nat, o: nat, lo: nat, hi: nat)
    requires lo < hi && s !! Range(lo, hi) && BlockPages(b, o) <= s + Range(lo, hi)
    ensures BlockPages(b, o) <= s || BlockPages(b, o) <= Range(lo, hi) <==> !Straddles(b, o, lo) && !Straddles(b, o, hi)
  {
    forall p: nat ensures p in BlockPages(b, o) <==> Within(p, b, o) {}
    forall p: nat ensures p in Range(lo, hi) <==> InRange(p, lo, hi) {}
    if Straddles(b, o, lo) {
      assert lo in BlockPages(b, o) && lo - 1 in BlockPages(b, o) && InRange(lo, lo, hi) && !InRange(lo - 1, lo, hi);
    } else if Straddles(b, o, hi) {
      assert hi in BlockPages(b, o) && hi - 1 in BlockPages(b, o) && InRange(hi - 1, lo, hi) && !InRange(hi, lo, hi);
    }
  }

  /** Two buddies that are both greedy in one range would have been one block. */
  lemma GreedyBuddies(b: nat, c: nat, o: nat, p: nat, hi: nat)
    requires Aligned(b, o) && c == BuddyOf(b, o) && o < MAX_ORDER - 1
    ensures !(Greedy(b, o, p, hi) && Greedy(c, o, p, hi))
  {
    BuddyFacts(b, o);
    BuddyFacts(c, o);
  }

  /** A pair of buddies of which one was there before and one is new makes a mixed block. */
  lemma BuddiesMix(bs: Blocks, lo: nat, hi: nat, b: nat, c: nat, o: nat)
    requires b in bs && bs[b] == o && Aligned(b, o) && c == BuddyOf(b, o) && o < MAX_ORDER - 1
    requires Greedy(c, o, lo, hi) && Pages(bs) !! Range(lo, hi)
    ensures !Unmixed(Pages(bs), Range(lo, hi))
  {
    BuddyFacts(b, o);
    BuddyUnion(b, o);
    WholeBlockFree(bs, b);
    var m := Min(b, c);
    assert b in BlockPages(m, o + 1) && c in BlockPages(m, o + 1) by {
      assert Within(b, b, o) && Within(c, c, o);
    }
    assert c in Range(lo, hi) by { assert InRange(c, lo, hi); }
    HeadInPages(bs, b);
    assert BlockPages(c, o) <= Range(lo, hi) by {
      forall q: nat | q in BlockPages(c, o) ensures q in Range(lo, hi) { assert InRange(q, lo, hi); }
    }
    assert WholeIn(m, o + 1, Pages(bs) + Range(lo, hi));
  }

  /** In a coalesced state a mixed block would lie in one free block, which is either old or new. */
  lemma CoalescedUnmixed(bs: Blocks, lo: nat, hi: nat, b: nat, o: nat)
    requires Wf(bs) && Outside(bs, lo, hi) && 0 < lo && Coalesced(Fill(bs, lo, hi))
    requires WholeIn(b, o, Pages(bs) + Range(lo, hi))
    ensures BlockPages(b, o) <= Pages(bs) || BlockPages(b, o) <= Range(lo, hi)
  {
    var r := Fill(bs, lo, hi);
    FillPages(bs, lo, hi);
    FillKinds(bs, lo, hi);
    var c := Contained(r, b, o);
    assert BlockPages(b, o) <= BlockPages(c, r[c]);
    if c in bs && bs[c] == r[c] {
      WholeBlockFree(bs, c);
    } else {
      assert Greedy(c, r[c], lo, hi);
      forall q: nat | q in BlockPages(b, o) ensures q in Range(lo, hi) { assert InRange(q, lo, hi); }
    }
  }

  /**
   * Registering the pages from `lo` to `hi` leaves the blocks coalesced if and only if they were and no aligned block
   * of a listed order that is wholly free afterwards takes pages both from the range and from outside.
   */
  lemma FillCoalesced(bs: Blocks, lo: nat, hi: nat)
    requires Wf(bs) && Outside(bs, lo, hi) && Pages(bs) !! Range(lo, hi) && 0 < lo
    ensures Coalesced(Fill(bs, lo, hi)) <==> Coalesced(bs) && Unmixed(Pages(bs), Range(lo, hi))
  {
    var r := Fill(bs, lo, hi);
    FillPages(bs, lo, hi);
    FillKinds(bs, lo, hi);
    if Coalesced(r) {
      forall b | b in bs && bs[b] < MAX_ORDER - 1 ensures !HasFreeBuddy(bs, b) { assert !HasFreeBuddy(r, b); }
      forall b: nat, o: nat | WholeIn(b, o, Pages(bs) + Range(lo, hi))
        ensures BlockPages(b, o) <= Pages(bs) || BlockPages(b, o) <= Range(lo, hi)
      {
        CoalescedUnmixed(bs, lo, hi, b, o);
      }
    }
    if Coalesced(bs) && Unmixed(Pages(bs), Range(lo, hi)) {
      forall b | b in r && r[b] < MAX_ORDER - 1 ensures !HasFreeBuddy(r, b) {
        FilledAlone(bs, lo, hi, b);
      }
    }
  }

  lemma FilledAlone(bs: Blocks, lo: nat, hi: nat, b: nat)
    requires Wf(bs) && Outside(bs, lo, hi) && Pages(bs) !! Range(lo, hi) && 0 < lo
    requires Coalesced(bs) && Unmixed(Pages(bs), Range(lo, hi))
    requires var r := Fill(bs, lo, hi); b in r && r[b] < MAX_ORDER - 1
    ensures !HasFreeBuddy(Fill(bs, lo, hi), b)
  {
    var r := Fill(bs, lo, hi);
    FillPages(bs, lo, hi);
    FillKinds(bs, lo, hi);
    var o, c := r[b], BuddyOf(b, r[b]);
    BuddyFacts(b, o);
    if HasFreeBuddy(r, b) {
      if b in bs && bs[b] == o {
        assert !HasFreeBuddy(bs, b);
        BuddiesMix(bs, lo, hi, b, c, o);
      } else if c in bs && bs[c] == o {
        BuddiesMix(bs, lo, hi, c, b, o);
      } else {
        GreedyBuddies(b, c, o, lo, hi);
      }
    }
  }

  /** Two adjacent one-page regions stay two blocks, although together they are one. */
  lemma AdjacentRegions()
    ensures Fill(Fill(map[], 2, 3), 3, 4) == map[2 := 0, 3 := 0] && !Coalesced(Fill(Fill(map[], 2, 3), 3, 4))
    ensures Fill(map[], 2, 4) == map[2 := 1] && Coalesced(Fill(map[], 2, 4))
  {
    SmallBlocks();
    var r := map[2 := 0, 3 := 0];
    assert HasFreeBuddy(r, 2);
    var w: Blocks := map[2 := 1];
    BuddyFacts(2, 1);
    assert !HasFreeBuddy(w, 2);
  }

  /** The largest orders at pages 2 and 3, and the buddy of page 2. */
  lemma SmallBlocks()
    ensures LargestOrder(2, 1, MAX_ORDER - 1) == 0 && LargestOrder(3, 1, MAX_ORDER - 1) == 0
    ensures LargestOrder(2, 2, MAX_ORDER - 1) == 1
    ensures Pow2(0) == 1 && Pow2(1) == 2 && BuddyOf(2, 0) == 3
  {
    FlipLowest(2);
    OrderAtMost(2, 1, 0, MAX_ORDER - 1);
    OrderAtMost(3, 1, 0, MAX_ORDER - 1);
    OrderAtMost(2, 2, 1, MAX_ORDER - 1);
    assert OrderFits(2, 2, 1);
  }

  /** Fewer than `2^(k+1)` pages leave room for order `k` at most. */
  lemma {:induction false} OrderAtMost(p: nat, remaining: nat, k: nat, o: nat)
    requires 0 < remaining < Pow2(k + 1) && k <= o && OrderFits(p, remaining, k)
    ensures LargestOrder(p, remaining, o) == k
  {
    if o > k {
      Pow2Monotone(k + 1, o);
      OrderAtMost(p, remaining, k, o - 1);
    }
  }

  /** Merging a block with its free buddy. */
  lemma MergeFacts(bs: Blocks, b: nat, o: nat)
    requires Wf(bs) && IsBlock(b, o) && ApartFromAll(bs, b, o) && o < MAX_ORDER - 1
    requires BuddyOf(b, o) in bs && bs[BuddyOf(b, o)] == o
    ensures var c := BuddyOf(b, o); var m := Min(b, c);
      && IsBlock(m, o + 1) && ApartFromAll(bs - {c}, m, o + 1)
      && Pages(bs - {c}) <= Pages(bs)
      && BlockPages(m, o + 1) <= Pages(bs) + BlockPages(b, o)
  {
    BuddyFacts(b, o);
    BuddyUnion(b, o);
    var c := BuddyOf(b, o);
    PagesRemove(bs, c);
    WholeBlockFree(bs, c);
    var rest := bs - {c};
    forall d | d in rest
      ensures Apart(Min(b, c), o + 1, d, rest[d])
    {
      assert Apart(b, o, d, bs[d]);
      assert Apart(c, bs[c], d, bs[d]);
    }
  }

  lemma SinglePage(f: nat)
    ensures BlockPages(f, 0) == {f}
  {
    assert Pow2(0) == 1;
  }

  class Buddy {
    const mem: Memory
    var freeHeads: seq<nat>
    var freeCounts: seq<nat>
    ghost var lists: seq<seq<nat>>
    ghost var blocks: Blocks
    ghost var free: set<nat>

    ghost predicate Valid()
      reads this, mem
    {
      AllListsOk(mem.cells, freeHeads, freeCounts, lists, blocks) && Wf(blocks) && free == Pages(blocks)
    }

    constructor (mem: Memory)
      ensures this.mem == mem && Valid() && blocks == map[]
    {
      this.mem := mem;
      freeHeads := seq(MAX_ORDER, _ => 0);
      freeCounts := seq(MAX_ORDER, _ => 0);
      lists := seq(MAX_ORDER, _ => []);
      blocks := map[];
      free := {};
      new;
      JoinLists(mem.cells, freeHeads, freeCounts, lists, blocks, |freeHeads|);
    }

    /** Reads the link word of a free block. */
    method ReadNext(p: nat) returns (next: nat)
      ensures At(mem.cells, p).Link? ==> next == At(mem.cells, p).next
    {
      var c := At(mem.cells, p);
      next := if c.Link? then c.next else 0;
    }

    method PushBlock(p: nat, order: nat)
      requires Valid() && IsBlock(p, order) && ApartFromAll(blocks, p, order)
      modifies this, mem
      ensures Valid() && blocks == old(blocks)[p := order] && p !in old(blocks)
      ensures SameExcept(old(mem.cells), mem.cells, {p})
    {
      AddBlock(blocks, p, order);
      PushOntoAll(mem.cells, freeHeads, freeCounts, lists, blocks, order, p);
      mem.cells := mem.cells[p := Link(freeHeads[order])];
      lists := lists[order := [p] + lists[order]];
      blocks := blocks[p := order];
      free := Pages(blocks);
      freeHeads := freeHeads[order := p];
      freeCounts := freeCounts[order := freeCounts[order] + 1];
    }

    method PopBlock(order: nat) returns (p: nat)
      requires Valid() && order < MAX_ORDER && freeCounts[order] > 0
      modifies this
      ensures Valid() && p in old(blocks) && old(blocks)[p] == order && blocks == old(blocks) - {p}
    {
      EachList(mem.cells, freeHeads, freeCounts, lists, blocks, |freeHeads|, order);
      p := freeHeads[order];
      assert LinkAt(mem.cells, lists[order], 0);
      var next := ReadNext(p);
      UnlinkFromAll(mem.cells, freeHeads, freeCounts, lists, blocks, order, 0, mem.cells, next);
      PagesRemove(blocks, p);
      lists := lists[order := lists[order][..0] + lists[order][1..]];
      blocks := blocks - {p};
      free := Pages(blocks);
      freeHeads := freeHeads[order := next];
      freeCounts := freeCounts[order := freeCounts[order] - 1];
    }

    /** Takes the element at position `i` out of its list: `prev` is the element before it and `next` the one after. */
    method Unlink(order: nat, prev: Option<nat>, next: nat, ghost i: nat)
      requires Valid() && order < MAX_ORDER && i < |lists[order]|
      requires prev == (if i == 0 then None else Some(lists[order][i - 1]))
      requires next == NextIn(lists[order], i)
      modifies this, mem
      ensures Valid() && blocks == old(blocks) - {old(lists[order][i])}
      ensures SameExcept(old(mem.cells), mem.cells, Pages(old(blocks)))
    {
      ghost var list := lists[order];
      EachList(mem.cells, freeHeads, freeCounts, lists, blocks, |freeHeads|, order);
      PagesRemove(blocks, list[i]);
      match prev {
        case Some(p) =>
          HeadInPages(blocks, p);
          UnlinkFromAll(mem.cells, freeHeads, freeCounts, lists, blocks, order, i, mem.cells[p := Link(next)],
                        freeHeads[order]);
          assert freeHeads[order := freeHeads[order]] == freeHeads;
          mem.cells := mem.cells[p := Link(next)];
        case None =>
          UnlinkFromAll(mem.cells, freeHeads, freeCounts, lists, blocks, order, i, mem.cells, next);
          freeHeads := freeHeads[order := next];
      }
      freeCounts := freeCounts[order := freeCounts[order] - 1];
      lists := lists[order := list[..i] + list[i + 1..]];
      blocks := blocks - {list[i]};
      free := Pages(blocks);
    }

    /** Unlinks `target` from the list of its order, walking the list from its head. */
    method RemoveFromList(target: nat, order: nat) returns (found: bool)
      requires Valid() && order < MAX_ORDER
      modifies this, mem
      ensures Valid()
      ensures found <==> target in old(blocks) && old(blocks)[target] == order
      ensures blocks == if found then old(blocks) - {target} else old(blocks)
      ensures SameExcept(old(mem.cells), mem.cells, Pages(old(blocks)))
      ensures !found ==> mem.cells == old(mem.cells)
    {
      ghost var list := lists[order];
      EachList(mem.cells, freeHeads, freeCounts, lists, blocks, |freeHeads|, order);
      var cur := freeHeads[order];
      var prev: Option<nat> := None;
      ghost var i: nat := 0;
      while cur != 0
        invariant i <= |list| && cur == (if i < |list| then list[i] else 0)
        invariant prev == (if i == 0 then None else Some(list[i - 1]))
        invariant target !in list[..i]
        invariant unchanged(this) && unchanged(mem)
        invariant cur == 0 ==> i == |list|
        decreases |list| - i
      {
        assert LinkAt(mem.cells, list, i);
        var next := ReadNext(cur);
        if cur == target {
          Unlink(order, prev, next, i);
          return true;
        }
        prev := Some(cur);
        cur := next;
        i := i + 1;
      }
      return false;
    }

    /** The smallest order from `order` up whose list is not empty. */
    method FindOrder(order: nat) returns (found: nat)
      requires Valid()
      ensures order <= found
      ensures found < MAX_ORDER ==> freeCounts[found] > 0
      ensures forall b :: b in blocks && order <= blocks[b] ==> found <= blocks[b]
    {
      found := order;
      while found < MAX_ORDER && freeCounts[found] == 0
        invariant order <= found
        invariant forall b :: b in blocks && order <= blocks[b] ==> found <= blocks[b]
        decreases MAX_ORDER - found
      {
        EachList(mem.cells, freeHeads, freeCounts, lists, blocks, |freeHeads|, found);
        found := found + 1;
      }
    }

    method Alloc(order: nat) returns (r: Option<nat>)
      requires Valid()
      modifies this, mem
      ensures Valid()
      ensures r.None? ==> blocks == old(blocks) && mem.cells == old(mem.cells)
      ensures r.None? <==> forall b :: b in old(blocks) ==> old(blocks)[b] < order
      ensures r.Some? ==> AllocStep(old(blocks), order, r.value, blocks)
      ensures SameExcept(old(mem.cells), mem.cells, Pages(old(blocks)))
    {
      var found := FindOrder(order);
      if found >= MAX_ORDER {
        return None;
      }
      ghost var start := blocks;
      var p := PopBlock(found);
      PagesRemove(start, p);
      WholeBlockFree(start, p);
      SplitTo(p, found, order, Pages(start));
      return Some(p);
    }

    /** Halves block `p` from order `found` down to `order`, keeping the left half each time. */
    method SplitTo(p: nat, found: nat, order: nat, ghost touched: set<nat>)
      requires Valid() && order <= found
      requires IsBlock(p, found) && ApartFromAll(blocks, p, found) && BlockPages(p, found) <= touched
      modifies this, mem
      ensures Valid() && blocks == SplitDown(old(blocks), p, found, order)
      ensures SameExcept(old(mem.cells), mem.cells, touched)
    {
      var current: nat := found;
      while current > order
        invariant order <= current <= found && Valid()
        invariant IsBlock(p, current) && ApartFromAll(blocks, p, current) && BlockPages(p, current) <= touched
        invariant SplitDown(blocks, p, current, order) == SplitDown(old(blocks), p, found, order)
        invariant SameExcept(old(mem.cells), mem.cells, touched)
      {
        HalveBlock(blocks, p, current);
        BlockMonotone(p, current - 1, current);
        current := current - 1;
        var buddy := p + Pow2(current);
        assert Within(buddy, p, current + 1) && buddy in BlockPages(p, current + 1);
        PushBlock(buddy, current);
      }
    }

    method Free(p: nat, order: nat)
      requires Valid() && IsBlock(p, order) && BlockPages(p, order) !! Pages(blocks)
      modifies this, mem
      ensures Valid()
      ensures blocks == Coalesce(old(blocks), p, order)
      ensures SameExcept(old(mem.cells), mem.cells, Pages(old(blocks)) + BlockPages(p, order))
    {
      var cur: nat, k: nat := p, order;
      ghost var all := Pages(blocks) + BlockPages(p, order);
      NotFreeMeansApart(blocks, p, order);
      var going := true;
      while going && k < MAX_ORDER - 1
        invariant Valid() && IsBlock(cur, k) && ApartFromAll(blocks, cur, k)
        invariant Pages(blocks) <= all && BlockPages(cur, k) <= all
        invariant Coalesce(blocks, cur, k) == Coalesce(old(blocks), p, order)
        invariant !going ==> !(BuddyOf(cur, k) in blocks && blocks[BuddyOf(cur, k)] == k)
        invariant SameExcept(old(mem.cells), mem.cells, all)
        decreases going, MAX_ORDER - k
      {
        ghost var before := blocks;
        var buddy := BuddyOf(cur, k);
        going := RemoveFromList(buddy, k);
        if going {
          MergeFacts(before, cur, k);
          cur := Min(cur, buddy);
          k := k + 1;
        }
      }
      assert Within(cur, cur, k) && cur in BlockPages(cur, k);
      PushBlock(cur, k);
    }

    /** A write by anyone to a frame that is not free leaves the free lists in order. */
    lemma StoreSafe(f: nat, cell: Cell)
      requires Valid() && f !in free
      ensures AllListsOk(mem.cells[f := cell], freeHeads, freeCounts, lists, blocks)
    {
      forall b | b in blocks ensures b != f { HeadInPages(blocks, b); }
      ListsFramed(mem.cells, freeHeads, freeCounts, lists, blocks, f, cell, |freeHeads|);
    }

    /** Frame 0 ends the free lists, so it is never free. */
    lemma ZeroNotFree()
      requires Valid()
      ensures 0 !in free
    {
    }

    /** Allocates a single page: it fails exactly when no page is free. */
    method AllocPage() returns (r: Option<nat>)
      requires Valid()
      modifies this, mem
      ensures Valid()
      ensures r.None? <==> old(free) == {}
      ensures r.None? ==> free == old(free) && mem.cells == old(mem.cells)
      ensures r.Some? ==> r.value > 0 && r.value in old(free) && free == old(free) - {r.value}
      ensures SameExcept(old(mem.cells), mem.cells, old(free))
      ensures old(Coalesced(blocks)) ==> Coalesced(blocks)
    {
      ghost var before := blocks;
      r := Alloc(0);
      if r.Some? {
        AllocStepSound(before, 0, r.value, blocks);
        SinglePage(r.value);
      } else {
        assert forall b :: b !in before;
        assert before == map[];
      }
    }

    /** Returns a single page. */
    method FreePage(f: nat)
      requires Valid() && f > 0 && f !in free
      modifies this, mem
      ensures Valid() && free == old(free) + {f}
      ensures SameExcept(old(mem.cells), mem.cells, old(free) + {f})
      ensures old(Coalesced(blocks)) ==> Coalesced(blocks)
    {
      SinglePage(f);
      CoalesceSound(blocks, f, 0);
      Free(f, 0);
    }

    /** Allocates a block, seen as pages that leave the free set. */
    method AllocBlock(order: nat) returns (r: Option<nat>)
      requires Valid()
      modifies this, mem
      ensures Valid()
      ensures r.None? ==> free == old(free) && mem.cells == old(mem.cells)
      ensures r.None? <==> forall b :: b in old(blocks) ==> old(blocks)[b] < order
      ensures r.Some? ==> IsBlock(r.value, order) && BlockPages(r.value, order) <= old(free)
      ensures r.Some? ==> free == old(free) - BlockPages(r.value, order)
    {
      ghost var before := blocks;
      r := Alloc(order);
      if r.Some? { AllocStepSound(before, order, r.value, blocks); }
    }

    /** Returns a block of pages none of which is free. */
    method FreeBlock(p: nat, order: nat)
      requires Valid() && IsBlock(p, order) && BlockPages(p, order) !! free
      modifies this, mem
      ensures Valid() && free == old(free) + BlockPages(p, order)
    {
      NotFreeMeansApart(blocks, p, order);
      CoalesceSound(blocks, p, order);
      Free(p, order);
    }

    /** Registers the whole pages between `base` and `base + size`, as the largest aligned blocks that fit. */
    method AddRegion(base: nat, size: nat)
      requires Valid() && base > 0
      requires Range(AlignUpPage(base), AlignDownPage(base + size)) !! free
      modifies this, mem
      ensures Valid()
      ensures free == old(free) + Range(AlignUpPage(base), AlignDownPage(base + size))
      ensures Coalesced(blocks) <==>
        old(Coalesced(blocks)) && Unmixed(old(free), Range(AlignUpPage(base), AlignDownPage(base + size)))
      ensures SameExcept(old(mem.cells), mem.cells, Range(AlignUpPage(base), AlignDownPage(base + size)))
    {
      var lo, hi := AlignUpPage(base), AlignDownPage(base + size);
      if lo >= hi { return; }
      OutsideMeansApart(blocks, lo, hi);
      FillPages(blocks, lo, hi);
      FillCoalesced(blocks, lo, hi);
      AddPages(lo, hi);
      var ok := CheckIntegrity();
    }

    /** The loop of `AddRegion`, over the page numbers from `lo` to `hi`. */
    method AddPages(lo: nat, hi: nat)
      requires Valid() && 0 < lo <= hi && Outside(blocks, lo, hi)
      modifies this, mem
      ensures Valid()
      ensures blocks == Fill(old(blocks), lo, hi)
      ensures SameExcept(old(mem.cells), mem.cells, Range(lo, hi))
    {
      var p: nat := lo;
      while p + 1 <= hi
        invariant lo <= p <= hi && Valid() && Outside(blocks, p, hi)
        invariant Fill(blocks, p, hi) == Fill(old(blocks), lo, hi)
        invariant SameExcept(old(mem.cells), mem.cells, Range(lo, hi))
        decreases hi - p
      {
        assert InRange(p, lo, hi);
        var order := AddNext(p, hi);
        p := p + Pow2(order);
      }
    }

    /** Registers the largest aligned block that starts at `p` and ends by `hi`. */
    method AddNext(p: nat, hi: nat) returns (order: nat)
      requires Valid() && 0 < p < hi && Outside(blocks, p, hi)
      modifies this, mem
      ensures Valid() && p + Pow2(order) <= hi && Outside(blocks, p + Pow2(order), hi)
      ensures Fill(blocks, p + Pow2(order), hi) == Fill(old(blocks), p, hi)
      ensures SameExcept(old(mem.cells), mem.cells, {p})
    {
      order := MaxOrderFor(p, hi - p);
      FillStep(blocks, p, hi);
      PushBlock(p, order);
    }

    /** The walk that the debug build makes: true unless it would have panicked. */
    method CheckIntegrity() returns (ok: bool)
      requires Valid()
      ensures ok
    {
      for o := 0 to MAX_ORDER {
        ghost var list := lists[o];
        EachList(mem.cells, freeHeads, freeCounts, lists, blocks, |freeHeads|, o);
        var p := freeHeads[o];
        var seen: nat := 0;
        var limit := freeCounts[o] + 1;
        while p != 0
          invariant seen <= |list| && p == (if seen < |list| then list[seen] else 0)
          invariant p == 0 ==> seen == |list|
          decreases |list| - seen
        {
          assert LinkAt(mem.cells, list, seen);
          seen := seen + 1;
          if seen > limit { return false; }
          p := ReadNext(p);
        }
        if seen != freeCounts[o] { return false; }
      }
      return true;
    }
  }
}
