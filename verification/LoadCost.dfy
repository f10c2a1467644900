/** How many free pages it takes to give frames to a set of pages, counted before it begins. */
module LoadCost {
  import opened PageTable
  import opened PageMaps
  import opened ForkCost

  /** The tables on the way to the pages that are not there yet. */
  ghost function Wanting(tabs: Tabs, ps: set<nat>): set<Path> {
    set q | q in WaysTo(ps) && q !in tabs
  }

  /** A frame for each page, and every table on the way to it that is not there yet. */
  ghost function Cost(tabs: Tabs, ps: set<nat>): nat {
    |ps| + |Wanting(tabs, ps)|
  }

  /** `next` has the tables of `tabs` and those on the way to the pages. */
  ghost predicate HasWays(tabs: Tabs, ps: set<nat>, next: Tabs) {
    forall q {:trigger q in next} :: q in next <==> q in tabs || q in WaysTo(ps)
  }

  lemma CostGrows(tabs: Tabs, ps: set<nat>, qs: set<nat>)
    requires ps <= qs
    ensures Cost(tabs, ps) + |qs - ps| <= Cost(tabs, qs)
  {
    assert Wanting(tabs, ps) <= Wanting(tabs, qs);
    SubsetSize(Wanting(tabs, ps), Wanting(tabs, qs));
    assert qs == ps + (qs - ps);
  }

  /** What is bought in two parts costs as much as at once. */
  lemma CostAdds(tabs: Tabs, ps: set<nat>, mid: Tabs, qs: set<nat>)
    requires HasWays(tabs, ps, mid) && ps !! qs
    ensures Cost(tabs, ps + qs) == Cost(tabs, ps) + Cost(mid, qs)
  {
    var a, b := Wanting(tabs, ps), Wanting(mid, qs);
    forall q ensures q in Wanting(tabs, ps + qs) <==> q in a + b {
      assert q in WaysTo(ps + qs) <==> q in WaysTo(ps) || q in WaysTo(qs);
    }
    assert Wanting(tabs, ps + qs) == a + b && a !! b;
  }

  lemma CostOfPage(tabs: Tabs, k: nat)
    ensures Cost(tabs, {k}) == 1 + Lacking(tabs, k)
  {
    var there := set q | q in Way(k) && q in tabs;
    ForkCost.WayPaid(tabs, there, k);
    assert WaysTo({k}) == Way(k);
    assert there + Way(k) == there + Wanting(tabs, {k});
  }

  // ---------- Spending ----------

  ghost predicate IsCost(tabs: Tabs, ps: set<nat>, c: nat) {
    c == Cost(tabs, ps)
  }

  /**
   * Of `free` pages, `left` remain after the pages `ps` were given frames, and `next` has the tables for them. It is
   * said so that proofs which only pass it on need not look into it.
   */
  ghost predicate Spent(tabs: Tabs, free: nat, ps: set<nat>, next: Tabs, left: nat) {
    forall c {:trigger IsCost(tabs, ps, c)} :: IsCost(tabs, ps, c) ==> left + c == free && HasWays(tabs, ps, next)
  }

  lemma SpentIs(tabs: Tabs, free: nat, ps: set<nat>, next: Tabs, left: nat)
    ensures Spent(tabs, free, ps, next, left) <==> left + Cost(tabs, ps) == free && HasWays(tabs, ps, next)
  {
    assert IsCost(tabs, ps, Cost(tabs, ps));
  }

  lemma NothingSpent(tabs: Tabs, free: nat)
    ensures Spent(tabs, free, {}, tabs, free)
  {
    assert WaysTo({}) == {};
    SpentIs(tabs, free, {}, tabs, free);
  }

  lemma SpentThen(tabs: Tabs, free: nat, ps: set<nat>, mid: Tabs, left: nat, qs: set<nat>, next: Tabs, rest: nat,
                  all: set<nat>)
    requires Spent(tabs, free, ps, mid, left) && Spent(mid, left, qs, next, rest) && ps !! qs && all == ps + qs
    ensures Spent(tabs, free, all, next, rest)
  {
    SpentIs(tabs, free, ps, mid, left);
    SpentIs(mid, left, qs, next, rest);
    CostAdds(tabs, ps, mid, qs);
    forall q ensures q in next <==> q in tabs || q in WaysTo(all) {
      assert q in WaysTo(ps + qs) <==> q in WaysTo(ps) || q in WaysTo(qs);
      assert q in mid <==> q in tabs || q in WaysTo(ps);
    }
    SpentIs(tabs, free, all, next, rest);
  }

  /** One page was given a frame. */
  lemma PageSpent(tabs: Tabs, free: nat, k: nat, next: Tabs, left: nat)
    requires WayAdded(tabs, next, k) && left + 1 + Lacking(tabs, k) == free
    ensures Spent(tabs, free, {k}, next, left)
  {
    CostOfPage(tabs, k);
    assert WaysTo({k}) == Way(k);
    SpentIs(tabs, free, {k}, next, left);
  }

  // ---------- Running out ----------

  /** The pages `ps` use up all that is free. */
  ghost predicate UsesUp(tabs: Tabs, free: nat, ps: set<nat>) {
    forall c {:trigger IsCost(tabs, ps, c)} :: IsCost(tabs, ps, c) ==> c == free
  }

  /** The pages `ps` leave something, which is too little for page `k` as well. */
  ghost predicate FallsShort(tabs: Tabs, free: nat, ps: set<nat>, k: nat) {
    forall c: nat, d: nat {:trigger IsCost(tabs, ps, c), IsCost(tabs, ps + {k}, d)} ::
      IsCost(tabs, ps, c) && IsCost(tabs, ps + {k}, d) ==> c < free < d
  }

  lemma UsesUpIs(tabs: Tabs, free: nat, ps: set<nat>)
    ensures UsesUp(tabs, free, ps) <==> Cost(tabs, ps) == free
  {
    assert IsCost(tabs, ps, Cost(tabs, ps));
  }

  lemma FallsShortIs(tabs: Tabs, free: nat, ps: set<nat>, k: nat)
    ensures FallsShort(tabs, free, ps, k) <==> Cost(tabs, ps) < free < Cost(tabs, ps + {k})
  {
    assert IsCost(tabs, ps, Cost(tabs, ps)) && IsCost(tabs, ps + {k}, Cost(tabs, ps + {k}));
  }

  /** What it means that no page, or too few pages, are left for the next page. */
  lemma OutOfPages(tabs: Tabs, free: nat, ps: set<nat>, mid: Tabs, left: nat, k: nat)
    requires Spent(tabs, free, ps, mid, left) && k !in ps
    ensures left == 0 ==> UsesUp(tabs, free, ps)
    ensures 1 <= left <= Lacking(mid, k) ==> FallsShort(tabs, free, ps, k)
  {
    SpentIs(tabs, free, ps, mid, left);
    CostAdds(tabs, ps, mid, {k});
    CostOfPage(mid, k);
    UsesUpIs(tabs, free, ps);
    FallsShortIs(tabs, free, ps, k);
  }

  /** The same, for pages that come after others. */
  lemma ShortAfter(tabs: Tabs, free: nat, ps: set<nat>, mid: Tabs, left: nat, qs: set<nat>, k: nat)
    requires Spent(tabs, free, ps, mid, left) && ps !! qs && k !in ps
    ensures UsesUp(mid, left, qs) ==> UsesUp(tabs, free, ps + qs)
    ensures FallsShort(mid, left, qs, k) ==> FallsShort(tabs, free, ps + qs, k)
  {
    SpentIs(tabs, free, ps, mid, left);
    CostAdds(tabs, ps, mid, qs);
    CostAdds(tabs, ps, mid, qs + {k});
    assert ps + (qs + {k}) == ps + qs + {k};
    UsesUpIs(mid, left, qs);
    UsesUpIs(tabs, free, ps + qs);
    FallsShortIs(mid, left, qs, k);
    FallsShortIs(tabs, free, ps + qs, k);
  }

  /** Then more pages cannot be afforded. */
  lemma ShortMeans(tabs: Tabs, free: nat, ps: set<nat>, k: nat, all: set<nat>)
    requires (UsesUp(tabs, free, ps) || FallsShort(tabs, free, ps, k)) && k !in ps && ps + {k} <= all
    ensures Cost(tabs, all) > free
  {
    UsesUpIs(tabs, free, ps);
    FallsShortIs(tabs, free, ps, k);
    CostGrows(tabs, ps, ps + {k});
    assert (ps + {k}) - ps == {k};
    CostGrows(tabs, ps + {k}, all);
  }
}
