/** How many free pages a fork takes, counted before it begins. */
module ForkCost {
  import opened BuddyAllocator
  import opened PageTable
  import opened PageMaps
  import opened UserMemory
  import opened Isolation

  /** The pages below `hi` that `z` has touched. */
  ghost function Touched(z: Space, hi: nat): set<nat> {
    set k: nat | k < hi && UserFrame(z.walks, z.areas, k).Some?
  }

  /** The tables on the way to any of the pages. */
  ghost function WaysTo(ps: set<nat>): set<Path> {
    set k, q | k in ps && q in Way(k) :: q
  }

  /** A root table, a frame for each page copied, and every table on the way to a page copied or mapped to itself. */
  ghost function Price(copied: set<nat>, shared: set<nat>): nat {
    1 + |copied| + |WaysTo(copied + shared)|
  }

  /** The free pages that a fork of `z` needs. */
  ghost function Need(z: Space, image: Image): nat {
    Price(Touched(z, USER_PAGES), Range(image.first, image.last))
  }

  // ---------- Paying as it goes ----------

  /** What has to be paid, and the tables that it pays for. */
  datatype Bill = Bill(price: nat, tables: set<Path>)

  /** The bill for copying the touched pages below `hi` and sharing the pages from `first` to `page`. */
  ghost function BillFor(z: Space, hi: nat, first: nat, page: nat): Bill {
    Bill(Price(Touched(z, hi), Range(first, page)), WaysTo(Touched(z, hi) + Range(first, page)))
  }

  ghost predicate IsBillFor(z: Space, hi: nat, first: nat, page: nat, e: Bill) {
    e == BillFor(z, hi, first, page)
  }

  /** `b` is that bill, said so that proofs which only pass it on need not look into it. */
  ghost predicate Billed(z: Space, hi: nat, first: nat, page: nat, b: Bill) {
    forall e {:trigger IsBillFor(z, hi, first, page, e)} :: IsBillFor(z, hi, first, page, e) ==> b == e
  }

  lemma BillIs(z: Space, hi: nat, first: nat, page: nat, b: Bill)
    ensures Billed(z, hi, first, page, b) <==> b == BillFor(z, hi, first, page)
  {
    assert IsBillFor(z, hi, first, page, BillFor(z, hi, first, page));
  }

  /** The bill has been paid from `s0`, which leaves `s`, and the lower half of `tabs` has just its tables. */
  ghost predicate Settled(s0: set<nat>, s: set<nat>, tabs: Tabs, z: Space, hi: nat, first: nat, page: nat) {
    forall b {:trigger Billed(z, hi, first, page, b)} :: Billed(z, hi, first, page, b) ==>
      |s| + b.price == |s0| && HasJust(tabs, b.tables)
  }

  /** Of the lower-half tables below the root, `tabs` has those of `ws` and no others. */
  ghost predicate HasJust(tabs: Tabs, ws: set<Path>) {
    forall q {:trigger q in ws} :: Low(q) && q != Root ==> (q in tabs <==> q in ws)
  }

  /** Fewer pages than a fork of `z` needs. */
  ghost predicate TooFew(s0: set<nat>, z: Space, image: Image) {
    forall b {:trigger Billed(z, USER_PAGES, image.first, image.last, b)} ::
      Billed(z, USER_PAGES, image.first, image.last, b) ==> |s0| < b.price
  }

  /** The lower half of `tabs` has the tables that the pages so far need, and `s` is left of `s0` after paying. */
  ghost predicate Paying(s0: set<nat>, s: set<nat>, tabs: Tabs, copied: set<nat>, shared: set<nat>) {
    |s| + Price(copied, shared) == |s0| && HasJust(tabs, WaysTo(copied + shared))
  }

  lemma Settles(s0: set<nat>, s: set<nat>, tabs: Tabs, z: Space, hi: nat, first: nat, page: nat)
    ensures Settled(s0, s, tabs, z, hi, first, page) <==> Paying(s0, s, tabs, Touched(z, hi), Range(first, page))
  {
    BillIs(z, hi, first, page, BillFor(z, hi, first, page));
    forall b ensures Billed(z, hi, first, page, b) <==> b == BillFor(z, hi, first, page) {
      BillIs(z, hi, first, page, b);
    }
  }

  lemma SubsetSize<T>(a: set<T>, b: set<T>)
    requires a <= b
    ensures |a| <= |b|
  {
    assert b == a + (b - a);
  }

  lemma PriceGrows(copied: set<nat>, shared: set<nat>, more: set<nat>, wider: set<nat>)
    requires copied <= more && shared <= wider
    ensures Price(copied, shared) <= Price(more, wider)
  {
    SubsetSize(copied, more);
    assert WaysTo(copied + shared) <= WaysTo(more + wider);
    SubsetSize(WaysTo(copied + shared), WaysTo(more + wider));
  }

  lemma OneMore(ws: set<Path>, q: Path)
    ensures |ws + {q}| == |ws| + if q in ws then 0 else 1
  {
    if q in ws { assert ws + {q} == ws; }
  }

  /** A page adds exactly the tables that are missing on its way. */
  lemma WayPaid(tabs: Tabs, ws: set<Path>, k: nat)
    requires forall q :: q in Way(k) ==> (q in tabs <==> q in ws)
    ensures |ws + Way(k)| == |ws| + Lacking(tabs, k)
  {
    var a, b, c := Sub(Root, A(k)), PdOf(k), PtOf(k);
    assert a in Way(k) && b in Way(k) && c in Way(k);
    OneMore(ws, a);
    OneMore(ws + {a}, b);
    OneMore(ws + {a} + {b}, c);
    assert ws + {a} + {b} + {c} == ws + Way(k);
  }

  lemma LowWay(k: nat)
    requires k < USER_PAGES
    ensures forall q :: q in Way(k) ==> Low(q) && q != Root
  {
    assert A(k) < 256;
    assert Low(Sub(Root, A(k))) && Low(PdOf(k)) && Low(PtOf(k));
  }

  lemma WaysGrow(ps: set<nat>, k: nat)
    ensures WaysTo(ps + {k}) == WaysTo(ps) + Way(k)
  {
  }

  /** What one more page costs. */
  lemma PagePrice(s0: set<nat>, s: set<nat>, tabs: Tabs, copied: set<nat>, shared: set<nat>, k: nat)
    requires Paying(s0, s, tabs, copied, shared) && k < USER_PAGES
    ensures Price(copied, shared + {k}) == Price(copied, shared) + Lacking(tabs, k)
    ensures k !in copied ==> Price(copied + {k}, shared) == Price(copied, shared) + 1 + Lacking(tabs, k)
  {
    LowWay(k);
    WayPaid(tabs, WaysTo(copied + shared), k);
    WaysGrow(copied + shared, k);
    assert copied + (shared + {k}) == copied + shared + {k};
    assert (copied + {k}) + shared == copied + shared + {k};
  }

  /** The tables of one more page were added. */
  lemma TablesKept(tabs: Tabs, next: Tabs, ps: set<nat>, k: nat)
    requires HasJust(tabs, WaysTo(ps)) && WayAdded(tabs, next, k)
    ensures HasJust(next, WaysTo(ps + {k}))
  {
    WaysGrow(ps, k);
  }

  lemma TouchedNext(z: Space, k: nat)
    ensures Touched(z, k + 1) == if UserFrame(z.walks, z.areas, k).Some? then Touched(z, k) + {k} else Touched(z, k)
  {
  }

  lemma RangeNext(lo: nat, k: nat)
    requires lo <= k
    ensures Range(lo, k + 1) == Range(lo, k) + {k}
  {
    forall p: nat ensures p in Range(lo, k + 1) <==> p in Range(lo, k) || p == k {
      assert InRange(p, lo, k + 1) <==> InRange(p, lo, k) || p == k;
    }
  }

  lemma PaidFor(s0: set<nat>, s: set<nat>, tabs: Tabs, t: set<nat>, next: Tabs, copied: set<nat>, shared: set<nat>,
                k: nat)
    requires Paying(s0, s, tabs, copied, shared) && k < USER_PAGES && WayAdded(tabs, next, k)
    ensures |t| + Lacking(tabs, k) == |s| ==> Paying(s0, t, next, copied, shared + {k})
    ensures |t| + Lacking(tabs, k) + 1 == |s| && k !in copied ==> Paying(s0, t, next, copied + {k}, shared)
  {
    PagePrice(s0, s, tabs, copied, shared, k);
    TablesKept(tabs, next, copied + shared, k);
    assert copied + (shared + {k}) == copied + shared + {k};
    assert (copied + {k}) + shared == copied + shared + {k};
  }

  /** A page was taken for a copy and mapped. */
  lemma CopyPaid(s0: set<nat>, s: set<nat>, tabs: Tabs, t: set<nat>, next: Tabs, z: Space, k: nat, first: nat)
    requires Settled(s0, s, tabs, z, k, first, first) && k < USER_PAGES && UserFrame(z.walks, z.areas, k).Some?
    requires |t| + Lacking(tabs, k) + 1 == |s| && WayAdded(tabs, next, k)
    ensures Settled(s0, t, next, z, k + 1, first, first)
  {
    Settles(s0, s, tabs, z, k, first, first);
    PaidFor(s0, s, tabs, t, next, Touched(z, k), Range(first, first), k);
    TouchedNext(z, k);
    Settles(s0, t, next, z, k + 1, first, first);
  }

  /** A page was mapped to itself. */
  lemma SharePaid(s0: set<nat>, s: set<nat>, tabs: Tabs, t: set<nat>, next: Tabs, z: Space, hi: nat, first: nat, k: nat)
    requires Settled(s0, s, tabs, z, hi, first, k) && first <= k < USER_PAGES
    requires |t| + Lacking(tabs, k) == |s| && WayAdded(tabs, next, k)
    ensures Settled(s0, t, next, z, hi, first, k + 1)
  {
    Settles(s0, s, tabs, z, hi, first, k);
    PaidFor(s0, s, tabs, t, next, Touched(z, hi), Range(first, k), k);
    RangeNext(first, k);
    Settles(s0, t, next, z, hi, first, k + 1);
  }

  lemma SkipPaid(s0: set<nat>, s: set<nat>, tabs: Tabs, z: Space, k: nat, hi: nat, first: nat)
    requires Settled(s0, s, tabs, z, k, first, first) && k <= hi
    requires forall n: nat :: k <= n < hi ==> UserFrame(z.walks, z.areas, n).None?
    ensures Settled(s0, s, tabs, z, hi, first, first)
  {
    assert Touched(z, hi) == Touched(z, k);
    Settles(s0, s, tabs, z, k, first, first);
    Settles(s0, s, tabs, z, hi, first, first);
  }

  /** A copy that cannot be paid for shows that there were too few pages to begin with. */
  lemma CopyTooDear(s0: set<nat>, s: set<nat>, tabs: Tabs, z: Space, k: nat, image: Image)
    requires Settled(s0, s, tabs, z, k, image.first, image.first) && k < USER_PAGES
    requires UserFrame(z.walks, z.areas, k).Some?
    ensures |s| <= Lacking(tabs, k) ==> TooFew(s0, z, image)
  {
    var shared := Range(image.first, image.first);
    Settles(s0, s, tabs, z, k, image.first, image.first);
    PagePrice(s0, s, tabs, Touched(z, k), shared, k);
    TouchedNext(z, k);
    assert shared == {};
    PriceGrows(Touched(z, k + 1), shared, Touched(z, USER_PAGES), Range(image.first, image.last));
    TooFewPages(s0, z, image);
  }

  lemma ShareTooDear(s0: set<nat>, s: set<nat>, tabs: Tabs, z: Space, k: nat, image: Image)
    requires Settled(s0, s, tabs, z, USER_PAGES, image.first, k) && k < USER_PAGES && image.Has(k)
    ensures |s| < Lacking(tabs, k) ==> TooFew(s0, z, image)
  {
    Settles(s0, s, tabs, z, USER_PAGES, image.first, k);
    PagePrice(s0, s, tabs, Touched(z, USER_PAGES), Range(image.first, k), k);
    PriceGrows(Touched(z, USER_PAGES), Range(image.first, k) + {k}, Touched(z, USER_PAGES),
               Range(image.first, image.last));
    TooFewPages(s0, z, image);
  }

  /** A root of its own is all that a new address space has cost. */
  lemma RootPaid(s0: set<nat>, s: set<nat>, tabs: Tabs, root: nat, z: Space, first: nat)
    requires root !in s && s0 == s + {root} && forall q :: Low(q) && q != Root ==> q !in tabs
    ensures Settled(s0, s, tabs, z, 0, first, first)
  {
    assert Touched(z, 0) == {} && Range(first, first) == {};
    assert WaysTo({}) == {};
    Settles(s0, s, tabs, z, 0, first, first);
  }

  /** Tables of an upper half make no difference. */
  lemma LowPaid(s0: set<nat>, s: set<nat>, tabs: Tabs, next: Tabs, z: Space, hi: nat, first: nat, page: nat)
    requires Settled(s0, s, tabs, z, hi, first, page) && forall q :: Low(q) ==> (q in next <==> q in tabs)
    ensures Settled(s0, s, next, z, hi, first, page)
  {
    Settles(s0, s, tabs, z, hi, first, page);
    Settles(s0, s, next, z, hi, first, page);
  }

  /** When everything is paid, the price is what a fork needs. */
  lemma AllPaid(s0: set<nat>, s: set<nat>, tabs: Tabs, z: Space, image: Image)
    requires Settled(s0, s, tabs, z, USER_PAGES, image.first, image.last)
    ensures |s| + Need(z, image) == |s0|
  {
    BillIs(z, USER_PAGES, image.first, image.last, BillFor(z, USER_PAGES, image.first, image.last));
  }

  lemma TooFewPages(s0: set<nat>, z: Space, image: Image)
    ensures TooFew(s0, z, image) <==> |s0| < Need(z, image)
  {
    BillIs(z, USER_PAGES, image.first, image.last, BillFor(z, USER_PAGES, image.first, image.last));
    forall b ensures Billed(z, USER_PAGES, image.first, image.last, b) <==>
      b == BillFor(z, USER_PAGES, image.first, image.last)
    {
      BillIs(z, USER_PAGES, image.first, image.last, b);
    }
  }
}
