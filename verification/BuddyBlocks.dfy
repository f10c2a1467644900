/**
 * The state of the buddy allocator as a value: which aligned blocks of pages are free.
 * Blocks are named by their first page number, and a block of order `o` has `2^o` pages.
 */
module BuddyBlocks {
  import opened Bits

  const MAX_ORDER: nat := 11

  /** Head page of each free block, with its order. */
  type Blocks = map<nat, nat>

  function BlockPages(b: nat, o: nat): set<nat> {
    set p: nat | p < b + Pow2(o) && Within(p, b, o)
  }

  ghost function Pages(bs: Blocks): set<nat> {
    set b, p: nat | b in bs && p < b + Pow2(bs[b]) && Within(p, b, bs[b]) :: p
  }

  predicate IsBlock(b: nat, o: nat) {
    b > 0 && o < MAX_ORDER && Aligned(b, o)
  }

  predicate Apart(b: nat, o: nat, c: nat, k: nat) {
    b + Pow2(o) <= c || c + Pow2(k) <= b
  }

  ghost predicate ApartFromAll(bs: Blocks, b: nat, o: nat) {
    forall c {:trigger Apart(b, o, c, bs[c])} :: c in bs ==> Apart(b, o, c, bs[c])
  }

  /** Free blocks are aligned, of a listed order, never page 0, and pairwise disjoint. */
  ghost predicate Wf(bs: Blocks) {
    && (forall b :: b in bs ==> IsBlock(b, bs[b]))
    && (forall b, c {:trigger Apart(b, bs[b], c, bs[c])} :: b in bs && c in bs && b != c ==> Apart(b, bs[b], c, bs[c]))
  }

  function BuddyOf(p: nat, o: nat): nat {
    Xor(p, Pow2(o))
  }

  ghost predicate HasFreeBuddy(bs: Blocks, b: nat)
    requires b in bs
  {
    var c := BuddyOf(b, bs[b]);
    c in bs && bs[c] == bs[b]
  }

  /** No two buddies are free at the same order below the top one. */
  ghost predicate Coalesced(bs: Blocks) {
    forall b :: b in bs && bs[b] < MAX_ORDER - 1 ==> !HasFreeBuddy(bs, b)
  }

  /** Returns the right halves of block `p` to the free blocks while shrinking it from order `k` to `o`. */
  ghost function SplitDown(bs: Blocks, p: nat, k: nat, o: nat): Blocks
    requires o <= k
    decreases k
  {
    if k == o then bs else SplitDown(bs[p + Pow2(k - 1) := k - 1], p, k - 1, o)
  }

  /** One successful allocation: a smallest sufficient block is taken and split. */
  ghost predicate AllocStep(bs: Blocks, o: nat, p: nat, next: Blocks) {
    && p in bs && o <= bs[p]
    && (forall b :: b in bs && o <= bs[b] ==> bs[p] <= bs[b])
    && next == SplitDown(bs - {p}, p, bs[p], o)
  }

  /** Merges block `p` upwards with free buddies, then adds what results. */
  ghost function Coalesce(bs: Blocks, p: nat, o: nat): Blocks
    decreases MAX_ORDER - o
  {
    var c := BuddyOf(p, o);
    if o < MAX_ORDER - 1 && c in bs && bs[c] == o
    then Coalesce(bs - {c}, Min(p, c), o + 1)
    else bs[p := o]
  }

  // ---------- Geometry of aligned blocks ----------

  lemma BuddyFacts(b: nat, o: nat)
    requires Aligned(b, o)
    ensures var c := BuddyOf(b, o); var m := Min(b, c);
      && Aligned(c, o)
      && BuddyOf(c, o) == b
      && Aligned(m, o + 1)
      && (b < c ==> c == b + Pow2(o))
      && (c <= b ==> b == c + Pow2(o))
      && (b < c <==> Aligned(b, o + 1))
  {
    FlipBit(b, o);
  }

  /** Aligned blocks that share a page are nested. */
  lemma Nested(b: nat, o: nat, c: nat, k: nat, p: nat)
    requires Aligned(b, o) && Aligned(c, k) && o <= k
    requires Within(p, b, o) && Within(p, c, k)
    ensures c <= b && b + Pow2(o) <= c + Pow2(k)
  {
    var last := b + Pow2(o) - 1;
    WithinIsShift(p, b, o);
    WithinIsShift(b, b, o);
    WithinIsShift(last, b, o);
    WithinIsShift(p, c, k);
    ShiftCongruent(b, p, o, k);
    ShiftCongruent(last, p, o, k);
    WithinIsShift(b, c, k);
    WithinIsShift(last, c, k);
  }

  lemma HeadInPages(bs: Blocks, b: nat)
    requires b in bs
    ensures b in Pages(bs)
  {
    assert Within(b, b, bs[b]);
  }

  lemma HeadElsewhere(bs: Blocks, b: nat, o: nat, c: nat)
    requires ApartFromAll(bs, b, o) && Within(c, b, o)
    ensures c !in bs
  {
    assert c in bs ==> Apart(b, o, c, bs[c]);
  }

  lemma NotFreeMeansApart(bs: Blocks, b: nat, o: nat)
    requires BlockPages(b, o) !! Pages(bs)
    ensures ApartFromAll(bs, b, o)
  {
    forall c | c in bs
      ensures Apart(b, o, c, bs[c])
    {
      var p := if b <= c then c else b;
      assert p in BlockPages(b, o) <==> p < b + Pow2(o);
      assert Within(p, c, bs[c]) ==> p in Pages(bs);
    }
  }

  lemma PagesAdd(bs: Blocks, b: nat, o: nat)
    requires b !in bs
    ensures Pages(bs[b := o]) == Pages(bs) + BlockPages(b, o)
  {
    var next := bs[b := o];
    forall p: nat | p in Pages(bs) + BlockPages(b, o)
      ensures p in Pages(next)
    {
      if p in BlockPages(b, o) {
        assert b in next && Within(p, b, next[b]);
      } else {
        var c: nat :| c in bs && Within(p, c, bs[c]);
        assert c in next && Within(p, c, next[c]);
      }
    }
  }

  lemma PagesRemove(bs: Blocks, b: nat)
    requires Wf(bs) && b in bs
    ensures Pages(bs - {b}) == Pages(bs) - BlockPages(b, bs[b])
    ensures Wf(bs - {b})
    ensures ApartFromAll(bs - {b}, b, bs[b])
  {
    var rest, k := bs - {b}, bs[b];
    forall p: nat | p in Pages(bs) - BlockPages(b, bs[b])
      ensures p in Pages(rest)
    {
      var c: nat :| c in bs && Within(p, c, bs[c]);
      assert p in BlockPages(b, k) <==> Within(p, b, k);
      assert c in rest && Within(p, c, rest[c]);
    }
    forall p: nat | p in Pages(rest)
      ensures p in Pages(bs) - BlockPages(b, bs[b])
    {
      var c: nat :| c in rest && Within(p, c, rest[c]);
      assert Within(p, c, bs[c]) && Apart(b, k, c, bs[c]);
      assert p in BlockPages(b, k) <==> Within(p, b, k);
    }
    forall c | c in rest
      ensures Apart(b, k, c, rest[c])
    {
      assert Apart(b, bs[b], c, bs[c]);
    }
    forall c, d | c in rest && d in rest && c != d
      ensures Apart(c, rest[c], d, rest[d])
    {
      assert Apart(c, bs[c], d, bs[d]);
    }
  }

  // ---------- Allocation ----------

  lemma {:induction false} SplitDownFacts(bs: Blocks, p: nat, k: nat, o: nat)
    requires Wf(bs) && IsBlock(p, k) && ApartFromAll(bs, p, k) && o <= k
    ensures var r := SplitDown(bs, p, k, o);
      && Wf(r) && IsBlock(p, o) && ApartFromAll(r, p, o)
      && Pages(r) == Pages(bs) + (BlockPages(p, k) - BlockPages(p, o))
    decreases k
  {
    if k > o {
      HalveBlock(bs, p, k);
      SplitDownFacts(bs[p + Pow2(k - 1) := k - 1], p, k - 1, o);
      BlockMonotone(p, o, k - 1);
      BlockMonotone(p, k - 1, k);
      DifferenceChain(BlockPages(p, k), BlockPages(p, k - 1), BlockPages(p, o), Pages(bs));
    }
  }

  lemma DifferenceChain(a: set<nat>, b: set<nat>, c: set<nat>, base: set<nat>)
    requires c <= b <= a
    ensures base + (a - b) + (b - c) == base + (a - c)
  {
  }

  /** Adding a block apart from all others. */
  lemma AddBlock(bs: Blocks, b: nat, o: nat)
    requires Wf(bs) && IsBlock(b, o) && ApartFromAll(bs, b, o)
    ensures b !in bs && Wf(bs[b := o]) && Pages(bs[b := o]) == Pages(bs) + BlockPages(b, o)
  {
    HeadElsewhere(bs, b, o, b);
    PagesAdd(bs, b, o);
    var next := bs[b := o];
    forall c, d | c in next && d in next && c != d
      ensures Apart(c, next[c], d, next[d])
    {
      if c == b {
        assert Apart(b, o, d, bs[d]);
      } else if d == b {
        assert Apart(b, o, c, bs[c]);
      } else {
        assert Apart(c, bs[c], d, bs[d]);
      }
    }
  }

  lemma Halves(p: nat, k: nat)
    requires IsBlock(p, k) && k > 0
    ensures var r := p + Pow2(k - 1);
      && IsBlock(p, k - 1) && IsBlock(r, k - 1) && BuddyOf(r, k - 1) == p
      && BlockPages(r, k - 1) == BlockPages(p, k) - BlockPages(p, k - 1)
  {
    AlignedDown(p, k - 1, k);
    BuddyFacts(p, k - 1);
    BuddyUnion(p, k - 1);
  }

  lemma HalvesApart(bs: Blocks, p: nat, k: nat)
    requires ApartFromAll(bs, p, k) && k > 0
    ensures ApartFromAll(bs, p, k - 1) && ApartFromAll(bs, p + Pow2(k - 1), k - 1)
  {
    forall c | c in bs
      ensures Apart(p, k - 1, c, bs[c]) && Apart(p + Pow2(k - 1), k - 1, c, bs[c])
    {
      assert Apart(p, k, c, bs[c]);
    }
  }

  /** Splitting a block once: the right half becomes free. */
  lemma HalveBlock(bs: Blocks, p: nat, k: nat)
    requires Wf(bs) && IsBlock(p, k) && ApartFromAll(bs, p, k) && k > 0
    ensures var r := p + Pow2(k - 1); var next := bs[r := k - 1];
      && Wf(next) && IsBlock(p, k - 1) && ApartFromAll(next, p, k - 1)
      && IsBlock(r, k - 1) && ApartFromAll(bs, r, k - 1) && r !in bs && p !in bs && BuddyOf(r, k - 1) == p
      && Pages(next) == Pages(bs) + (BlockPages(p, k) - BlockPages(p, k - 1))
  {
    Halves(p, k);
    HalvesApart(bs, p, k);
    AddBlock(bs, p + Pow2(k - 1), k - 1);
    HeadElsewhere(bs, p, k, p);
    var r := p + Pow2(k - 1);
    var next := bs[r := k - 1];
    forall c | c in next
      ensures Apart(p, k - 1, c, next[c])
    {
      assert c != r ==> Apart(p, k - 1, c, bs[c]);
    }
  }

  lemma BlockMonotone(p: nat, o: nat, k: nat)
    requires o <= k
    ensures BlockPages(p, o) <= BlockPages(p, k)
  {
    Pow2Monotone(o, k);
  }

  lemma {:induction false} SplitDownCoalesced(bs: Blocks, p: nat, k: nat, o: nat)
    requires Wf(bs) && IsBlock(p, k) && ApartFromAll(bs, p, k) && o <= k
    requires Coalesced(bs)
    ensures Coalesced(SplitDown(bs, p, k, o))
    decreases k
  {
    if k > o {
      var r := p + Pow2(k - 1);
      HalveBlock(bs, p, k);
      PushCoalesced(bs, r, k - 1);
      SplitDownCoalesced(bs[r := k - 1], p, k - 1, o);
    }
  }

  /** An allocation hands out one aligned, wholly free block, and removes exactly its pages. */
  lemma AllocStepSound(bs: Blocks, o: nat, p: nat, next: Blocks)
    requires Wf(bs) && AllocStep(bs, o, p, next)
    ensures Wf(next) && IsBlock(p, o)
    ensures BlockPages(p, o) <= Pages(bs)
    ensures Pages(next) == Pages(bs) - BlockPages(p, o)
    ensures Coalesced(bs) ==> Coalesced(next)
  {
    var k := bs[p];
    PagesRemove(bs, p);
    SplitDownFacts(bs - {p}, p, k, o);
    Pow2Monotone(o, k);
    assert BlockPages(p, k) <= Pages(bs) by {
      forall q: nat | q in BlockPages(p, k) ensures q in Pages(bs) { assert p in bs && Within(q, p, bs[p]); }
    }
    if Coalesced(bs) {
      RemoveCoalesced(bs, p);
      SplitDownCoalesced(bs - {p}, p, k, o);
    }
  }

  // ---------- Freeing ----------

  /** Freeing adds exactly the block's pages and leaves no pair of free buddies behind. */
  lemma {:induction false} CoalesceSound(bs: Blocks, p: nat, o: nat)
    requires Wf(bs) && IsBlock(p, o) && BlockPages(p, o) !! Pages(bs)
    ensures var r := Coalesce(bs, p, o);
      && Wf(r)
      && Pages(r) == Pages(bs) + BlockPages(p, o)
      && (Coalesced(bs) ==> Coalesced(r))
    decreases MAX_ORDER - o
  {
    NotFreeMeansApart(bs, p, o);
    BuddyFacts(p, o);
    var c := BuddyOf(p, o);
    if o < MAX_ORDER - 1 && c in bs && bs[c] == o {
      var m := Min(p, c);
      PagesRemove(bs, c);
      if Coalesced(bs) { RemoveCoalesced(bs, c); }
      BuddyUnion(p, o);
      CoalesceSound(bs - {c}, m, o + 1);
      WholeBlockFree(bs, c);
    } else {
      AddBlock(bs, p, o);
      if Coalesced(bs) {
        PushCoalesced(bs, p, o);
      }
    }
  }

  lemma BuddyUnion(p: nat, o: nat)
    requires Aligned(p, o)
    ensures var c := BuddyOf(p, o);
      BlockPages(Min(p, c), o + 1) == BlockPages(p, o) + BlockPages(c, o)
  {
    BuddyFacts(p, o);
  }

  lemma RemoveCoalesced(bs: Blocks, c: nat)
    requires Coalesced(bs)
    ensures Coalesced(bs - {c})
  {
    var rest := bs - {c};
    forall b | b in rest && rest[b] < MAX_ORDER - 1
      ensures !HasFreeBuddy(rest, b)
    {
      assert !HasFreeBuddy(bs, b);
    }
  }

  lemma PushCoalesced(bs: Blocks, p: nat, o: nat)
    requires Wf(bs) && Coalesced(bs) && IsBlock(p, o) && p !in bs
    requires o < MAX_ORDER - 1 ==> !(BuddyOf(p, o) in bs && bs[BuddyOf(p, o)] == o)
    ensures Coalesced(bs[p := o])
  {
    var r := bs[p := o];
    BuddyFacts(p, o);
    forall b | b in r && r[b] < MAX_ORDER - 1
      ensures !HasFreeBuddy(r, b)
    {
      BuddyFacts(b, r[b]);
      if b != p {
        assert !HasFreeBuddy(bs, b);
      }
    }
  }

  // ---------- Canonical form ----------

  /** In a coalesced state a wholly free aligned block lies inside one free block. */
  lemma {:induction false} Contained(bs: Blocks, b: nat, o: nat) returns (c: nat)
    requires Wf(bs) && Coalesced(bs)
    requires o < MAX_ORDER && Aligned(b, o)
    requires BlockPages(b, o) <= Pages(bs)
    ensures c in bs && o <= bs[c] && c <= b && b + Pow2(o) <= c + Pow2(bs[c])
    decreases o
  {
    if o == 0 {
      c := CoveringBlock(bs, b);
      assert Pow2(o) == 1;
    } else {
      var h := Pow2(o - 1);
      AlignedDown(b, o - 1, o);
      BuddyFacts(b, o - 1);
      BuddyUnion(b, o - 1);
      var l: nat := Contained(bs, b, o - 1);
      var r: nat := Contained(bs, b + h, o - 1);
      NotBothHalves(bs, b, o, l, r);
      c := if o <= bs[l] then l else r;
      Nested(b, o, c, bs[c], if o <= bs[l] then b else b + h);
    }
  }

  lemma NotBothHalves(bs: Blocks, b: nat, o: nat, l: nat, r: nat)
    requires Wf(bs) && Coalesced(bs) && 0 < o < MAX_ORDER && Aligned(b, o) && Aligned(b, o - 1)
    requires l in bs && o - 1 <= bs[l] && l <= b && b + Pow2(o - 1) <= l + Pow2(bs[l])
    requires r in bs && o - 1 <= bs[r] && r <= b + Pow2(o - 1) && b + Pow2(o) <= r + Pow2(bs[r])
    ensures o <= bs[l] || o <= bs[r]
  {
    BuddyFacts(b, o - 1);
    var k := bs[l];
    assert k == o - 1 && bs[r] == o - 1 ==> l == b && r == BuddyOf(l, k);
    assert k == o - 1 ==> !HasFreeBuddy(bs, l);
  }

  lemma CoveringBlock(bs: Blocks, p: nat) returns (c: nat)
    requires BlockPages(p, 0) <= Pages(bs)
    ensures c in bs && Within(p, c, bs[c])
  {
    assert Within(p, p, 0) && p in BlockPages(p, 0);
    c :| c in bs && Within(p, c, bs[c]);
  }

  lemma CanonicalHalf(bs: Blocks, cs: Blocks, b: nat)
    requires Wf(bs) && Coalesced(bs) && Wf(cs) && Coalesced(cs)
    requires Pages(bs) == Pages(cs)
    requires b in bs
    ensures b in cs && cs[b] == bs[b]
  {
    assert BlockPages(b, bs[b]) <= Pages(cs) by { WholeBlockFree(bs, b); }
    var c := Contained(cs, b, bs[b]);
    assert BlockPages(c, cs[c]) <= Pages(bs) by { WholeBlockFree(cs, c); }
    var d := Contained(bs, c, cs[c]);
    assert d != b ==> Apart(b, bs[b], d, bs[d]);
    SameSize(bs[b], cs[c]);
  }

  lemma WholeBlockFree(bs: Blocks, b: nat)
    requires b in bs
    ensures BlockPages(b, bs[b]) <= Pages(bs)
  {
    forall q: nat | q in BlockPages(b, bs[b]) ensures q in Pages(bs) { assert b in bs && Within(q, b, bs[b]); }
  }

  /** The free blocks of a coalesced state are a function of the free pages. */
  lemma Canonical(bs: Blocks, cs: Blocks)
    requires Wf(bs) && Coalesced(bs) && Wf(cs) && Coalesced(cs)
    requires Pages(bs) == Pages(cs)
    ensures bs == cs
  {
    forall b | b in bs
      ensures b in cs && cs[b] == bs[b]
    {
      CanonicalHalf(bs, cs, b);
    }
    forall b | b in cs
      ensures b in bs && cs[b] == bs[b]
    {
      CanonicalHalf(cs, bs, b);
    }
  }

  /** Allocation is complete: a coalesced state has no large enough free block only if no aligned one is wholly free. */
  lemma AllocComplete(bs: Blocks, o: nat)
    requires Wf(bs) && Coalesced(bs) && o < MAX_ORDER
    ensures (exists b: nat :: Aligned(b, o) && BlockPages(b, o) <= Pages(bs))
       <==> (exists c :: c in bs && o <= bs[c])
  {
    forall b: nat | Aligned(b, o) && BlockPages(b, o) <= Pages(bs)
      ensures exists c :: c in bs && o <= bs[c]
    {
      var c := Contained(bs, b, o);
    }
    forall c | c in bs && o <= bs[c]
      ensures Aligned(c, o) && BlockPages(c, o) <= Pages(bs)
    {
      AlignedDown(c, o, bs[c]);
      Pow2Monotone(o, bs[c]);
      WholeBlockFree(bs, c);
      assert BlockPages(c, o) <= BlockPages(c, bs[c]);
    }
  }

  /** Freeing what was just allocated restores the free blocks. */
  lemma AllocThenFree(bs: Blocks, o: nat, p: nat, next: Blocks)
    requires Wf(bs) && Coalesced(bs) && AllocStep(bs, o, p, next)
    ensures Coalesce(next, p, o) == bs
  {
    AllocStepSound(bs, o, p, next);
    CoalesceSound(next, p, o);
    Canonical(Coalesce(next, p, o), bs);
  }
}
