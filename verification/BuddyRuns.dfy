/** Whole runs of the allocator: what every sequence of allocations and frees keeps. */
module BuddyRuns {
  import opened BuddyBlocks

  /** Free blocks together with the blocks handed out and not yet returned. */
  datatype State = State(free: Blocks, out: Blocks)

  /** One call: an allocation that succeeds, one that finds nothing, or the return of an outstanding block. */
  ghost predicate Step(s: State, t: State) {
    || (exists o: nat, p: nat :: AllocStep(s.free, o, p, t.free) && t.out == s.out[p := o])
    || t == s
    || (exists p :: p in s.out && t.free == Coalesce(s.free, p, s.out[p]) && t.out == s.out - {p})
  }

  ghost predicate IsRun(run: seq<State>) {
    |run| > 0 && forall i :: 0 <= i < |run| - 1 ==> Step(run[i], run[i + 1])
  }

  /** Free and outstanding blocks are each aligned and disjoint, and together they tile `pool`. */
  ghost predicate Tiles(s: State, pool: set<nat>) {
    && Wf(s.free) && Wf(s.out)
    && Pages(s.free) !! Pages(s.out)
    && Pages(s.free) + Pages(s.out) == pool
  }

  lemma StepKeepsTiling(s: State, t: State, pool: set<nat>)
    requires Tiles(s, pool) && Step(s, t)
    ensures Tiles(t, pool) && (Coalesced(s.free) ==> Coalesced(t.free))
  {
    if t != s {
      if o: nat, p: nat :| AllocStep(s.free, o, p, t.free) && t.out == s.out[p := o] {
        AllocStepSound(s.free, o, p, t.free);
        assert BlockPages(p, o) !! Pages(s.out);
        AddOutstanding(s.out, p, o);
      } else {
        var p :| p in s.out && t.free == Coalesce(s.free, p, s.out[p]) && t.out == s.out - {p};
        assert t.out == s.out - {p};
        WholeBlockFree(s.out, p);
        PagesRemove(s.out, p);
        CoalesceSound(s.free, p, s.out[p]);
      }
    }
  }

  lemma AddOutstanding(out: Blocks, p: nat, o: nat)
    requires Wf(out) && IsBlock(p, o) && BlockPages(p, o) !! Pages(out)
    ensures Wf(out[p := o]) && Pages(out[p := o]) == Pages(out) + BlockPages(p, o)
  {
    NotFreeMeansApart(out, p, o);
    AddBlock(out, p, o);
  }

  lemma {:induction false} RunConserves(run: seq<State>, pool: set<nat>, i: nat)
    requires IsRun(run) && Tiles(run[0], pool) && i < |run|
    ensures Tiles(run[i], pool) && (Coalesced(run[0].free) ==> Coalesced(run[i].free))
  {
    if i > 0 {
      RunConserves(run, pool, i - 1);
      assert Step(run[i - 1], run[i - 1 + 1]);
      StepKeepsTiling(run[i - 1], run[i], pool);
    }
  }

  /** In every run from a tiled state, every state tiles the same pages, and stays coalesced if the first was. */
  lemma RunsConserve(run: seq<State>, pool: set<nat>)
    requires IsRun(run) && Tiles(run[0], pool)
    ensures forall i :: 0 <= i < |run| ==> Tiles(run[i], pool)
    ensures Coalesced(run[0].free) ==> forall i :: 0 <= i < |run| ==> Coalesced(run[i].free)
  {
    forall i | 0 <= i < |run|
      ensures Tiles(run[i], pool) && (Coalesced(run[0].free) ==> Coalesced(run[i].free))
    {
      RunConserves(run, pool, i);
    }
  }

  /** Two runs over the same pages that end with the same outstanding blocks end with the same free blocks. */
  lemma RunsAgree(run: seq<State>, other: seq<State>, pool: set<nat>)
    requires IsRun(run) && Tiles(run[0], pool) && Coalesced(run[0].free)
    requires IsRun(other) && Tiles(other[0], pool) && Coalesced(other[0].free)
    requires run[|run| - 1].out == other[|other| - 1].out
    ensures run[|run| - 1] == other[|other| - 1]
  {
    RunConserves(run, pool, |run| - 1);
    RunConserves(other, pool, |other| - 1);
    var s, t := run[|run| - 1], other[|other| - 1];
    assert Pages(s.free) == pool - Pages(s.out);
    assert Pages(t.free) == pool - Pages(t.out);
    Canonical(s.free, t.free);
  }

  // ---------- Batches of frees ----------

  type Batch = seq<(nat, nat)>

  ghost function FreeAll(bs: Blocks, batch: Batch): Blocks
    decreases batch
  {
    if batch == [] then bs
    else FreeAll(Coalesce(bs, batch[0].0, batch[0].1), batch[1..])
  }

  ghost function BatchPages(batch: Batch): set<nat> {
    if batch == [] then {} else BlockPages(batch[0].0, batch[0].1) + BatchPages(batch[1..])
  }

  /** Every block of the batch is a block, not free, and apart from the later ones. */
  ghost predicate CanFree(bs: Blocks, batch: Batch) {
    && BatchPages(batch) !! Pages(bs)
    && DisjointBatch(batch)
  }

  ghost predicate DisjointBatch(batch: Batch) {
    batch == [] ||
    (&& IsBlock(batch[0].0, batch[0].1)
     && BlockPages(batch[0].0, batch[0].1) !! BatchPages(batch[1..])
     && DisjointBatch(batch[1..]))
  }

  lemma {:induction false} FreeAllSound(bs: Blocks, batch: Batch)
    requires Wf(bs) && Coalesced(bs) && CanFree(bs, batch)
    ensures var r := FreeAll(bs, batch); Wf(r) && Coalesced(r) && Pages(r) == Pages(bs) + BatchPages(batch)
    decreases batch
  {
    if batch != [] {
      CoalesceSound(bs, batch[0].0, batch[0].1);
      FreeAllSound(Coalesce(bs, batch[0].0, batch[0].1), batch[1..]);
    }
  }

  lemma {:induction false} BatchPagesMember(batch: Batch, p: nat)
    ensures p in BatchPages(batch) <==> exists x :: x in batch && p in BlockPages(x.0, x.1)
  {
    if batch != [] {
      BatchPagesMember(batch[1..], p);
      assert forall x :: x in batch <==> x == batch[0] || x in batch[1..];
    }
  }

  /** The order in which a batch of blocks is freed does not matter. */
  lemma FreeOrderIrrelevant(bs: Blocks, batch: Batch, other: Batch)
    requires Wf(bs) && Coalesced(bs) && CanFree(bs, batch) && CanFree(bs, other)
    requires forall x :: x in batch <==> x in other
    ensures FreeAll(bs, batch) == FreeAll(bs, other)
  {
    FreeAllSound(bs, batch);
    FreeAllSound(bs, other);
    forall p: nat
      ensures p in BatchPages(batch) <==> p in BatchPages(other)
    {
      BatchPagesMember(batch, p);
      BatchPagesMember(other, p);
    }
    Canonical(FreeAll(bs, batch), FreeAll(bs, other));
  }
}
