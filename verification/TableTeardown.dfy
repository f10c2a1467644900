/** Giving page tables back: the loops that free a table together with everything below it. */
module TableTeardown {
  import opened PhysMem
  import opened BuddyAllocator
  import opened PageTable

  /** Frame `f` holds the table at `p` or one below it. */
  ghost predicate Below(m: Mem, root: nat, p: Path, f: nat) {
    exists q :: Extends(q, p) && Resolve(m, root, q) == Some(f)
  }

  /** Frame `f` holds a table below one of the first `i` entries of the table at `p`. */
  ghost predicate BelowFirst(m: Mem, root: nat, p: Path, i: nat, f: nat) {
    exists j: nat :: j < i && Below(m, root, Sub(p, j), f)
  }

  /** The entry of the table at `p` that a longer path goes through. */
  function Through(q: Path, p: Path): nat
    requires Extends(q, p) && q != p
  {
    if q.up == p then q.i else Through(q.up, p)
  }

  lemma {:induction false} ThroughEntry(q: Path, p: Path)
    requires Extends(q, p) && q != p
    ensures Extends(q, Sub(p, Through(q, p)))
  {
    if q.up != p { ThroughEntry(q.up, p); }
  }

  lemma {:induction false} OneEntry(q: Path, p: Path, i: nat)
    requires Extends(q, Sub(p, i))
    ensures Extends(q, p) && q != p && Through(q, p) == i
  {
    ExtendsDepth(q, Sub(p, i));
    if q != Sub(p, i) { OneEntry(q.up, p, i); }
  }

  /** The tables below `p` are its own and those below its 512 entries. */
  lemma BelowSplit(m: Mem, root: nat, p: Path, t: nat, f: nat)
    requires Resolve(m, root, p) == Some(t)
    ensures Below(m, root, p, f) <==> f == t || BelowFirst(m, root, p, 512, f)
  {
    if Below(m, root, p, f) && f != t {
      var q :| Extends(q, p) && Resolve(m, root, q) == Some(f);
      ThroughEntry(q, p);
      var i := Through(q, p);
      if Resolve(m, root, Sub(p, i)).None? { UnresolvedBelow(m, root, Sub(p, i), q); }
      assert Below(m, root, Sub(p, i), f);
    }
    if BelowFirst(m, root, p, 512, f) {
      var i: nat :| i < 512 && Below(m, root, Sub(p, i), f);
      EntryBelow(m, root, p, i, f);
    }
  }

  lemma EntryBelow(m: Mem, root: nat, p: Path, i: nat, f: nat)
    requires Below(m, root, Sub(p, i), f)
    ensures Below(m, root, p, f)
  {
    var q :| Extends(q, Sub(p, i)) && Resolve(m, root, q) == Some(f);
    OneEntry(q, p, i);
  }

  /** In a tree, what lies below one entry is neither the table itself nor below another entry. */
  lemma EntryApart(m: Mem, root: nat, p: Path, i: nat, f: nat)
    requires Tree(m, root) && Below(m, root, Sub(p, i), f)
    ensures Resolve(m, root, p) != Some(f)
    ensures forall j: nat :: Below(m, root, Sub(p, j), f) ==> j == i
  {
    var q :| Extends(q, Sub(p, i)) && Resolve(m, root, q) == Some(f);
    OneEntry(q, p, i);
    forall j: nat | Below(m, root, Sub(p, j), f) ensures j == i {
      var r :| Extends(r, Sub(p, j)) && Resolve(m, root, r) == Some(f);
      OneEntry(r, p, j);
    }
  }

  lemma NothingBelow(m: Mem, root: nat, p: Path, f: nat)
    requires Resolve(m, root, p).None?
    ensures !Below(m, root, p, f)
  {
    if Below(m, root, p, f) {
      var q :| Extends(q, p) && Resolve(m, root, q) == Some(f);
      UnresolvedBelow(m, root, p, q);
    }
  }

  /** The tables at and below `p` are as in `m0`, and none of them is free. */
  ghost predicate Intact(m0: Mem, root: nat, p: Path, m: Mem, free: set<nat>) {
    forall f: nat :: Below(m0, root, p, f) ==> f > 0 && f !in free && At(m, f) == At(m0, f)
  }

  /** Exactly the tables at and below `p` became free, and nothing else was written but free pages. */
  ghost predicate Dropped(m0: Mem, root: nat, p: Path, m: Mem, s: set<nat>, n: Mem, t: set<nat>) {
    (forall f: nat :: f in t <==> f in s || Below(m0, root, p, f)) && SameExcept(m, n, t)
  }

  /** The same for the first `i` entries of the table at `p`, which is itself still there. */
  ghost predicate DroppedFirst(m0: Mem, root: nat, p: Path, i: nat, m: Mem, s: set<nat>, n: Mem, t: set<nat>) {
    (forall f: nat :: f in t <==> f in s || BelowFirst(m0, root, p, i, f)) && SameExcept(m, n, t)
  }

  /** When the first `i` entries are done, the table and what hangs below entry `i` are still intact. */
  lemma EntryIntact(m0: Mem, root: nat, p: Path, t: nat, i: nat, m: Mem, s: set<nat>, n: Mem, free: set<nat>)
    requires Tree(m0, root) && Resolve(m0, root, p) == Some(t) && Intact(m0, root, p, m, s)
    requires DroppedFirst(m0, root, p, i, m, s, n, free)
    ensures t > 0 && t !in free && At(n, t) == At(m0, t) && Intact(m0, root, Sub(p, i), n, free)
  {
    assert Below(m0, root, p, t);
    forall j: nat ensures !Below(m0, root, Sub(p, j), t) {
      if Below(m0, root, Sub(p, j), t) { EntryApart(m0, root, p, j, t); }
    }
    forall f: nat | Below(m0, root, Sub(p, i), f) ensures f > 0 && f !in free && At(n, f) == At(m0, f) {
      EntryBelow(m0, root, p, i, f);
      EntryApart(m0, root, p, i, f);
      assert !BelowFirst(m0, root, p, i, f);
    }
  }

  lemma DroppedNext(m0: Mem, root: nat, p: Path, i: nat, m: Mem, s: set<nat>, n: Mem, t: set<nat>, o: Mem, u: set<nat>)
    requires DroppedFirst(m0, root, p, i, m, s, n, t) && Dropped(m0, root, Sub(p, i), n, t, o, u)
    ensures DroppedFirst(m0, root, p, i + 1, m, s, o, u)
  {
    forall f: nat
      ensures BelowFirst(m0, root, p, i + 1, f) <==> BelowFirst(m0, root, p, i, f) || Below(m0, root, Sub(p, i), f)
    {
      if BelowFirst(m0, root, p, i + 1, f) {
        var j: nat :| j < i + 1 && Below(m0, root, Sub(p, j), f);
        assert j < i || j == i;
      }
    }
  }

  lemma DroppedAbsent(m0: Mem, root: nat, p: Path, i: nat, m: Mem, s: set<nat>, n: Mem, t: set<nat>)
    requires DroppedFirst(m0, root, p, i, m, s, n, t) && Resolve(m0, root, Sub(p, i)).None?
    ensures DroppedFirst(m0, root, p, i + 1, m, s, n, t)
  {
    forall f: nat ensures !Below(m0, root, Sub(p, i), f) { NothingBelow(m0, root, Sub(p, i), f); }
    DroppedNext(m0, root, p, i, m, s, n, t, n, t);
  }

  /** Freeing the table itself after everything below it. */
  lemma DroppedAll(m0: Mem, root: nat, p: Path, t: nat, m: Mem, s: set<nat>, n: Mem, free: set<nat>, o: Mem)
    requires Resolve(m0, root, p) == Some(t) && DroppedFirst(m0, root, p, 512, m, s, n, free)
    requires SameExcept(n, o, free + {t})
    ensures Dropped(m0, root, p, m, s, o, free + {t})
  {
    forall f: nat
      ensures Below(m0, root, p, f) <==> f == t || BelowFirst(m0, root, p, 512, f)
    {
      BelowSplit(m0, root, p, t, f);
    }
  }

  /** A level-1 table has no tables below it. */
  lemma NoneBelowPt(m0: Mem, root: nat, p: Path, t: nat)
    requires Resolve(m0, root, p) == Some(t) && Depth(p) == 3
    ensures forall f: nat :: Below(m0, root, p, f) <==> f == t
  {
    forall f: nat | Below(m0, root, p, f) ensures f == t {
      var q :| Extends(q, p) && Resolve(m0, root, q) == Some(f);
      NoDeepTables(m0, root, q);
      if q != p { OneEntryDeeper(q, p); }
    }
    assert Below(m0, root, p, t);
  }

  lemma OneEntryDeeper(q: Path, p: Path)
    requires Extends(q, p) && q != p
    ensures Depth(q) > Depth(p)
  {
    ExtendsDepth(q.up, p);
  }

  /** Empties a level-1 table and frees its page; the pages it mapped are left alone. */
  method FreePt(alloc: Buddy, t: nat, ghost m0: Mem, ghost root: nat, ghost p: Path)
    requires alloc.Valid() && Tree(m0, root) && Resolve(m0, root, p) == Some(t) && Depth(p) == 3
    requires Intact(m0, root, p, alloc.mem.cells, alloc.free)
    modifies alloc, alloc.mem
    ensures alloc.Valid() && Dropped(m0, root, p, old(alloc.mem.cells), old(alloc.free), alloc.mem.cells, alloc.free)
  {
    NoneBelowPt(m0, root, p, t);
    for i := 0 to 512
      invariant alloc.Valid() && alloc.free == old(alloc.free) && IsTable(At(alloc.mem.cells, t))
      invariant SameExcept(old(alloc.mem.cells), alloc.mem.cells, {t})
    {
      if EntryAt(alloc.mem.cells, t, i).present {
        alloc.StoreSafe(t, Table(At(alloc.mem.cells, t).entries[i := EMPTY]));
        alloc.mem.cells := SetEntry(alloc.mem.cells, t, i, EMPTY);
      }
    }
    alloc.FreePage(t);
  }

  /** Frees a level-2 table and the level-1 tables below it. */
  method FreePd(alloc: Buddy, t: nat, ghost m0: Mem, ghost root: nat, ghost p: Path)
    requires alloc.Valid() && Tree(m0, root) && Resolve(m0, root, p) == Some(t) && Depth(p) == 2
    requires Intact(m0, root, p, alloc.mem.cells, alloc.free)
    modifies alloc, alloc.mem
    ensures alloc.Valid() && Dropped(m0, root, p, old(alloc.mem.cells), old(alloc.free), alloc.mem.cells, alloc.free)
  {
    ghost var m, s := alloc.mem.cells, alloc.free;
    for i := 0 to 512
      invariant alloc.Valid() && DroppedFirst(m0, root, p, i, m, s, alloc.mem.cells, alloc.free)
    {
      EntryIntact(m0, root, p, t, i, m, s, alloc.mem.cells, alloc.free);
      ghost var n, u := alloc.mem.cells, alloc.free;
      var e := EntryAt(alloc.mem.cells, t, i);
      if e.present && !e.huge {
        FreePt(alloc, e.frame, m0, root, Sub(p, i));
        DroppedNext(m0, root, p, i, m, s, n, u, alloc.mem.cells, alloc.free);
      } else {
        DroppedAbsent(m0, root, p, i, m, s, n, u);
      }
    }
    EntryIntact(m0, root, p, t, 512, m, s, alloc.mem.cells, alloc.free);
    ghost var n, u := alloc.mem.cells, alloc.free;
    alloc.FreePage(t);
    DroppedAll(m0, root, p, t, m, s, n, u, alloc.mem.cells);
  }

  /** Frees a level-3 table and the tables below it. */
  method FreePdpt(alloc: Buddy, t: nat, ghost m0: Mem, ghost root: nat, ghost p: Path)
    requires alloc.Valid() && Tree(m0, root) && Resolve(m0, root, p) == Some(t) && Depth(p) == 1
    requires Intact(m0, root, p, alloc.mem.cells, alloc.free)
    modifies alloc, alloc.mem
    ensures alloc.Valid() && Dropped(m0, root, p, old(alloc.mem.cells), old(alloc.free), alloc.mem.cells, alloc.free)
  {
    ghost var m, s := alloc.mem.cells, alloc.free;
    for i := 0 to 512
      invariant alloc.Valid() && DroppedFirst(m0, root, p, i, m, s, alloc.mem.cells, alloc.free)
    {
      EntryIntact(m0, root, p, t, i, m, s, alloc.mem.cells, alloc.free);
      ghost var n, u := alloc.mem.cells, alloc.free;
      var e := EntryAt(alloc.mem.cells, t, i);
      if e.present && !e.huge {
        FreePd(alloc, e.frame, m0, root, Sub(p, i));
        DroppedNext(m0, root, p, i, m, s, n, u, alloc.mem.cells, alloc.free);
      } else {
        DroppedAbsent(m0, root, p, i, m, s, n, u);
      }
    }
    EntryIntact(m0, root, p, t, 512, m, s, alloc.mem.cells, alloc.free);
    ghost var n, u := alloc.mem.cells, alloc.free;
    alloc.FreePage(t);
    DroppedAll(m0, root, p, t, m, s, n, u, alloc.mem.cells);
  }

  /**
   * The tables below the first `i` entries of the root became free; nothing else was written but free pages and the
   * root, whose first `i` entries are now empty.
   */
  ghost predicate HalfDropped(m0: Mem, root: nat, i: nat, s: set<nat>, n: Mem, t: set<nat>) {
    && (forall f: nat :: f in t <==> f in s || BelowFirst(m0, root, Root, i, f))
    && SameExcept(m0, n, t + {root})
    && IsTable(At(n, root)) && (forall j :: i <= j < 512 ==> EntryAt(n, root, j) == EntryAt(m0, root, j))
  }

  lemma RootEntryIntact(m0: Mem, root: nat, i: nat, s: set<nat>, n: Mem, free: set<nat>)
    requires Tree(m0, root) && Intact(m0, root, Root, m0, s) && HalfDropped(m0, root, i, s, n, free)
    ensures root > 0 && root !in free && Intact(m0, root, Sub(Root, i), n, free)
  {
    var p := Root;
    assert Resolve(m0, root, p) == Some(root);
    assert Below(m0, root, p, root);
    forall j: nat ensures !Below(m0, root, Sub(p, j), root) {
      if Below(m0, root, Sub(p, j), root) { EntryApart(m0, root, p, j, root); }
    }
    forall f: nat | Below(m0, root, Sub(p, i), f) ensures f > 0 && f !in free && At(n, f) == At(m0, f) {
      EntryBelow(m0, root, p, i, f);
      EntryApart(m0, root, p, i, f);
      assert !BelowFirst(m0, root, p, i, f);
    }
  }

  lemma HalfDroppedNext(m0: Mem, root: nat, i: nat, s: set<nat>, n: Mem, t: set<nat>, o: Mem, u: set<nat>)
    requires HalfDropped(m0, root, i, s, n, t) && Dropped(m0, root, Sub(Root, i), n, t, o, u)
    requires root !in u && i < 512
    ensures IsTable(At(o, root)) && HalfDropped(m0, root, i + 1, s, SetEntry(o, root, i, EMPTY), u)
  {
    forall f: nat
      ensures BelowFirst(m0, root, Root, i + 1, f) <==>
        BelowFirst(m0, root, Root, i, f) || Below(m0, root, Sub(Root, i), f)
    {
      if BelowFirst(m0, root, Root, i + 1, f) {
        var j: nat :| j < i + 1 && Below(m0, root, Sub(Root, j), f);
        assert j < i || j == i;
      }
    }
    forall j | i + 1 <= j < 512 ensures EntryAt(SetEntry(o, root, i, EMPTY), root, j) == EntryAt(m0, root, j) {
      SetEntryReads(o, root, i, EMPTY, root, j);
      assert EntryAt(n, root, j) == EntryAt(m0, root, j);
    }
  }

  lemma HalfDroppedAbsent(m0: Mem, root: nat, i: nat, s: set<nat>, n: Mem, t: set<nat>)
    requires HalfDropped(m0, root, i, s, n, t) && Resolve(m0, root, Sub(Root, i)).None? && i < 512
    ensures HalfDropped(m0, root, i + 1, s, n, t)
  {
    forall f: nat ensures BelowFirst(m0, root, Root, i + 1, f) <==> BelowFirst(m0, root, Root, i, f) {
      NothingBelow(m0, root, Sub(Root, i), f);
      if BelowFirst(m0, root, Root, i + 1, f) {
        var j: nat :| j < i + 1 && Below(m0, root, Sub(Root, j), f);
        assert j < i || j == i;
      }
    }
  }

  /** Frees every table of the lower half and empties its 256 root entries. */
  method FreeUserTables(alloc: Buddy, root: nat)
    requires alloc.Valid() && Tree(alloc.mem.cells, root)
    requires Intact(alloc.mem.cells, root, Root, alloc.mem.cells, alloc.free)
    modifies alloc, alloc.mem
    ensures alloc.Valid() && root > 0 && root !in alloc.free
    ensures HalfDropped(old(alloc.mem.cells), root, 256, old(alloc.free), alloc.mem.cells, alloc.free)
  {
    ghost var m0, s := alloc.mem.cells, alloc.free;
    assert Resolve(m0, root, Root) == Some(root);
    for i := 0 to 256
      invariant alloc.Valid() && HalfDropped(m0, root, i, s, alloc.mem.cells, alloc.free)
    {
      RootEntryIntact(m0, root, i, s, alloc.mem.cells, alloc.free);
      ghost var n, u := alloc.mem.cells, alloc.free;
      var e := EntryAt(alloc.mem.cells, root, i);
      assert !EntryAt(m0, root, i).huge;
      if e.present {
        FreePdpt(alloc, e.frame, m0, root, Sub(Root, i));
        RootNotBelow(m0, root, i, n, u, alloc.mem.cells, alloc.free);
        HalfDroppedNext(m0, root, i, s, n, u, alloc.mem.cells, alloc.free);
        alloc.StoreSafe(root, Table(At(alloc.mem.cells, root).entries[i := EMPTY]));
        alloc.mem.cells := SetEntry(alloc.mem.cells, root, i, EMPTY);
      } else {
        HalfDroppedAbsent(m0, root, i, s, n, u);
      }
    }
    RootEntryIntact(m0, root, 256, s, alloc.mem.cells, alloc.free);
  }

  lemma RootNotBelow(m0: Mem, root: nat, i: nat, n: Mem, t: set<nat>, o: Mem, u: set<nat>)
    requires Tree(m0, root) && Dropped(m0, root, Sub(Root, i), n, t, o, u) && root !in t
    ensures root !in u
  {
    if Below(m0, root, Sub(Root, i), root) { EntryApart(m0, root, Root, i, root); }
  }
}
