/** Root tables that share the tables of the upper half, and the root of a new user address space. */
module UpperHalf {
  import opened PhysMem
  import opened BuddyAllocator
  import opened PageTable
  import opened Paging
  import opened PageMaps
  import opened UserMemory
  import opened Isolation

  /** Memory after the entries 256 to 511 of root `f` have been copied from root `k`. */
  function WithUpper(m: Mem, f: nat, k: nat): Mem
    requires IsTable(At(m, f)) && IsTable(At(m, k))
  {
    m[f := Table(At(m, f).entries[..256] + At(m, k).entries[256..])]
  }

  /** The tables of the lower half of `f` are not upper tables of `k`. */
  ghost predicate HalvesApart(m: Mem, f: nat, k: nat) {
    forall p, q :: Low(p) && !Low(q) && Resolve(m, f, p).Some? ==> Resolve(m, f, p) != Resolve(m, k, q)
  }

  lemma UpperEntries(m: Mem, f: nat, k: nat, i: nat)
    requires IsTable(At(m, f)) && IsTable(At(m, k))
    ensures EntryAt(WithUpper(m, f, k), f, i) == if i < 256 then EntryAt(m, f, i) else EntryAt(m, k, i)
  {
  }

  lemma {:induction false} UpperPaths(m: Mem, f: nat, k: nat, q: Path)
    requires Tree(m, f) && Tree(m, k) && IsTable(At(m, f)) && IsTable(At(m, k)) && HalvesApart(m, f, k)
    ensures Resolve(WithUpper(m, f, k), f, q) == if Low(q) then Resolve(m, f, q) else Resolve(m, k, q)
  {
    match q
    case Root =>
    case Sub(r, i) =>
      UpperPaths(m, f, k, r);
      assert Low(Root) && Resolve(m, f, Root) == Some(f) && Resolve(m, k, Root) == Some(k);
      UpperEntries(m, f, k, i);
      assert r != Root && Low(r) ==> Resolve(m, f, r) != Some(f);
      assert !Low(r) ==> Resolve(m, k, r) != Some(f);
  }

  lemma UpperTree(m: Mem, f: nat, k: nat)
    requires Tree(m, f) && Tree(m, k) && IsTable(At(m, f)) && IsTable(At(m, k)) && HalvesApart(m, f, k)
    ensures Tree(WithUpper(m, f, k), f)
    ensures forall q :: Resolve(WithUpper(m, f, k), f, q) == if Low(q) then Resolve(m, f, q) else Resolve(m, k, q)
  {
    var n := WithUpper(m, f, k);
    forall q
      ensures Resolve(n, f, q) == if Low(q) then Resolve(m, f, q) else Resolve(m, k, q)
    {
      UpperPaths(m, f, k, q);
    }
    forall p, i | Resolve(n, f, p).Some? && Depth(p) < 2 ensures !EntryAt(n, Resolve(n, f, p).value, i).huge {
      UpperNotHuge(m, f, k, p, Resolve(n, f, p).value, i);
    }
    forall p, q | Resolve(n, f, p).Some? && Resolve(n, f, p) == Resolve(n, f, q) ensures p == q {
      UpperInjective(m, f, k, p, q);
    }
    UpperOpen(m, f, k);
  }

  /** The tables of the joined tree: below those of `f`, above those of `k`. */
  ghost predicate Joined(m: Mem, f: nat, k: nat)
    requires IsTable(At(m, f)) && IsTable(At(m, k))
  {
    forall q :: Resolve(WithUpper(m, f, k), f, q) == if Low(q) then Resolve(m, f, q) else Resolve(m, k, q)
  }

  lemma UpperOpen(m: Mem, f: nat, k: nat)
    requires Tree(m, f) && Tree(m, k) && IsTable(At(m, f)) && IsTable(At(m, k)) && HalvesApart(m, f, k)
    requires Joined(m, f, k)
    ensures Open(WithUpper(m, f, k), f)
  {
    var n := WithUpper(m, f, k);
    forall p, i | LeadsOn(n, f, p, i)
      ensures var e := EntryAt(n, Resolve(n, f, p).value, i); e.writable && !e.noExec
    {
      UpperLeads(m, f, k, p, i);
    }
    forall p, i, j | UserAt(n, f, Sub(p, i), j) ensures UserAt(n, f, p, i) {
      UpperUser(m, f, k, p, i, j);
    }
  }

  lemma UpperLeads(m: Mem, f: nat, k: nat, p: Path, i: nat)
    requires Tree(m, f) && Tree(m, k) && IsTable(At(m, f)) && IsTable(At(m, k)) && HalvesApart(m, f, k)
    requires Joined(m, f, k) && LeadsOn(WithUpper(m, f, k), f, p, i)
    ensures var n := WithUpper(m, f, k); var e := EntryAt(n, Resolve(n, f, p).value, i); e.writable && !e.noExec
  {
    UpperEntry(m, f, k, p, i);
    assert LeadsOn(m, if Low(Sub(p, i)) then f else k, p, i);
  }

  lemma UpperUser(m: Mem, f: nat, k: nat, p: Path, i: nat, j: nat)
    requires Tree(m, f) && Tree(m, k) && IsTable(At(m, f)) && IsTable(At(m, k)) && HalvesApart(m, f, k)
    requires Joined(m, f, k) && UserAt(WithUpper(m, f, k), f, Sub(p, i), j)
    ensures UserAt(WithUpper(m, f, k), f, p, i)
  {
    var g := if Low(Sub(p, i)) then f else k;
    UpperEntry(m, f, k, Sub(p, i), j);
    UpperEntry(m, f, k, p, i);
    assert Low(Sub(Sub(p, i), j)) == Low(Sub(p, i));
    assert UserAt(m, g, Sub(p, i), j);
    assert UserAt(m, g, p, i);
  }

  /** An entry of the joined tree is one of the lower half of `f` or of the upper half of `k`. */
  lemma UpperEntry(m: Mem, f: nat, k: nat, p: Path, i: nat)
    requires Tree(m, f) && Tree(m, k) && IsTable(At(m, f)) && IsTable(At(m, k)) && HalvesApart(m, f, k)
    requires Joined(m, f, k) && Resolve(WithUpper(m, f, k), f, p).Some?
    ensures var g := if Low(Sub(p, i)) then f else k;
      && Resolve(m, g, p).Some?
      && EntryAt(WithUpper(m, f, k), Resolve(WithUpper(m, f, k), f, p).value, i) ==
         EntryAt(m, Resolve(m, g, p).value, i)
  {
    var n := WithUpper(m, f, k);
    assert Resolve(m, f, Root) == Some(f) && Resolve(m, k, Root) == Some(k);
    if p == Root {
      UpperEntries(m, f, k, i);
    } else {
      assert Low(Sub(p, i)) == Low(p);
      assert Low(p) ==> Resolve(m, f, p) != Some(f);
      assert Low(Root) && !Low(p) ==> Resolve(m, k, p) != Some(f);
      assert At(n, Resolve(n, f, p).value) == At(m, Resolve(n, f, p).value);
    }
  }

  lemma UpperNotHuge(m: Mem, f: nat, k: nat, p: Path, u: nat, i: nat)
    requires Tree(m, f) && Tree(m, k) && IsTable(At(m, f)) && IsTable(At(m, k)) && Depth(p) < 2
    requires if Low(p) then Resolve(m, f, p) == Some(u) else Resolve(m, k, p) == Some(u)
    ensures !EntryAt(WithUpper(m, f, k), u, i).huge
  {
    if u == f {
      UpperEntries(m, f, k, i);
      assert Resolve(m, f, Root) == Some(f) && Resolve(m, k, Root) == Some(k);
      assert !EntryAt(m, f, i).huge && !EntryAt(m, k, i).huge;
    } else {
      assert At(WithUpper(m, f, k), u) == At(m, u);
      assert !EntryAt(m, u, i).huge;
    }
  }

  lemma UpperInjective(m: Mem, f: nat, k: nat, p: Path, q: Path)
    requires Tree(m, f) && Tree(m, k) && HalvesApart(m, f, k)
    requires
      var a := if Low(p) then Resolve(m, f, p) else Resolve(m, k, p);
      var b := if Low(q) then Resolve(m, f, q) else Resolve(m, k, q);
      a.Some? && a == b
    ensures p == q
  {
  }

  lemma HalfOf(n: nat)
    requires n < PAGES
    ensures A(n) < 256 <==> n < USER_PAGES
    ensures Low(PdOf(n)) == Low(PtOf(n)) == (n < USER_PAGES)
  {
    assert Low(Sub(Root, A(n))) == (A(n) < 256);
  }

  lemma UpperWalk(m: Mem, f: nat, k: nat, n: nat)
    requires Tree(m, f) && Tree(m, k) && IsTable(At(m, f)) && IsTable(At(m, k)) && HalvesApart(m, f, k) && n < PAGES
    ensures WalkPage(WithUpper(m, f, k), f, n) == if n < USER_PAGES then WalkPage(m, f, n) else WalkPage(m, k, n)
  {
    var w := WithUpper(m, f, k);
    UpperTree(m, f, k);
    HalfOf(n);
    WalkByPaths(w, f, A(n), B(n), C(n), D(n));
    WalkByPaths(m, f, A(n), B(n), C(n), D(n));
    WalkByPaths(m, k, A(n), B(n), C(n), D(n));
    assert Low(Root) && Resolve(m, f, Root) == Some(f);
    assert Resolve(w, f, PdOf(n)) != Some(f) && Resolve(w, f, PtOf(n)) != Some(f);
  }

  /** What the address space at `f` becomes when it takes over the upper half of the one at `k`. */
  lemma UpperShown(m: Mem, s: set<nat>, x: Space, z: Space)
    requires Shows(m, x.root, x.walks, x.tabs, s) && Shows(m, z.root, z.walks, z.tabs, s)
    requires forall p, q :: Low(p) && !Low(q) && p in x.tabs && q in z.tabs ==> x.tabs[p] != z.tabs[q]
    ensures IsTable(At(m, x.root)) && IsTable(At(m, z.root))
    ensures var n := WithUpper(m, x.root, z.root);
      Shows(n, x.root, UpperWalks(x.walks, z.walks), UpperTabs(x.tabs, z.tabs), s)
  {
    var f, k := x.root, z.root;
    assert Resolve(m, f, Root) == Some(f) && Resolve(m, k, Root) == Some(k);
    forall p, q | Low(p) && !Low(q) && Resolve(m, f, p).Some? ensures Resolve(m, f, p) != Resolve(m, k, q) {
      assert p in x.tabs && (Resolve(m, k, q).Some? ==> q in z.tabs);
    }
    UpperTree(m, f, k);
    var n := WithUpper(m, f, k);
    forall i: nat | i < PAGES ensures UpperWalks(x.walks, z.walks)[i] == WalkPage(n, f, i) {
      UpperWalk(m, f, k, i);
      assert x.walks[i] == WalkPage(m, f, i) && z.walks[i] == WalkPage(m, k, i);
    }
    forall q ensures (q in UpperTabs(x.tabs, z.tabs) <==> Resolve(n, f, q).Some?) &&
      (q in UpperTabs(x.tabs, z.tabs) ==> Resolve(n, f, q) == Some(UpperTabs(x.tabs, z.tabs)[q]))
    {
      assert Resolve(m, f, q).Some? <==> q in x.tabs;
      assert Resolve(m, k, q).Some? <==> q in z.tabs;
    }
  }

  /** The lower half of `w` with the upper half of `v`. */
  ghost function UpperWalks(w: Walks, v: Walks): Walks {
    imap n | (n < USER_PAGES && n in w) || (n >= USER_PAGES && n in v) :: if n < USER_PAGES then w[n] else v[n]
  }

  ghost function UpperTabs(w: Tabs, v: Tabs): Tabs {
    imap q | (Low(q) && q in w) || (!Low(q) && q in v) :: if Low(q) then w[q] else v[q]
  }

  /** The address space of a zeroed root table, with no areas. */
  ghost function EmptySpace(f: nat): Space {
    Space(f, imap n | IsPage(n) :: Unmapped, imap[Root := f], [])
  }

  predicate IsPage(n: nat) {
    n < PAGES
  }

  lemma {:induction false} EmptyPaths(m: Mem, f: nat, q: Path)
    requires At(m, f) == EMPTY_TABLE
    ensures Resolve(m, f, q) == if q == Root then Some(f) else None
  {
    if q.Sub? { EmptyPaths(m, f, q.up); }
  }

  lemma EmptyShows(m: Mem, f: nat, free: set<nat>)
    requires At(m, f) == EMPTY_TABLE && f > 0 && f !in free
    ensures var x := EmptySpace(f); Shows(m, f, x.walks, x.tabs, free)
  {
    forall q ensures Resolve(m, f, q) == if q == Root then Some(f) else None { EmptyPaths(m, f, q); }
  }

  lemma NewSpaceShown(m: Mem, f: nat, t: set<nat>, kernel: Space)
    requires At(m, f) == EMPTY_TABLE && f > 0 && f !in t && Shows(m, kernel.root, kernel.walks, kernel.tabs, t)
    requires !IsTableFrame(kernel.tabs, f)
    ensures IsTable(At(m, f)) && IsTable(At(m, kernel.root)) && kernel.root != f
    ensures SpaceOk(WithUpper(m, f, kernel.root), t, NewSpace(f, kernel))
  {
    EmptyShows(m, f, t);
    assert Resolve(m, kernel.root, Root) == Some(kernel.root);
    UpperShown(m, t, EmptySpace(f), kernel);
  }

  /** A new address space: an empty lower half under root `f`, and the upper half of `kernel`. */
  ghost function NewSpace(f: nat, kernel: Space): Space {
    var x := EmptySpace(f);
    Space(f, UpperWalks(x.walks, kernel.walks), UpperTabs(x.tabs, kernel.tabs), [])
  }

  lemma NewSpaceBuilt(m: Mem, s: set<nat>, n: Mem, f: nat, kernel: Space)
    requires SpaceOk(m, s, kernel) && f in s && SameExcept(m, n, s)
    ensures BuiltFrom(m, s, kernel, n, s - {f}, NewSpace(f, kernel)) && SpentOn(s, s - {f}, NewSpace(f, kernel))
  {
    var x := NewSpace(f, kernel);
    OwnsRootOnly(f, kernel);
    forall g: nat | g !in s ensures !Owns(x, g) && (Uses(x, g) ==> Uses(kernel, g) && !Owns(kernel, g)) {
      if Uses(x, g) {
        var q :| q in x.tabs && x.tabs[q] == g;
        UpperNotOwned(m, s, kernel, q);
      }
    }
  }

  lemma OwnsRootOnly(f: nat, kernel: Space)
    ensures forall g: nat :: Owns(NewSpace(f, kernel), g) <==> g == f
  {
    var x := NewSpace(f, kernel);
    assert Low(Root) && Root in x.tabs && x.tabs[Root] == f;
    forall g: nat ensures IsOwnTable(x.tabs, g) <==> g == f {
      if IsOwnTable(x.tabs, g) {
        var q :| q in x.tabs && Low(q) && x.tabs[q] == g;
        assert q in EmptySpace(f).tabs;
      }
    }
    forall k: nat ensures UserFrame(x.walks, x.areas, k).None? {}
  }

  /** The tables of the upper half belong to no address space alone. */
  lemma UpperNotOwned(m: Mem, s: set<nat>, x: Space, q: Path)
    requires SpaceOk(m, s, x) && q in x.tabs && !Low(q)
    ensures Uses(x, x.tabs[q]) && !Owns(x, x.tabs[q])
  {
    var f := x.tabs[q];
    assert IsTableFrame(x.tabs, f);
    forall p | p in x.tabs ensures x.tabs[p] == f ==> p == q {
      assert Resolve(m, x.root, p) == Some(x.tabs[p]) && Resolve(m, x.root, q) == Some(f);
    }
    forall n: nat ensures UserFrame(x.walks, x.areas, n) != Some(f) {
      assert UserFrame(x.walks, x.areas, n).Some? ==> GoodFrame(m, x.tabs, s, UserFrame(x.walks, x.areas, n).value);
    }
  }

  /** Copies the entries of the upper half from root `k` to root `f`. */
  method CopyUpper(ghost alloc: Buddy, mem: Memory, f: nat, k: nat)
    requires alloc.mem == mem && alloc.Valid() && f !in alloc.free && f != k && IsTable(At(mem.cells, f))
    requires IsTable(At(mem.cells, k))
    modifies mem
    ensures alloc.Valid() && mem.cells == WithUpper(old(mem.cells), f, k)
  {
    ghost var es, ks := At(mem.cells, f).entries, At(mem.cells, k).entries;
    assert es[..256] + ks[256..256] + es[256..] == es;
    assert mem.cells == mem.cells[f := Table(es)];
    for i := 256 to 512
      invariant alloc.Valid() && mem.cells == old(mem.cells)[f := Table(es[..256] + ks[256..i] + es[i..])]
    {
      var e := EntryAt(mem.cells, k, i);
      assert (es[..256] + ks[256..i] + es[i..])[i := e] == es[..256] + ks[256..i + 1] + es[i + 1..];
      alloc.StoreSafe(f, Table(At(mem.cells, f).entries[i := e]));
      mem.cells := SetEntry(mem.cells, f, i, e);
    }
    assert es[..256] + ks[256..512] + es[512..] == es[..256] + ks[256..];
  }

  /** A root table for a new user address space: nothing below, the kernel's tables above. */
  method NewUser(alloc: Buddy, kernelPml4: nat, ghost kernel: Space)
    returns (r: Option<PageTableManager>, ghost x: Space)
    requires alloc.Valid() && SpaceOk(alloc.mem.cells, alloc.free, kernel) && kernel.root == kernelPml4
    modifies alloc, alloc.mem
    ensures alloc.Valid() && (r.None? <==> old(alloc.free) == {})
    ensures r.None? ==> alloc.free == {} && alloc.mem.cells == old(alloc.mem.cells)
    ensures r.Some? ==> fresh(r.value) && r.value.mem == alloc.mem && x == NewSpace(r.value.pml4, kernel)
    ensures r.Some? ==> SpaceOk(alloc.mem.cells, alloc.free, x)
    ensures r.Some? ==> BuiltFrom(old(alloc.mem.cells), old(alloc.free), kernel, alloc.mem.cells, alloc.free, x)
    ensures r.Some? ==> SpentOn(old(alloc.free), alloc.free, x)
  {
    ghost var m, s := alloc.mem.cells, alloc.free;
    x := kernel;
    var page := alloc.AllocPage();
    if page.None? { return None, x; }
    var f := page.value;
    alloc.StoreSafe(f, EMPTY_TABLE);
    alloc.mem.cells := alloc.mem.cells[f := EMPTY_TABLE];
    ghost var m1 := alloc.mem.cells;
    ShownFramed(m, m1, kernelPml4, kernel.walks, kernel.tabs, s, alloc.free);
    NewSpaceShown(m1, f, alloc.free, kernel);
    CopyUpper(alloc, alloc.mem, f, kernelPml4);
    NewSpaceBuilt(m, s, alloc.mem.cells, f, kernel);
    x := NewSpace(f, kernel);
    var pt := new PageTableManager(alloc.mem, f);
    return Some(pt), x;
  }
}
