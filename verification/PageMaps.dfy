/**
 * What a page table stands for, detached from memory: the leaf of every page and the frame of every table.
 * The layers above the page table reason about these maps only.
 */
module PageMaps {
  import opened PhysMem
  import opened BuddyAllocator
  import opened PageTable
  import opened Paging

  /** The leaf of each virtual page. */
  type Walks = imap<nat, Leaf>

  /** The frame of each table. */
  type Tabs = imap<Path, nat>

  ghost function TabsOf(m: Mem, root: nat): Tabs {
    imap q | Resolve(m, root, q).Some? :: Resolve(m, root, q).value
  }

  /** The tables under `root` form a tree that stands for `walks` and `tabs`, and none of its tables is free. */
  ghost predicate Shows(m: Mem, root: nat, walks: Walks, tabs: Tabs, free: set<nat>) {
    && Tree(m, root)
    && (forall n: nat {:trigger n in walks} :: n < PAGES ==> n in walks)
    && (forall n: nat {:trigger WalkPage(m, root, n)} :: n < PAGES ==> walks[n] == WalkPage(m, root, n))
    && (forall q {:trigger Resolve(m, root, q)} :: q in tabs <==> Resolve(m, root, q).Some?)
    && (forall q {:trigger Resolve(m, root, q)} :: q in tabs ==> Resolve(m, root, q) == Some(tabs[q]))
    && NoneFree(tabs, free) && RealFrames(tabs)
  }

  ghost predicate RealFrames(tabs: Tabs) {
    forall q {:trigger tabs[q]} {:trigger q in tabs} :: q in tabs ==> tabs[q] > 0
  }

  ghost predicate NoneFree(tabs: Tabs, free: set<nat>) {
    forall q {:trigger tabs[q]} {:trigger q in tabs} :: q in tabs ==> tabs[q] !in free
  }

  /** The path stays in the lower half of the address space. */
  predicate Low(q: Path) {
    match q
    case Root => true
    case Sub(p, i) => if p == Root then i < 256 else Low(p)
  }

  ghost predicate IsTableFrame(tabs: Tabs, f: nat) {
    exists q :: q in tabs && tabs[q] == f
  }

  /** A table of the lower half, or the root: these belong to one address space alone. */
  ghost predicate IsOwnTable(tabs: Tabs, f: nat) {
    exists q :: q in tabs && Low(q) && tabs[q] == f
  }

  /** Tables were added to the lower half only, each taken from the free pages `s`; `t` is what is left of them. */
  ghost predicate Grown(tabs: Tabs, s: set<nat>, next: Tabs, t: set<nat>) {
    && t <= s
    && (forall q :: q in tabs ==> q in next && next[q] == tabs[q])
    && (forall q :: q in next && q !in tabs ==> Low(q) && next[q] in s && next[q] !in t)
    && (forall f :: f in s && f !in t ==> IsOwnTable(next, f))
  }

  /** Only frames in `free` and the tables of the lower half differ. */
  ghost predicate WrittenOnly(m: Mem, n: Mem, tabs: Tabs, free: set<nat>) {
    forall f: nat :: f !in free && !IsOwnTable(tabs, f) ==> At(n, f) == At(m, f)
  }

  const USER_PAGES: nat := 0x8_0000_0000

  /** How many of the three tables on the way to page `k` are missing. */
  ghost function Lacking(tabs: Tabs, k: nat): nat {
    (if Sub(Root, A(k)) in tabs then 0 else 1) + (if PdOf(k) in tabs then 0 else 1) + (if PtOf(k) in tabs then 0 else 1)
  }

  /** The tables on the way to page `k` are there now, and no others were added. */
  ghost predicate WayAdded(tabs: Tabs, next: Tabs, k: nat) {
    forall q :: q in next <==> q in tabs || q in Way(k)
  }

  /** Once a page is mapped, its tables are there. */
  lemma WayComplete(n: Mem, root: nat, k: nat)
    requires Tree(n, root) && WalkPage(n, root, k).Small?
    ensures forall q :: q in Way(k) ==> q in TabsOf(n, root)
  {
    WalkEndsInPt(n, root, A(k), B(k), C(k), D(k));
    assert Resolve(n, root, PdOf(k)).Some?;
    assert Resolve(n, root, Sub(Root, A(k))).Some?;
  }

  lemma WayIsAdded(m: Mem, s: set<nat>, n: Mem, t: set<nat>, root: nat, k: nat, walks: Walks, tabs: Tabs)
    requires Shows(m, root, walks, tabs, s) && Extended(m, s, n, t, root, k)
    requires Tree(n, root) && WalkPage(n, root, k).Small?
    ensures WayAdded(tabs, TabsOf(n, root), k)
  {
    WayComplete(n, root, k);
    assert Resolve(m, root, Root) == Some(root);
    forall q ensures q in TabsOf(n, root) <==> q in tabs || q in Way(k) {
      assert q in tabs <==> Resolve(m, root, q).Some?;
    }
  }

  lemma LackingIsMissing(m: Mem, root: nat, walks: Walks, tabs: Tabs, free: set<nat>, k: nat)
    requires Shows(m, root, walks, tabs, free)
    ensures Missing(m, root, k) == Lacking(tabs, k)
  {
    assert Sub(Root, A(k)) in tabs <==> Resolve(m, root, Sub(Root, A(k))).Some?;
    assert PdOf(k) in tabs <==> Resolve(m, root, PdOf(k)).Some?;
    assert PtOf(k) in tabs <==> Resolve(m, root, PtOf(k)).Some?;
  }

  /**
   * Mapping a page succeeds if and only if it lies in no 2 MB page and as many pages are free as tables are missing.
   * Then exactly that many are used; without a 2 MB page a failure uses up all of them, with one it takes none.
   */
  ghost predicate Paid(leaf: Leaf, d: nat, s: set<nat>, t: set<nat>, ok: bool) {
    && (ok <==> !leaf.Huge? && |s| >= d)
    && (ok ==> |t| + d == |s|)
    && (!ok ==> if leaf.Huge? then t == s else t == {})
  }

  /** What the processor grants on a page is what its leaf says. */
  lemma ShownGrants(m: Mem, root: nat, walks: Walks, tabs: Tabs, free: set<nat>, k: nat)
    requires Shows(m, root, walks, tabs, free) && k < PAGES
    ensures Granted(m, root, k) == LeafPerms(walks[k])
  {
    GrantedIsLeaf(m, root, k);
  }

  lemma ShownTables(m: Mem, root: nat, walks: Walks, tabs: Tabs, free: set<nat>)
    requires Shows(m, root, walks, tabs, free)
    ensures TablesAvoid(m, root, free)
  {
  }

  lemma WayIsOwn(m: Mem, root: nat, walks: Walks, tabs: Tabs, free: set<nat>, k: nat, f: nat)
    requires Shows(m, root, walks, tabs, free) && k < USER_PAGES && f in PathTables(m, root, k)
    ensures IsOwnTable(tabs, f)
  {
    assert A(k) < 256;
    var q :| q in {Root, Sub(Root, A(k)), PdOf(k), PtOf(k)} && Resolve(m, root, q) == Some(f);
    assert Low(Root) && Low(Sub(Root, A(k))) && Low(PdOf(k)) && Low(PtOf(k));
    assert Low(q) && q in tabs && tabs[q] == f;
  }

  lemma WayWritten(m: Mem, s: set<nat>, n: Mem, root: nat, k: nat, walks: Walks, tabs: Tabs)
    requires Shows(m, root, walks, tabs, s) && k < USER_PAGES && SameExcept(m, n, s + PathTables(m, root, k))
    ensures WrittenOnly(m, n, tabs, s)
  {
    forall f: nat | f !in s && !IsOwnTable(tabs, f) ensures At(n, f) == At(m, f) {
      if f in PathTables(m, root, k) { WayIsOwn(m, root, walks, tabs, s, k, f); }
    }
  }

  /** What mapping a user page does, from the page-table view to the maps. */
  lemma MapShown(m: Mem, s: set<nat>, n: Mem, t: set<nat>, root: nat, k: nat, leaf: Leaf, walks: Walks, tabs: Tabs)
    requires Shows(m, root, walks, tabs, s) && k < USER_PAGES && 0 !in s
    requires Tree(n, root) && TablesAvoid(n, root, t) && Extended(m, s, n, t, root, k) && Remapped(m, n, root, k, leaf)
    ensures Shows(n, root, walks[k := leaf], TabsOf(n, root), t)
    ensures Grown(tabs, s, TabsOf(n, root), t) && WrittenOnly(m, n, tabs, s)
  {
    GrownFrom(m, s, n, t, root, k, walks, tabs);
    GrownReal(tabs, s, TabsOf(n, root), t);
    WayWritten(m, s, n, root, k, walks, tabs);
  }

  lemma GrownFrom(m: Mem, s: set<nat>, n: Mem, t: set<nat>, root: nat, k: nat, walks: Walks, tabs: Tabs)
    requires Shows(m, root, walks, tabs, s) && k < USER_PAGES && Extended(m, s, n, t, root, k)
    ensures Grown(tabs, s, TabsOf(n, root), t)
  {
    var next := TabsOf(n, root);
    assert A(k) < 256;
    assert Low(Root) && Low(Sub(Root, A(k))) && Low(PdOf(k)) && Low(PtOf(k));
    forall q | q in tabs ensures q in next && next[q] == tabs[q] { assert Resolve(m, root, q) == Some(tabs[q]); }
    forall q | q in next && q !in tabs
      ensures Low(q) && next[q] in s && next[q] !in t
    {
      assert Resolve(m, root, q).None?;
    }
    forall f | f in s && f !in t ensures IsOwnTable(next, f) {
      assert BecameTable(m, n, root, f);
      var q :| NewTable(m, n, root, q, f);
      assert NewTable(m, n, root, q, f);
      assert q in next && Low(q) && next[q] == f;
    }
  }

  lemma GrownReal(tabs: Tabs, s: set<nat>, next: Tabs, t: set<nat>)
    requires RealFrames(tabs) && 0 !in s && Grown(tabs, s, next, t)
    ensures RealFrames(next)
  {
    forall q | q in next ensures next[q] > 0 { assert q !in tabs ==> next[q] in s; }
  }

  /** A failed mapping may have added tables but shows the same leaves. */
  lemma FailedMapShown(m: Mem, s: set<nat>, n: Mem, t: set<nat>, root: nat, k: nat, walks: Walks, tabs: Tabs)
    requires Shows(m, root, walks, tabs, s) && k < USER_PAGES && 0 !in s
    requires Tree(n, root) && TablesAvoid(n, root, t) && Extended(m, s, n, t, root, k) && SameWalks(m, n, root)
    ensures Shows(n, root, walks, TabsOf(n, root), t)
    ensures Grown(tabs, s, TabsOf(n, root), t) && WrittenOnly(m, n, tabs, s)
  {
    GrownFrom(m, s, n, t, root, k, walks, tabs);
    GrownReal(tabs, s, TabsOf(n, root), t);
    WayWritten(m, s, n, root, k, walks, tabs);
  }

  /** Only frames in `free` and tables differ. */
  ghost predicate TablesWritten(m: Mem, n: Mem, tabs: Tabs, free: set<nat>) {
    forall f: nat :: f !in free && !IsTableFrame(tabs, f) ==> At(n, f) == At(m, f)
  }

  lemma WayIsTable(m: Mem, root: nat, walks: Walks, tabs: Tabs, free: set<nat>, k: nat, f: nat)
    requires Shows(m, root, walks, tabs, free) && f in PathTables(m, root, k)
    ensures IsTableFrame(tabs, f)
  {
    var q :| q in {Root, Sub(Root, A(k)), PdOf(k), PtOf(k)} && Resolve(m, root, q) == Some(f);
    assert q in tabs && tabs[q] == f;
  }

  /** What unmapping a page does. */
  lemma UnmapShown(m: Mem, s: set<nat>, n: Mem, root: nat, k: nat, walks: Walks, tabs: Tabs)
    requires Shows(m, root, walks, tabs, s) && k < PAGES
    requires Tree(n, root) && Remapped(m, n, root, k, Unmapped) && SameExcept(m, n, PathTables(m, root, k))
    requires forall q :: Resolve(n, root, q) == Resolve(m, root, q)
    ensures Shows(n, root, walks[k := Unmapped], tabs, s)
    ensures TablesWritten(m, n, tabs, s) && (k < USER_PAGES ==> WrittenOnly(m, n, tabs, s))
  {
    forall f: nat | f !in s && !IsTableFrame(tabs, f) ensures At(n, f) == At(m, f) {
      if f in PathTables(m, root, k) { WayIsTable(m, root, walks, tabs, s, k, f); }
    }
    if k < USER_PAGES { WayWritten(m, s, n, root, k, walks, tabs); }
  }

  /** Writes that touch none of a page table's frames leave what it stands for alone, whatever is free afterwards. */
  lemma ShownFramed(m: Mem, n: Mem, root: nat, walks: Walks, tabs: Tabs, s: set<nat>, t: set<nat>)
    requires Shows(m, root, walks, tabs, s)
    requires forall q :: q in tabs ==> At(n, tabs[q]) == At(m, tabs[q]) && tabs[q] !in t
    ensures Shows(n, root, walks, tabs, t)
  {
    forall q ensures Resolve(n, root, q) == Resolve(m, root, q) {
      forall r | Resolve(m, root, r).Some?
        ensures At(n, Resolve(m, root, r).value) == At(m, Resolve(m, root, r).value)
      {
        assert r in tabs;
      }
      ResolveFramed(m, n, root, q);
    }
    FramedTree(m, n, root);
    forall k: nat | k < PAGES ensures WalkPage(n, root, k) == walks[k] {
      assert WalkPage(m, root, k) == walks[k];
      FramedWalk(m, n, root, A(k), B(k), C(k), D(k));
    }
  }

  lemma FramedTree(m: Mem, n: Mem, root: nat)
    requires Tree(m, root) && forall q :: Resolve(n, root, q) == Resolve(m, root, q)
    requires forall q :: Resolve(m, root, q).Some? ==>
      At(n, Resolve(m, root, q).value) == At(m, Resolve(m, root, q).value)
    ensures Tree(n, root)
  {
    forall p, i | Resolve(n, root, p).Some? && Depth(p) < 2 ensures !EntryAt(n, Resolve(n, root, p).value, i).huge {
      assert At(n, Resolve(m, root, p).value) == At(m, Resolve(m, root, p).value);
      assert !EntryAt(m, Resolve(m, root, p).value, i).huge;
    }
    forall p, q | Resolve(n, root, p).Some? && Resolve(n, root, p) == Resolve(n, root, q) ensures p == q {
      assert Resolve(m, root, p) == Resolve(m, root, q);
    }
    OpenFramed(m, n, root);
  }

  lemma FramedWalk(m: Mem, n: Mem, root: nat, a: nat, b: nat, c: nat, d: nat)
    requires Tree(m, root) && Tree(n, root) && a < 512 && b < 512 && c < 512
    requires forall q :: Resolve(n, root, q) == Resolve(m, root, q)
    requires forall q :: Resolve(m, root, q).Some? ==>
      At(n, Resolve(m, root, q).value) == At(m, Resolve(m, root, q).value)
    ensures Walk(n, root, a, b, c, d) == Walk(m, root, a, b, c, d)
  {
    WalkByPaths(m, root, a, b, c, d);
    WalkByPaths(n, root, a, b, c, d);
    var pd := Resolve(m, root, PdPath(a, b));
    var pt := Resolve(m, root, PtPath(a, b, c));
    assert pd.Some? ==> At(n, pd.value) == At(m, pd.value);
    assert pt.Some? ==> At(n, pt.value) == At(m, pt.value);
  }
}
