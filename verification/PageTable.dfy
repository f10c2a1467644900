/**
 * The 4-level page table as a value: a radix tree whose nodes are the 512-entry tables held in frames.
 * Level 4 is the root; a level-2 entry may map a 2 MB page, a level-1 entry maps a 4 KB page
 * (section 4.5 of Intel SDM volume 3A).
 */
module PageTable {
  import opened Division
  import opened PhysMem
  import opened BuddyAllocator

  const EMPTY: Entry := Entry(false, false, false, false, false, 0)
  const EMPTY_TABLE: Cell := Table(seq(512, _ => EMPTY))

  /** A table is named by the indices that lead to it from the root. */
  datatype Path = Root | Sub(up: Path, i: nat)

  function Depth(p: Path): nat {
    match p
    case Root => 0
    case Sub(q, _) => Depth(q) + 1
  }

  predicate IsTable(c: Cell) {
    c.Table? && |c.entries| == 512
  }

  function EntryAt(m: Mem, t: nat, i: nat): Entry {
    if IsTable(At(m, t)) && i < 512 then At(m, t).entries[i] else EMPTY
  }

  predicate PointsToTable(e: Entry) {
    e.present && !e.huge
  }

  /** The frame of the table at path `p`, if there is one. */
  function Resolve(m: Mem, root: nat, p: Path): Option<nat> {
    match p
    case Root => Some(root)
    case Sub(q, i) =>
      var t := Resolve(m, root, q);
      if t.Some? && Depth(q) < 3 && i < 512 && PointsToTable(EntryAt(m, t.value, i))
      then Some(EntryAt(m, t.value, i).frame)
      else None
  }

  /** Entry `i` of the table at `p` is present and open to user mode. */
  ghost predicate UserAt(m: Mem, root: nat, p: Path, i: nat) {
    Resolve(m, root, p).Some? && var e := EntryAt(m, Resolve(m, root, p).value, i); e.present && e.user
  }

  /** Entry `i` of the table at `p` points to another table. */
  ghost predicate LeadsOn(m: Mem, root: nat, p: Path, i: nat) {
    Resolve(m, root, p).Some? && Depth(p) < 3 && PointsToTable(EntryAt(m, Resolve(m, root, p).value, i))
  }

  /** Whatever is writable or executable at the leaf is so on the way, and what is open to user mode is reached so. */
  ghost predicate Open(m: Mem, root: nat) {
    && (forall p, i {:trigger LeadsOn(m, root, p, i)} :: LeadsOn(m, root, p, i) ==>
          var e := EntryAt(m, Resolve(m, root, p).value, i); e.writable && !e.noExec)
    && (forall p, i, j {:trigger UserAt(m, root, Sub(p, i), j)} :: UserAt(m, root, Sub(p, i), j) ==>
          UserAt(m, root, p, i))
  }

  /** The entry that leads to the table at `p` is open to user mode. */
  ghost predicate UserAbove(m: Mem, root: nat, p: Path) {
    p.Sub? ==> UserAt(m, root, p.up, p.i)
  }

  /**
   * Every reachable node is a table, no two paths lead to the same frame, 2 MB entries occur only at level 2, and the
   * entries that point to tables take no permission away.
   */
  ghost predicate Tree(m: Mem, root: nat) {
    && (forall p :: Resolve(m, root, p).Some? ==> IsTable(At(m, Resolve(m, root, p).value)))
    && (forall p, q :: Resolve(m, root, p).Some? && Resolve(m, root, p) == Resolve(m, root, q) ==> p == q)
    && (forall p, i :: Resolve(m, root, p).Some? && Depth(p) < 2 ==> !EntryAt(m, Resolve(m, root, p).value, i).huge)
    && Open(m, root)
  }

  /** No table of this tree lies in `s`. */
  ghost predicate TablesAvoid(m: Mem, root: nat, s: set<nat>) {
    forall p :: Resolve(m, root, p).Some? ==> Resolve(m, root, p).value !in s
  }

  // ---------- Translation ----------

  const PAGE: nat := 4096
  const HUGE_PAGE: nat := 0x20_0000

  function I4(v: nat): nat { (v / 0x80_0000_0000) % 512 }
  function I3(v: nat): nat { (v / 0x4000_0000) % 512 }
  function I2(v: nat): nat { (v / 0x20_0000) % 512 }
  function I1(v: nat): nat { (v / 0x1000) % 512 }

  datatype Leaf = Unmapped | Small(frame: nat, perms: Flags) | Huge(frame: nat, perms: Flags)

  function Perms(e: Entry): Flags { Flags(e.writable, e.user, e.noExec) }

  /** What the tables say about the page with the given indices. */
  function Walk(m: Mem, root: nat, a: nat, b: nat, c: nat, d: nat): Leaf {
    var e4 := EntryAt(m, root, a);
    if !e4.present then Unmapped else
    var e3 := EntryAt(m, e4.frame, b);
    if !e3.present then Unmapped else
    var e2 := EntryAt(m, e3.frame, c);
    if !e2.present then Unmapped else
    if e2.huge then Huge(e2.frame, Perms(e2)) else
    var e1 := EntryAt(m, e2.frame, d);
    if !e1.present then Unmapped else Small(e1.frame, Perms(e1))
  }

  /** The physical byte address that virtual address `v` maps to. */
  function Translate(m: Mem, root: nat, v: nat): Option<nat> {
    match Walk(m, root, I4(v), I3(v), I2(v), I1(v))
    case Unmapped => None
    case Small(f, _) => Some(f * PAGE + v % PAGE)
    case Huge(f, _) => Some(f * PAGE + v % HUGE_PAGE)
  }

  /** Virtual pages are numbered by the 36 address bits that the tables look at. */
  const PAGES: nat := 0x10_0000_0000

  function PageOf(v: nat): nat { (v / PAGE) % PAGES }

  function A(n: nat): nat { n / 512 / 512 / 512 % 512 }
  function B(n: nat): nat { n / 512 / 512 % 512 }
  function C(n: nat): nat { n / 512 % 512 }
  function D(n: nat): nat { n % 512 }

  function WalkPage(m: Mem, root: nat, n: nat): Leaf {
    Walk(m, root, A(n), B(n), C(n), D(n))
  }

  /** The source's shifts and masks of a virtual address give the four indices of its page. */
  lemma PartsOfPage(v: nat)
    ensures I4(v) == A(PageOf(v)) && I3(v) == B(PageOf(v)) && I2(v) == C(PageOf(v)) && I1(v) == D(PageOf(v))
  {
    var x := v / 4096;
    DivDiv(v, 4096);
    DivDiv(v, 0x20_0000);
    DivDiv(v, 0x4000_0000);
    ModMod(x, 0x800_0000);
    ModDiv(x, 0x800_0000);
    ModMod(x / 512, 0x4_0000);
    ModDiv(x / 512, 0x4_0000);
    ModMod(x / 512 / 512, 0x200);
    ModDiv(x / 512 / 512, 0x200);
  }

  lemma IndicesIdentify(n: nat, k: nat)
    requires n < PAGES && k < PAGES
    ensures n == k <==> A(n) == A(k) && B(n) == B(k) && C(n) == C(k) && D(n) == D(k)
    ensures n / 512 == k / 512 <==> A(n) == A(k) && B(n) == B(k) && C(n) == C(k)
  {
    var n1, k1 := n / 512, k / 512;
    var n2, k2 := n1 / 512, k1 / 512;
    assert n2 / 512 < 512 && k2 / 512 < 512;
    assert n2 == k2 <==> n2 / 512 == k2 / 512 && n2 % 512 == k2 % 512;
    assert n1 == k1 <==> n2 == k2 && n1 % 512 == k1 % 512;
  }

  function PdOf(n: nat): Path { PdPath(A(n), B(n)) }
  function PtOf(n: nat): Path { PtPath(A(n), B(n), C(n)) }

  function PdPath(a: nat, b: nat): Path { Sub(Sub(Root, a), b) }
  function PtPath(a: nat, b: nat, c: nat): Path { Sub(PdPath(a, b), c) }

  /** The tables below the root that a walk for page `n` passes. */
  function Way(n: nat): set<Path> { {Sub(Root, A(n)), PdOf(n), PtOf(n)} }

  /** In a tree the walk reads exactly the tables on its path. */
  lemma WalkByPaths(m: Mem, root: nat, a: nat, b: nat, c: nat, d: nat)
    requires Tree(m, root) && a < 512 && b < 512 && c < 512
    ensures Walk(m, root, a, b, c, d) ==
      match Resolve(m, root, PdPath(a, b))
      case None => Unmapped
      case Some(pd) =>
        var e2 := EntryAt(m, pd, c);
        if !e2.present then Unmapped else if e2.huge then Huge(e2.frame, Perms(e2)) else
        var e1 := EntryAt(m, e2.frame, d);
        if !e1.present then Unmapped else Small(e1.frame, Perms(e1))
    ensures !Walk(m, root, a, b, c, d).Huge? && !Walk(m, root, a, b, c, d).Unmapped? ==>
      Resolve(m, root, PtPath(a, b, c)).Some? &&
      EntryAt(m, Resolve(m, root, PtPath(a, b, c)).value, d).present
  {
    assert Resolve(m, root, Root) == Some(root);
    assert !EntryAt(m, root, a).huge;
    var p := Sub(Root, a);
    if Resolve(m, root, p).Some? {
      assert !EntryAt(m, Resolve(m, root, p).value, b).huge;
    }
  }

  // ---------- What the processor grants ----------

  /** Write and user access are allowed only if both allow them; execution is forbidden if either forbids it. */
  function Both(f: Flags, g: Flags): Flags {
    Flags(f.writable && g.writable, f.user && g.user, f.noExec || g.noExec)
  }

  /** The access that all entries on the way to page `n` grant together (section 4.6 of Intel SDM volume 3A). */
  function Granted(m: Mem, root: nat, n: nat): Option<Flags> {
    var e4 := EntryAt(m, root, A(n));
    if !e4.present then None else
    var e3 := EntryAt(m, e4.frame, B(n));
    if !e3.present then None else
    var e2 := EntryAt(m, e3.frame, C(n));
    if !e2.present then None else
    var upper := Both(Perms(e4), Both(Perms(e3), Perms(e2)));
    if e2.huge then Some(upper) else
    var e1 := EntryAt(m, e2.frame, D(n));
    if !e1.present then None else Some(Both(upper, Perms(e1)))
  }

  /** Code in ring 3 may read, write, or execute page `n`. */
  predicate MayRead(m: Mem, root: nat, n: nat) {
    Granted(m, root, n).Some? && Granted(m, root, n).value.user
  }

  predicate MayWrite(m: Mem, root: nat, n: nat) {
    MayRead(m, root, n) && Granted(m, root, n).value.writable
  }

  predicate MayExecute(m: Mem, root: nat, n: nat) {
    MayRead(m, root, n) && !Granted(m, root, n).value.noExec
  }

  function LeafPerms(leaf: Leaf): Option<Flags> {
    if leaf.Unmapped? then None else Some(leaf.perms)
  }

  /** In a tree the four levels together grant what the leaf says. */
  lemma GrantedIsLeaf(m: Mem, root: nat, n: nat)
    requires Tree(m, root)
    ensures Granted(m, root, n) == LeafPerms(WalkPage(m, root, n))
  {
    var e4 := EntryAt(m, root, A(n));
    assert Resolve(m, root, Root) == Some(root);
    if e4.present {
      assert !e4.huge;
      assert LeadsOn(m, root, Root, A(n));
      var p := Sub(Root, A(n));
      assert Resolve(m, root, p) == Some(e4.frame);
      GrantedBelow(m, root, n, e4);
    }
  }

  lemma GrantedBelow(m: Mem, root: nat, n: nat, e4: Entry)
    requires Tree(m, root) && e4 == EntryAt(m, root, A(n)) && e4.present && e4.writable && !e4.noExec
    requires Resolve(m, root, Sub(Root, A(n))) == Some(e4.frame)
    ensures Granted(m, root, n) == LeafPerms(WalkPage(m, root, n))
  {
    var e3 := EntryAt(m, e4.frame, B(n));
    if e3.present {
      assert !e3.huge;
      assert LeadsOn(m, root, Sub(Root, A(n)), B(n));
      assert Resolve(m, root, PdOf(n)) == Some(e3.frame);
      var e2 := EntryAt(m, e3.frame, C(n));
      if e2.present && !e2.huge {
        assert LeadsOn(m, root, PdOf(n), C(n));
        assert Resolve(m, root, PtOf(n)) == Some(e2.frame);
        assert EntryAt(m, e2.frame, D(n)).present && EntryAt(m, e2.frame, D(n)).user ==> UserAt(m, root, PtOf(n), D(n));
      }
      assert UserAt(m, root, PtOf(n), D(n)) ==> UserAt(m, root, PdOf(n), C(n));
      assert e2.present && e2.user ==> UserAt(m, root, PdOf(n), C(n));
      assert UserAt(m, root, PdOf(n), C(n)) ==> UserAt(m, root, Sub(Root, A(n)), B(n));
      assert UserAt(m, root, Sub(Root, A(n)), B(n)) ==> UserAt(m, root, Root, A(n));
    }
  }

  /** The level-1 table that a walk of a mapped 4 KB page ends in. */
  lemma WalkEndsInPt(m: Mem, root: nat, a: nat, b: nat, c: nat, d: nat)
    requires Tree(m, root) && a < 512 && b < 512 && c < 512 && Walk(m, root, a, b, c, d).Small?
    ensures Resolve(m, root, PtPath(a, b, c)) ==
      Some(EntryAt(m, EntryAt(m, EntryAt(m, root, a).frame, b).frame, c).frame)
  {
    assert Resolve(m, root, Root) == Some(root);
    assert Resolve(m, root, Sub(Root, a)) == Some(EntryAt(m, root, a).frame);
    assert Resolve(m, root, PdPath(a, b)) == Some(EntryAt(m, EntryAt(m, root, a).frame, b).frame);
  }

  // ---------- Framing ----------

  /** Changing frames that hold none of a tree's tables changes nothing about the tree. */
  lemma {:induction false} ResolveFramed(m: Mem, m2: Mem, root: nat, p: Path)
    requires forall q :: Resolve(m, root, q).Some? ==>
      At(m2, Resolve(m, root, q).value) == At(m, Resolve(m, root, q).value)
    ensures Resolve(m2, root, p) == Resolve(m, root, p)
  {
    match p
    case Root =>
    case Sub(q, i) =>
      ResolveFramed(m, m2, root, q);
      assert Resolve(m, root, q).Some? ==> At(m2, Resolve(m, root, q).value) == At(m, Resolve(m, root, q).value);
  }

  lemma OpenFramed(m: Mem, m2: Mem, root: nat)
    requires Open(m, root) && forall p :: Resolve(m2, root, p) == Resolve(m, root, p)
    requires forall p :: Resolve(m, root, p).Some? ==>
      At(m2, Resolve(m, root, p).value) == At(m, Resolve(m, root, p).value)
    ensures Open(m2, root)
  {
    forall p, i ensures LeadsOn(m2, root, p, i) == LeadsOn(m, root, p, i) {}
    forall p, i ensures UserAt(m2, root, p, i) == UserAt(m, root, p, i) {}
    forall p, i | LeadsOn(m2, root, p, i)
      ensures var e := EntryAt(m2, Resolve(m2, root, p).value, i); e.writable && !e.noExec
    {
      assert LeadsOn(m, root, p, i);
    }
    forall p, i, j | UserAt(m2, root, Sub(p, i), j) ensures UserAt(m2, root, p, i) {
      assert UserAt(m, root, Sub(p, i), j);
    }
  }

  lemma TreeFramed(m: Mem, m2: Mem, root: nat, s: set<nat>)
    requires Tree(m, root) && TablesAvoid(m, root, s) && SameExcept(m, m2, s)
    ensures Tree(m2, root)
    ensures forall p :: Resolve(m2, root, p) == Resolve(m, root, p)
    ensures forall p, i :: Resolve(m, root, p).Some? ==>
      EntryAt(m2, Resolve(m, root, p).value, i) == EntryAt(m, Resolve(m, root, p).value, i)
  {
    forall p
      ensures Resolve(m2, root, p) == Resolve(m, root, p)
    {
      ResolveFramed(m, m2, root, p);
    }
    forall p, i | Resolve(m, root, p).Some?
      ensures EntryAt(m2, Resolve(m, root, p).value, i) == EntryAt(m, Resolve(m, root, p).value, i)
    {
      assert At(m2, Resolve(m, root, p).value) == At(m, Resolve(m, root, p).value);
    }
    OpenFramed(m, m2, root);
  }

  lemma WalkFramed(m: Mem, m2: Mem, root: nat, s: set<nat>, a: nat, b: nat, c: nat, d: nat)
    requires Tree(m, root) && TablesAvoid(m, root, s) && SameExcept(m, m2, s)
    requires a < 512 && b < 512 && c < 512
    ensures Walk(m2, root, a, b, c, d) == Walk(m, root, a, b, c, d)
  {
    TreeFramed(m, m2, root, s);
    WalkByPaths(m, root, a, b, c, d);
    WalkByPaths(m2, root, a, b, c, d);
    var pd := Resolve(m, root, PdPath(a, b));
    var pt := Resolve(m, root, PtPath(a, b, c));
    assert pd.Some? ==> EntryAt(m2, pd.value, c) == EntryAt(m, pd.value, c);
    assert pt.Some? ==> EntryAt(m2, pt.value, d) == EntryAt(m, pt.value, d);
  }

  // ---------- Writing one entry ----------

  function SetEntry(m: Mem, t: nat, i: nat, e: Entry): Mem
    requires IsTable(At(m, t)) && i < 512
  {
    m[t := Table(At(m, t).entries[i := e])]
  }

  /** `q` is `p` or lies below it. */
  predicate Extends(q: Path, p: Path) {
    q == p || (q.Sub? && Extends(q.up, p))
  }

  lemma {:induction false} ExtendsDepth(q: Path, p: Path)
    requires Extends(q, p)
    ensures Depth(p) <= Depth(q)
  {
    if q != p { ExtendsDepth(q.up, p); }
  }

  /** An entry of the table at `p` matters only to the paths that go through it. */
  lemma {:induction false} SetEntryElsewhere(m: Mem, root: nat, p: Path, i: nat, e: Entry, q: Path)
    requires Tree(m, root) && Resolve(m, root, p).Some? && i < 512
    requires !Extends(q, Sub(p, i))
    ensures Resolve(SetEntry(m, Resolve(m, root, p).value, i, e), root, q) == Resolve(m, root, q)
  {
    match q
    case Root =>
    case Sub(r, j) =>
      SetEntryElsewhere(m, root, p, i, e, r);
      assert Resolve(m, root, r) == Resolve(m, root, p) ==> r == p;
  }

  lemma {:induction false} NoDeepTables(m: Mem, root: nat, q: Path)
    ensures Resolve(m, root, q).Some? ==> Depth(q) <= 3
  {
  }

  /** Writing a level-1 entry changes no path. */
  lemma SetPageKeepsPaths(m: Mem, root: nat, p: Path, i: nat, e: Entry, q: Path)
    requires Tree(m, root) && Resolve(m, root, p).Some? && Depth(p) == 3 && i < 512
    ensures Resolve(SetEntry(m, Resolve(m, root, p).value, i, e), root, q) == Resolve(m, root, q)
  {
    if Extends(q, Sub(p, i)) {
      ExtendsDepth(q, Sub(p, i));
      NoDeepTables(m, root, q);
      NoDeepTables(SetEntry(m, Resolve(m, root, p).value, i, e), root, q);
    } else {
      SetEntryElsewhere(m, root, p, i, e, q);
    }
  }

  lemma {:induction false} UnresolvedBelow(m: Mem, root: nat, p: Path, q: Path)
    requires Resolve(m, root, p).None? && Extends(q, p)
    ensures Resolve(m, root, q).None?
  {
    if q != p { UnresolvedBelow(m, root, p, q.up); }
  }

  /** Paths after the entry has become something that is not a table. */
  lemma SetLeafPaths(m: Mem, root: nat, p: Path, i: nat, e: Entry, q: Path)
    requires Tree(m, root) && Resolve(m, root, p).Some? && i < 512 && !PointsToTable(e)
    ensures Resolve(SetEntry(m, Resolve(m, root, p).value, i, e), root, q) ==
      if Extends(q, Sub(p, i)) then None else Resolve(m, root, q)
  {
    var m2 := SetEntry(m, Resolve(m, root, p).value, i, e);
    if Extends(q, Sub(p, i)) {
      ShorterNotBelow(p, Sub(p, i));
      SetEntryElsewhere(m, root, p, i, e, p);
      UnresolvedBelow(m2, root, Sub(p, i), q);
    } else {
      SetEntryElsewhere(m, root, p, i, e, q);
    }
  }

  lemma ShorterNotBelow(q: Path, p: Path)
    requires Depth(q) < Depth(p)
    ensures !Extends(q, p)
  {
    if Extends(q, p) { ExtendsDepth(q, p); }
  }

  /** Paths after an entry that points to a table has changed only its permission bits. */
  lemma {:induction false} SetFlagsPaths(m: Mem, root: nat, p: Path, i: nat, e: Entry, q: Path)
    requires Tree(m, root) && Resolve(m, root, p).Some? && i < 512
    requires var o := EntryAt(m, Resolve(m, root, p).value, i);
      e.present == o.present && e.huge == o.huge && e.frame == o.frame
    ensures Resolve(SetEntry(m, Resolve(m, root, p).value, i, e), root, q) == Resolve(m, root, q)
  {
    match q
    case Root =>
    case Sub(r, j) =>
      SetFlagsPaths(m, root, p, i, e, r);
  }

  /** Paths after a fresh empty table `f` has been hung at an absent entry. */
  lemma {:induction false} HangTablePaths(m: Mem, root: nat, p: Path, i: nat, e: Entry, q: Path)
    requires Tree(m, root) && Resolve(m, root, p).Some? && i < 512 && Depth(p) < 3
    requires PointsToTable(e) && At(m, e.frame) == EMPTY_TABLE
    requires !EntryAt(m, Resolve(m, root, p).value, i).present
    requires forall r :: Resolve(m, root, r) != Some(e.frame)
    ensures Resolve(SetEntry(m, Resolve(m, root, p).value, i, e), root, q) ==
      if q == Sub(p, i) then Some(e.frame) else Resolve(m, root, q)
  {
    match q
    case Root =>
    case Sub(r, j) =>
      HangTablePaths(m, root, p, i, e, r);
      var t := Resolve(m, root, p).value;
      var m2 := SetEntry(m, t, i, e);
      assert t != e.frame;
      assert At(m2, e.frame) == EMPTY_TABLE;
      assert Resolve(m, root, Sub(p, i)).None?;
      assert Resolve(m, root, r) == Resolve(m, root, p) ==> r == p;
  }

  lemma SetEntryReads(m: Mem, t: nat, i: nat, e: Entry, u: nat, j: nat)
    requires IsTable(At(m, t)) && i < 512
    ensures EntryAt(SetEntry(m, t, i, e), u, j) == if u == t && j == i then e else EntryAt(m, u, j)
  {
  }

  /**
   * Entry `e` may be written at index `i` of the table at `p`: a pointer to a table takes nothing away, and what is
   * open to user mode is reached so.
   */
  ghost predicate Fitting(m: Mem, root: nat, p: Path, i: nat, e: Entry) {
    && (PointsToTable(e) && Depth(p) < 3 ==> e.writable && !e.noExec && (UserAt(m, root, p, i) ==> e.user))
    && (e.present && e.user ==> UserAbove(m, root, p))
  }

  /** A write that at most removes paths leaves what remains open. */
  lemma OpenShrinks(m: Mem, root: nat, p: Path, i: nat, e: Entry)
    requires Tree(m, root) && Resolve(m, root, p).Some? && i < 512 && Fitting(m, root, p, i, e)
    requires var m2 := SetEntry(m, Resolve(m, root, p).value, i, e);
      forall q :: Resolve(m2, root, q).Some? ==> Resolve(m2, root, q) == Resolve(m, root, q)
    ensures Open(SetEntry(m, Resolve(m, root, p).value, i, e), root)
  {
    var t := Resolve(m, root, p).value;
    var m2 := SetEntry(m, t, i, e);
    forall q, j | LeadsOn(m2, root, q, j)
      ensures var o := EntryAt(m2, Resolve(m2, root, q).value, j); o.writable && !o.noExec
    {
      SetEntryReads(m, t, i, e, Resolve(m2, root, q).value, j);
      assert Resolve(m, root, q) == Resolve(m, root, p) ==> q == p;
      assert !(q == p && j == i) ==> LeadsOn(m, root, q, j);
    }
    forall q, j, l | UserAt(m2, root, Sub(q, j), l) ensures UserAt(m2, root, q, j) {
      UserShrinks(m, root, p, i, e, q, j, l);
    }
  }

  lemma UserShrinks(m: Mem, root: nat, p: Path, i: nat, e: Entry, q: Path, j: nat, l: nat)
    requires Tree(m, root) && Resolve(m, root, p).Some? && i < 512 && Fitting(m, root, p, i, e)
    requires var m2 := SetEntry(m, Resolve(m, root, p).value, i, e);
      && (forall r :: Resolve(m2, root, r).Some? ==> Resolve(m2, root, r) == Resolve(m, root, r))
      && UserAt(m2, root, Sub(q, j), l)
    ensures UserAt(SetEntry(m, Resolve(m, root, p).value, i, e), root, q, j)
  {
    var t := Resolve(m, root, p).value;
    var m2 := SetEntry(m, t, i, e);
    var u, v := Resolve(m2, root, Sub(q, j)).value, Resolve(m2, root, q).value;
    SetEntryReads(m, t, i, e, u, l);
    SetEntryReads(m, t, i, e, v, j);
    assert Resolve(m, root, Sub(q, j)) == Resolve(m, root, p) ==> Sub(q, j) == p;
    assert Resolve(m, root, q) == Resolve(m, root, p) ==> q == p;
    assert !(Sub(q, j) == p && l == i) ==> UserAt(m, root, Sub(q, j), l);
    assert UserAt(m, root, q, j);
  }

  /** A write that at most removes paths keeps the tree a tree. */
  lemma TreeShrinks(m: Mem, root: nat, p: Path, i: nat, e: Entry)
    requires Tree(m, root) && Resolve(m, root, p).Some? && i < 512 && Fitting(m, root, p, i, e)
    requires e.huge ==> Depth(p) >= 2
    requires var m2 := SetEntry(m, Resolve(m, root, p).value, i, e);
      forall q :: Resolve(m2, root, q).Some? ==> Resolve(m2, root, q) == Resolve(m, root, q)
    ensures Tree(SetEntry(m, Resolve(m, root, p).value, i, e), root)
  {
    var t := Resolve(m, root, p).value;
    var m2 := SetEntry(m, t, i, e);
    forall q, j | Resolve(m2, root, q).Some? && Depth(q) < 2
      ensures !EntryAt(m2, Resolve(m2, root, q).value, j).huge
    {
      var u := Resolve(m2, root, q).value;
      SetEntryReads(m, t, i, e, u, j);
      assert Resolve(m, root, q) == Some(u);
      assert u == t ==> q == p;
    }
    forall q, r | Resolve(m2, root, q).Some? && Resolve(m2, root, q) == Resolve(m2, root, r)
      ensures q == r
    {
      assert Resolve(m, root, q) == Resolve(m, root, r);
    }
    OpenShrinks(m, root, p, i, e);
  }

  lemma SetPageWalk(m: Mem, root: nat, a: nat, b: nat, c: nat, d: nat, e: Entry, w: nat, x: nat, y: nat, z: nat)
    requires Tree(m, root) && a < 512 && b < 512 && c < 512 && d < 512 && !e.huge
    requires Resolve(m, root, PtPath(a, b, c)).Some? && Fitting(m, root, PtPath(a, b, c), d, e)
    requires w < 512 && x < 512 && y < 512
    ensures var m2 := SetEntry(m, Resolve(m, root, PtPath(a, b, c)).value, d, e);
      && Tree(m2, root)
      && Walk(m2, root, w, x, y, z) ==
           if w == a && x == b && y == c && z == d then (if e.present then Small(e.frame, Perms(e)) else Unmapped)
           else Walk(m, root, w, x, y, z)
  {
    var p := PtPath(a, b, c);
    var t := Resolve(m, root, p).value;
    var m2 := SetEntry(m, t, d, e);
    forall q ensures Resolve(m2, root, q) == Resolve(m, root, q) {
      SetPageKeepsPaths(m, root, p, d, e, q);
    }
    TreeShrinks(m, root, p, d, e);
    WalkByPaths(m, root, w, x, y, z);
    WalkByPaths(m2, root, w, x, y, z);
    var pd := Resolve(m, root, PdPath(w, x));
    var pt := Resolve(m, root, PtPath(w, x, y));
    if pd.Some? {
      assert pd != Resolve(m, root, p);
      SetEntryReads(m, t, d, e, pd.value, y);
    }
    if pt.Some? {
      assert pt == Resolve(m, root, p) ==> PtPath(w, x, y) == p;
      SetEntryReads(m, t, d, e, pt.value, z);
    }
  }

  /** Writing a level-1 entry changes the translation of one 4 KB page and of nothing else. */
  lemma SetPageEffect(m: Mem, root: nat, k: nat, e: Entry)
    requires Tree(m, root) && k < PAGES && !e.huge
    requires Resolve(m, root, PtOf(k)).Some? && Fitting(m, root, PtOf(k), D(k), e)
    ensures var m2 := SetEntry(m, Resolve(m, root, PtOf(k)).value, D(k), e);
      && Tree(m2, root)
      && (forall q :: Resolve(m2, root, q) == Resolve(m, root, q))
      && (forall n: nat :: n < PAGES ==>
            WalkPage(m2, root, n) ==
            (if n == k then (if e.present then Small(e.frame, Perms(e)) else Unmapped) else WalkPage(m, root, n)))
  {
    var m2 := SetEntry(m, Resolve(m, root, PtOf(k)).value, D(k), e);
    forall q ensures Resolve(m2, root, q) == Resolve(m, root, q) {
      SetPageKeepsPaths(m, root, PtOf(k), D(k), e, q);
    }
    SetPageWalk(m, root, A(k), B(k), C(k), D(k), e, 0, 0, 0, 0);
    forall n: nat | n < PAGES
      ensures WalkPage(m2, root, n) ==
              (if n == k then (if e.present then Small(e.frame, Perms(e)) else Unmapped) else WalkPage(m, root, n))
    {
      SetPageWalk(m, root, A(k), B(k), C(k), D(k), e, A(n), B(n), C(n), D(n));
      IndicesIdentify(n, k);
    }
  }

  /** Hanging an empty table changes no translation. */
  lemma HangTableEffect(m: Mem, root: nat, p: Path, i: nat, e: Entry)
    requires Tree(m, root) && Resolve(m, root, p).Some? && i < 512 && Depth(p) < 3
    requires PointsToTable(e) && At(m, e.frame) == EMPTY_TABLE
    requires !EntryAt(m, Resolve(m, root, p).value, i).present && Fitting(m, root, p, i, e)
    requires forall r :: Resolve(m, root, r) != Some(e.frame)
    ensures var m2 := SetEntry(m, Resolve(m, root, p).value, i, e);
      && Tree(m2, root)
      && (forall q :: Resolve(m2, root, q) == if q == Sub(p, i) then Some(e.frame) else Resolve(m, root, q))
      && (forall n: nat :: n < PAGES ==> WalkPage(m2, root, n) == WalkPage(m, root, n))
  {
    var t := Resolve(m, root, p).value;
    var m2 := SetEntry(m, t, i, e);
    forall q ensures Resolve(m2, root, q) == if q == Sub(p, i) then Some(e.frame) else Resolve(m, root, q) {
      HangTablePaths(m, root, p, i, e, q);
    }
    assert Resolve(m, root, p) != Some(e.frame);
    HangTableTree(m, root, p, i, e);
    forall n: nat | n < PAGES
      ensures WalkPage(m2, root, n) == WalkPage(m, root, n)
    {
      HangTableWalk(m, root, p, i, e, A(n), B(n), C(n), D(n));
    }
  }

  lemma HangTableOpen(m: Mem, root: nat, p: Path, i: nat, e: Entry)
    requires Tree(m, root) && Resolve(m, root, p).Some? && i < 512 && Depth(p) < 3 && Fitting(m, root, p, i, e)
    requires PointsToTable(e) && At(m, e.frame) == EMPTY_TABLE && Resolve(m, root, p).value != e.frame
    requires forall r :: Resolve(m, root, r) != Some(e.frame)
    requires var m2 := SetEntry(m, Resolve(m, root, p).value, i, e);
      forall q :: Resolve(m2, root, q) == if q == Sub(p, i) then Some(e.frame) else Resolve(m, root, q)
    ensures Open(SetEntry(m, Resolve(m, root, p).value, i, e), root)
  {
    var t := Resolve(m, root, p).value;
    var m2 := SetEntry(m, t, i, e);
    forall q, j | LeadsOn(m2, root, q, j)
      ensures var o := EntryAt(m2, Resolve(m2, root, q).value, j); o.writable && !o.noExec
    {
      SetEntryReads(m, t, i, e, Resolve(m2, root, q).value, j);
      assert q != Sub(p, i);
      assert Resolve(m, root, q) == Resolve(m, root, p) ==> q == p;
      assert !(q == p && j == i) ==> LeadsOn(m, root, q, j);
    }
    forall q, j, l | UserAt(m2, root, Sub(q, j), l) ensures UserAt(m2, root, q, j) {
      UserHung(m, root, p, i, e, q, j, l);
    }
  }

  lemma UserHung(m: Mem, root: nat, p: Path, i: nat, e: Entry, q: Path, j: nat, l: nat)
    requires Tree(m, root) && Resolve(m, root, p).Some? && i < 512 && Depth(p) < 3 && Fitting(m, root, p, i, e)
    requires PointsToTable(e) && At(m, e.frame) == EMPTY_TABLE && Resolve(m, root, p).value != e.frame
    requires forall r :: Resolve(m, root, r) != Some(e.frame)
    requires var m2 := SetEntry(m, Resolve(m, root, p).value, i, e);
      && (forall r :: Resolve(m2, root, r) == if r == Sub(p, i) then Some(e.frame) else Resolve(m, root, r))
      && UserAt(m2, root, Sub(q, j), l)
    ensures UserAt(SetEntry(m, Resolve(m, root, p).value, i, e), root, q, j)
  {
    var t := Resolve(m, root, p).value;
    var m2 := SetEntry(m, t, i, e);
    var u, v := Resolve(m2, root, Sub(q, j)).value, Resolve(m2, root, q).value;
    SetEntryReads(m, t, i, e, u, l);
    SetEntryReads(m, t, i, e, v, j);
    assert Sub(q, j) != Sub(p, i);
    assert Resolve(m, root, Sub(q, j)) == Resolve(m, root, p) ==> Sub(q, j) == p;
    assert Resolve(m, root, q) == Resolve(m, root, p) ==> q == p;
    assert !(Sub(q, j) == p && l == i) ==> UserAt(m, root, Sub(q, j), l);
    assert UserAt(m, root, q, j);
  }

  lemma HangTableTree(m: Mem, root: nat, p: Path, i: nat, e: Entry)
    requires Tree(m, root) && Resolve(m, root, p).Some? && i < 512 && Depth(p) < 3 && Fitting(m, root, p, i, e)
    requires PointsToTable(e) && At(m, e.frame) == EMPTY_TABLE && Resolve(m, root, p).value != e.frame
    requires forall r :: Resolve(m, root, r) != Some(e.frame)
    requires var m2 := SetEntry(m, Resolve(m, root, p).value, i, e);
      forall q :: Resolve(m2, root, q) == if q == Sub(p, i) then Some(e.frame) else Resolve(m, root, q)
    ensures Tree(SetEntry(m, Resolve(m, root, p).value, i, e), root)
  {
    var t := Resolve(m, root, p).value;
    var m2 := SetEntry(m, t, i, e);
    forall q | Resolve(m2, root, q).Some?
      ensures IsTable(At(m2, Resolve(m2, root, q).value))
    {
      assert q != Sub(p, i) ==> Resolve(m, root, q).Some? && IsTable(At(m, Resolve(m, root, q).value));
    }
    forall q, j | Resolve(m2, root, q).Some? && Depth(q) < 2
      ensures !EntryAt(m2, Resolve(m2, root, q).value, j).huge
    {
      var u := Resolve(m2, root, q).value;
      SetEntryReads(m, t, i, e, u, j);
    }
    forall q, r | Resolve(m2, root, q).Some? && Resolve(m2, root, q) == Resolve(m2, root, r)
      ensures q == r
    {
      assert Resolve(m, root, q) != Some(e.frame) && Resolve(m, root, r) != Some(e.frame);
    }
    HangTableOpen(m, root, p, i, e);
  }

  lemma HangTableWalk(m: Mem, root: nat, p: Path, i: nat, e: Entry, a: nat, b: nat, c: nat, d: nat)
    requires Tree(m, root) && Resolve(m, root, p).Some? && i < 512 && Depth(p) < 3
    requires PointsToTable(e) && At(m, e.frame) == EMPTY_TABLE && Resolve(m, root, p).value != e.frame
    requires !EntryAt(m, Resolve(m, root, p).value, i).present
    requires var m2 := SetEntry(m, Resolve(m, root, p).value, i, e);
      && Tree(m2, root)
      && forall q :: Resolve(m2, root, q) == if q == Sub(p, i) then Some(e.frame) else Resolve(m, root, q)
    requires a < 512 && b < 512 && c < 512
    ensures Walk(SetEntry(m, Resolve(m, root, p).value, i, e), root, a, b, c, d) == Walk(m, root, a, b, c, d)
  {
    var t := Resolve(m, root, p).value;
    var m2 := SetEntry(m, t, i, e);
    WalkByPaths(m, root, a, b, c, d);
    WalkByPaths(m2, root, a, b, c, d);
    var pd := Resolve(m, root, PdPath(a, b));
    var pt := Resolve(m, root, PtPath(a, b, c));
    if pd.Some? {
      assert pd == Resolve(m, root, p) ==> PdPath(a, b) == p;
      SetEntryReads(m, t, i, e, pd.value, c);
    } else {
      SetEntryReads(m, t, i, e, e.frame, c);
    }
    if pt.Some? {
      assert pt == Resolve(m, root, p) ==> PtPath(a, b, c) == p;
      SetEntryReads(m, t, i, e, pt.value, d);
    } else {
      SetEntryReads(m, t, i, e, e.frame, d);
    }
  }

  /** Changing only permission bits of an entry that points to a table changes no translation. */
  lemma SetFlagsEffect(m: Mem, root: nat, p: Path, i: nat, e: Entry)
    requires Tree(m, root) && Resolve(m, root, p).Some? && i < 512 && Depth(p) < 3 && PointsToTable(e)
    requires var o := EntryAt(m, Resolve(m, root, p).value, i); PointsToTable(o) && e.frame == o.frame
    requires Fitting(m, root, p, i, e)
    ensures var m2 := SetEntry(m, Resolve(m, root, p).value, i, e);
      && Tree(m2, root)
      && (forall q :: Resolve(m2, root, q) == Resolve(m, root, q))
      && (forall n: nat :: n < PAGES ==> WalkPage(m2, root, n) == WalkPage(m, root, n))
  {
    var t := Resolve(m, root, p).value;
    var m2 := SetEntry(m, t, i, e);
    forall q ensures Resolve(m2, root, q) == Resolve(m, root, q) {
      SetFlagsPaths(m, root, p, i, e, q);
    }
    TreeShrinks(m, root, p, i, e);
    forall n: nat | n < PAGES
      ensures WalkPage(m2, root, n) == WalkPage(m, root, n)
    {
      SetFlagsWalk(m, root, p, i, e, A(n), B(n), C(n), D(n));
    }
  }

  lemma SetFlagsWalk(m: Mem, root: nat, p: Path, i: nat, e: Entry, a: nat, b: nat, c: nat, d: nat)
    requires Tree(m, root) && Resolve(m, root, p).Some? && i < 512 && Depth(p) < 3 && PointsToTable(e) && a < 512
    requires b < 512 && c < 512
    requires var o := EntryAt(m, Resolve(m, root, p).value, i); PointsToTable(o) && e.frame == o.frame
    requires var m2 := SetEntry(m, Resolve(m, root, p).value, i, e);
      Tree(m2, root) && forall q :: Resolve(m2, root, q) == Resolve(m, root, q)
    ensures Walk(SetEntry(m, Resolve(m, root, p).value, i, e), root, a, b, c, d) == Walk(m, root, a, b, c, d)
  {
    var t := Resolve(m, root, p).value;
    var m2 := SetEntry(m, t, i, e);
    WalkByPaths(m, root, a, b, c, d);
    WalkByPaths(m2, root, a, b, c, d);
    var pd := Resolve(m, root, PdPath(a, b));
    var pt := Resolve(m, root, PtPath(a, b, c));
    if pd.Some? { SetEntryReads(m, t, i, e, pd.value, c); }
    if pt.Some? {
      assert pt != Resolve(m, root, p);
      SetEntryReads(m, t, i, e, pt.value, d);
    }
  }

  /** Writing a 2 MB entry changes the translation of its 512 pages and of nothing else. */
  lemma SetHugeEffect(m: Mem, root: nat, k: nat, e: Entry)
    requires Tree(m, root) && k < PAGES && e.present && e.huge
    requires Resolve(m, root, PdOf(k)).Some? && Fitting(m, root, PdOf(k), C(k), e)
    ensures var m2 := SetEntry(m, Resolve(m, root, PdOf(k)).value, C(k), e);
      && Tree(m2, root)
      && (forall q :: Resolve(m2, root, q) == if Extends(q, PtOf(k)) then None else Resolve(m, root, q))
      && (forall n: nat :: n < PAGES ==>
            WalkPage(m2, root, n) == if n / 512 == k / 512 then Huge(e.frame, Perms(e)) else WalkPage(m, root, n))
  {
    var p := PdOf(k);
    var t := Resolve(m, root, p).value;
    var m2 := SetEntry(m, t, C(k), e);
    forall q ensures Resolve(m2, root, q) == if Extends(q, PtOf(k)) then None else Resolve(m, root, q) {
      SetLeafPaths(m, root, p, C(k), e, q);
    }
    TreeShrinks(m, root, p, C(k), e);
    forall n: nat | n < PAGES
      ensures WalkPage(m2, root, n) == if n / 512 == k / 512 then Huge(e.frame, Perms(e)) else WalkPage(m, root, n)
    {
      SetHugeWalk(m, root, k, e, A(n), B(n), C(n), D(n));
      IndicesIdentify(n, k);
    }
  }

  lemma SetHugeWalk(m: Mem, root: nat, k: nat, e: Entry, a: nat, b: nat, c: nat, d: nat)
    requires Tree(m, root) && k < PAGES && e.present && e.huge
    requires Resolve(m, root, PdOf(k)).Some?
    requires var m2 := SetEntry(m, Resolve(m, root, PdOf(k)).value, C(k), e);
      Tree(m2, root) && forall q :: Resolve(m2, root, q) == if Extends(q, PtOf(k)) then None else Resolve(m, root, q)
    requires a < 512 && b < 512 && c < 512
    ensures Walk(SetEntry(m, Resolve(m, root, PdOf(k)).value, C(k), e), root, a, b, c, d) ==
      if a == A(k) && b == B(k) && c == C(k) then Huge(e.frame, Perms(e)) else Walk(m, root, a, b, c, d)
  {
    var p := PdOf(k);
    var t := Resolve(m, root, p).value;
    var m2 := SetEntry(m, t, C(k), e);
    WalkByPaths(m, root, a, b, c, d);
    WalkByPaths(m2, root, a, b, c, d);
    var pd := Resolve(m, root, PdPath(a, b));
    var pt := Resolve(m, root, PtPath(a, b, c));
    ShorterNotBelow(PdPath(a, b), PtOf(k));
    if pd.Some? {
      assert pd == Resolve(m, root, p) ==> PdPath(a, b) == p;
      SetEntryReads(m, t, C(k), e, pd.value, c);
    }
    if pt.Some? {
      assert pt != Resolve(m, root, p);
      SetEntryReads(m, t, C(k), e, pt.value, d);
    }
  }
}
