/** The operations on page tables: walking with allocation, mapping, unmapping, translating. */
module Paging {
  import opened Division
  import opened PhysMem
  import opened BuddyAllocator
  import opened PageTable
  import opened Spans

  function PageEntry(frame: nat, flags: Flags): Entry {
    Entry(true, flags.writable, flags.user, false, flags.noExec, frame)
  }

  function HugeEntry(frame: nat, flags: Flags): Entry {
    Entry(true, flags.writable, flags.user, true, flags.noExec, frame)
  }

  function TableEntry(frame: nat, user: bool): Entry {
    Entry(true, true, user, false, false, frame)
  }

  /** The table at `q` is read by a walk for page `k`. */
  predicate OnWay(k: nat, q: Path) {
    q == Root || q == Sub(Root, A(k)) || q == PdOf(k) || q == PtOf(k)
  }

  /** The frames of the tables that a walk for page `k` reads. */
  ghost function PathTables(m: Mem, root: nat, k: nat): set<nat> {
    set q: Path | q in {Root, Sub(Root, A(k)), PdOf(k), PtOf(k)} && Resolve(m, root, q).Some?
      :: Resolve(m, root, q).value
  }

  ghost predicate NewTable(m: Mem, n: Mem, root: nat, q: Path, f: nat) {
    Resolve(m, root, q).None? && Resolve(n, root, q) == Some(f)
  }

  ghost predicate BecameTable(m: Mem, n: Mem, root: nat, f: nat) {
    exists q :: NewTable(m, n, root, q, f)
  }

  /**
   * From memory `m` with free pages `s` to memory `n` with free pages `t`: tables were added only on the way to
   * page `k`, each from a page that was free, no page was lost, and only those tables and free pages were written.
   */
  ghost predicate Extended(m: Mem, s: set<nat>, n: Mem, t: set<nat>, root: nat, k: nat) {
    && t <= s
    && (forall q :: Resolve(m, root, q).Some? ==> Resolve(n, root, q) == Resolve(m, root, q))
    && (forall q :: Resolve(n, root, q).Some? && Resolve(m, root, q).None? ==>
          OnWay(k, q) && Resolve(n, root, q).value in s && Resolve(n, root, q).value !in t)
    && (forall f :: f in s && f !in t ==> BecameTable(m, n, root, f))
    && SameExcept(m, n, s + PathTables(m, root, k))
  }

  ghost predicate SameWalks(m: Mem, n: Mem, root: nat) {
    forall k: nat :: k < PAGES ==> WalkPage(n, root, k) == WalkPage(m, root, k)
  }

  /** User bits of table entries are never cleared. */
  ghost predicate UserKept(m: Mem, n: Mem, root: nat) {
    forall p, i :: UserAt(m, root, p, i) ==> UserAt(n, root, p, i)
  }

  /** Tables were added or opened to user mode on the way to page `k`, and no translation changed. */
  ghost predicate Prepared(m: Mem, s: set<nat>, n: Mem, t: set<nat>, root: nat, k: nat) {
    Extended(m, s, n, t, root, k) && SameWalks(m, n, root) && UserKept(m, n, root)
  }

  lemma PreparedTrans(m: Mem, s: set<nat>, n: Mem, t: set<nat>, o: Mem, u: set<nat>, root: nat, k: nat)
    requires Prepared(m, s, n, t, root, k) && Prepared(n, t, o, u, root, k)
    ensures Prepared(m, s, o, u, root, k)
  {
    ExtendedTrans(m, s, n, t, o, u, root, k);
    forall j: nat | j < PAGES ensures WalkPage(o, root, j) == WalkPage(m, root, j) {
      assert WalkPage(o, root, j) == WalkPage(n, root, j);
    }
  }

  lemma PathTablesMember(m: Mem, root: nat, k: nat, q: Path)
    requires OnWay(k, q) && Resolve(m, root, q).Some?
    ensures Resolve(m, root, q).value in PathTables(m, root, k)
  {
  }

  lemma ExtendedTrans(m: Mem, s: set<nat>, n: Mem, t: set<nat>, o: Mem, u: set<nat>, root: nat, k: nat)
    requires Extended(m, s, n, t, root, k) && Extended(n, t, o, u, root, k)
    ensures Extended(m, s, o, u, root, k)
  {
    forall f | f in s && f !in u
      ensures BecameTable(m, o, root, f)
    {
      if f in t {
        assert BecameTable(n, o, root, f);
        var q :| NewTable(n, o, root, q, f);
        assert NewTable(n, o, root, q, f);
        assert NewTable(m, o, root, q, f);
      } else {
        assert BecameTable(m, n, root, f);
        var q :| NewTable(m, n, root, q, f);
        assert NewTable(m, n, root, q, f);
        assert NewTable(m, o, root, q, f);
      }
    }
    assert PathTables(n, root, k) <= s + PathTables(m, root, k);
  }

  lemma PathTablesGrow(m: Mem, s: set<nat>, n: Mem, t: set<nat>, root: nat, k: nat)
    requires Extended(m, s, n, t, root, k)
    ensures PathTables(n, root, k) <= s + PathTables(m, root, k)
  {
  }

  // ---------- How many tables a walk lacks ----------

  ghost function Absent(m: Mem, root: nat, q: Path): nat {
    if Resolve(m, root, q).None? then 1 else 0
  }

  /** The tables that are missing on the way to the level-2 table of page `k`. */
  ghost function MissingPd(m: Mem, root: nat, k: nat): nat {
    Absent(m, root, Sub(Root, A(k))) + Absent(m, root, PdOf(k))
  }

  /** The tables that are missing on the way to page `k`. */
  ghost function Missing(m: Mem, root: nat, k: nat): nat {
    MissingPd(m, root, k) + Absent(m, root, PtOf(k))
  }

  /** No table but the one at `q` was added or removed. */
  ghost predicate OnlyTable(m: Mem, n: Mem, root: nat, q: Path) {
    forall p :: p != q ==> Resolve(n, root, p) == Resolve(m, root, p)
  }

  /**
   * The table at `q` is there now, at the price of a free page if it was not before; or there was no page to pay with.
   */
  ghost predicate Ensured(m: Mem, s: set<nat>, n: Mem, t: set<nat>, root: nat, q: Path, ok: bool) {
    && OnlyTable(m, n, root, q)
    && (ok ==> Resolve(n, root, q).Some? && |t| + Absent(m, root, q) == |s|)
    && (!ok ==> t == s && Resolve(m, root, q).None?)
  }

  lemma AbsentBelow(m: Mem, root: nat, q: Path, i: nat)
    ensures Absent(m, root, q) <= Absent(m, root, Sub(q, i))
  {
  }

  /**
   * The level-2 table of page `k` is there if and only if there were enough free pages, and exactly those needed are
   * gone.
   */
  ghost predicate PdEnsured(m: Mem, s: set<nat>, n: Mem, t: set<nat>, root: nat, k: nat, ok: bool) {
    && (ok <==> |s| >= MissingPd(m, root, k))
    && (ok ==> |t| + MissingPd(m, root, k) == |s| && Resolve(n, root, PtOf(k)) == Resolve(m, root, PtOf(k)))
    && (!ok ==> t == {})
  }

  lemma PdPaid(m: Mem, s: set<nat>, n: Mem, t: set<nat>, o: Mem, u: set<nat>, root: nat, k: nat, ok: bool)
    requires Ensured(m, s, n, t, root, Sub(Root, A(k)), true) && Ensured(n, t, o, u, root, PdOf(k), ok)
    requires ok || u == {}
    ensures PdEnsured(m, s, o, u, root, k, ok)
  {
    AbsentBelow(m, root, Sub(Root, A(k)), B(k));
    assert Resolve(n, root, PdOf(k)) == Resolve(m, root, PdOf(k));
    assert Resolve(o, root, PtOf(k)) == Resolve(n, root, PtOf(k)) == Resolve(m, root, PtOf(k));
  }

  lemma PdNotPaid(m: Mem, n: Mem, root: nat, k: nat)
    requires Ensured(m, {}, n, {}, root, Sub(Root, A(k)), false)
    ensures PdEnsured(m, {}, n, {}, root, k, false)
  {
  }

  /**
   * The way to page `k` is complete if and only if no 2 MB page is there and as many pages were free as tables were
   * missing. Then exactly that many are gone; without a 2 MB page a failure uses up all of them, with one it takes
   * none.
   */
  ghost predicate WayEnsured(m: Mem, s: set<nat>, n: Mem, t: set<nat>, root: nat, k: nat, ok: bool) {
    var huge := WalkPage(m, root, k).Huge?;
    && (ok <==> !huge && |s| >= Missing(m, root, k))
    && (ok ==> |t| + Missing(m, root, k) == |s|)
    && (!ok ==> if huge then t == s else t == {})
  }

  lemma WayPaid(m: Mem, s: set<nat>, n: Mem, t: set<nat>, o: Mem, u: set<nat>, root: nat, k: nat, ok: bool)
    requires PdEnsured(m, s, n, t, root, k, true) && Ensured(n, t, o, u, root, PtOf(k), ok) && t <= s
    requires WalkPage(m, root, k).Huge? ==> !ok && MissingPd(m, root, k) == 0
    requires !WalkPage(m, root, k).Huge? && !ok ==> u == {}
    ensures WayEnsured(m, s, o, u, root, k, ok)
  {
    if WalkPage(m, root, k).Huge? { SameCount(t, s); }
  }

  lemma WayNotPaid(m: Mem, s: set<nat>, n: Mem, t: set<nat>, root: nat, k: nat)
    requires PdEnsured(m, s, n, t, root, k, false)
    requires WalkPage(m, root, k).Huge? ==> MissingPd(m, root, k) == 0
    ensures WayEnsured(m, s, n, t, root, k, false)
  {
  }

  lemma SameCount(t: set<nat>, s: set<nat>)
    requires t <= s && |t| == |s|
    ensures t == s
  {
    assert s == t + (s - t);
  }

  /** Above a 2 MB page no table is missing. */
  lemma HugeComplete(m: Mem, root: nat, k: nat)
    requires Tree(m, root) && WalkPage(m, root, k).Huge?
    ensures MissingPd(m, root, k) == 0
  {
    HugeWalk(m, root, k);
    AbsentBelow(m, root, Sub(Root, A(k)), B(k));
  }

  // ---------- Extending the tree by one table ----------

  lemma UserBitAdded(m: Mem, s: set<nat>, root: nat, k: nat, p: Path, i: nat, e: Entry)
    requires Tree(m, root) && Resolve(m, root, p).Some? && i < 512 && Depth(p) < 3 && OnWay(k, p) && PointsToTable(e)
    requires var o := EntryAt(m, Resolve(m, root, p).value, i); PointsToTable(o) && e == o.(user := true)
    requires UserAbove(m, root, p)
    ensures var n := SetEntry(m, Resolve(m, root, p).value, i, e);
      Tree(n, root) && Prepared(m, s, n, s, root, k)
      && (forall q :: Resolve(n, root, q) == Resolve(m, root, q))
  {
    assert LeadsOn(m, root, p, i);
    SetFlagsEffect(m, root, p, i, e);
    PathTablesMember(m, root, k, p);
    SameTablesExtended(m, s, SetEntry(m, Resolve(m, root, p).value, i, e), root, k, Resolve(m, root, p).value);
    OpenedKeepsUser(m, SetEntry(m, Resolve(m, root, p).value, i, e), root, Resolve(m, root, p).value, i, e);
  }

  lemma SameTablesExtended(m: Mem, s: set<nat>, n: Mem, root: nat, k: nat, t: nat)
    requires t in PathTables(m, root, k) && SameExcept(m, n, {t})
    requires forall q :: Resolve(n, root, q) == Resolve(m, root, q)
    ensures Extended(m, s, n, s, root, k)
  {
  }

  lemma OpenedKeepsUser(m: Mem, n: Mem, root: nat, t: nat, i: nat, e: Entry)
    requires IsTable(At(m, t)) && i < 512 && n == SetEntry(m, t, i, e) && e.present && e.user
    requires forall q :: Resolve(n, root, q) == Resolve(m, root, q)
    ensures UserKept(m, n, root)
  {
    forall q, j | UserAt(m, root, q, j) ensures UserAt(n, root, q, j) {
      SetEntryReads(m, t, i, e, Resolve(m, root, q).value, j);
    }
  }

  /** A page `f` leaves the free set, is zeroed and becomes the table at `Sub(p, i)`. */
  lemma TableAdded(m: Mem, s: set<nat>, m1: Mem, f: nat, root: nat, k: nat, p: Path, i: nat, user: bool)
    requires Tree(m, root) && TablesAvoid(m, root, s) && Resolve(m, root, p).Some? && i < 512 && Depth(p) < 3
    requires OnWay(k, p) && OnWay(k, Sub(p, i)) && f in s && SameExcept(m, m1, s)
    requires !EntryAt(m, Resolve(m, root, p).value, i).present && (user ==> UserAbove(m, root, p))
    ensures var t := Resolve(m, root, p).value; var m2 := m1[f := EMPTY_TABLE];
      && IsTable(At(m2, t))
      && var n := SetEntry(m2, t, i, TableEntry(f, user));
      && Tree(n, root) && Prepared(m, s, n, s - {f}, root, k)
      && TablesAvoid(n, root, s - {f}) && Resolve(n, root, Sub(p, i)) == Some(f) && OnlyTable(m, n, root, Sub(p, i))
  {
    var t := Resolve(m, root, p).value;
    var m2 := m1[f := EMPTY_TABLE];
    var e := TableEntry(f, user);
    assert SameExcept(m, m2, s);
    TreeFramed(m, m2, root, s);
    assert EntryAt(m2, t, i) == EntryAt(m, t, i);
    forall r
      ensures Resolve(m2, root, r) != Some(e.frame)
    {
      assert Resolve(m, root, r).Some? ==> Resolve(m, root, r).value !in s;
    }
    if user && p.Sub? { assert At(m2, Resolve(m, root, p.up).value) == At(m, Resolve(m, root, p.up).value); }
    HangTableEffect(m2, root, p, i, e);
    var n := SetEntry(m2, t, i, e);
    WalksThrough(m, m2, n, root, s);
    assert Resolve(m, root, Sub(p, i)).None?;
    assert NewTable(m, n, root, Sub(p, i), f);
    PathTablesMember(m, root, k, p);
    ExtendedByOne(m, s, n, root, k, p, i, f);
    AbsentUser(m, m2, root, t, i, e, s);
  }

  lemma ExtendedByOne(m: Mem, s: set<nat>, n: Mem, root: nat, k: nat, p: Path, i: nat, f: nat)
    requires OnWay(k, Sub(p, i)) && f in s && NewTable(m, n, root, Sub(p, i), f)
    requires forall q :: Resolve(n, root, q) == if q == Sub(p, i) then Some(f) else Resolve(m, root, q)
    requires SameExcept(m, n, s + PathTables(m, root, k))
    ensures Extended(m, s, n, s - {f}, root, k)
  {
    assert BecameTable(m, n, root, f);
  }

  lemma WalksThrough(m: Mem, m2: Mem, n: Mem, root: nat, s: set<nat>)
    requires Tree(m, root) && TablesAvoid(m, root, s) && SameExcept(m, m2, s) && SameWalks(m2, n, root)
    ensures SameWalks(m, n, root)
  {
    forall j: nat | j < PAGES ensures WalkPage(n, root, j) == WalkPage(m, root, j) {
      WalkFramed(m, m2, root, s, A(j), B(j), C(j), D(j));
      assert WalkPage(n, root, j) == WalkPage(m2, root, j);
    }
  }

  lemma PaidByOne(m: Mem, s: set<nat>, n: Mem, f: nat, root: nat, q: Path)
    requires OnlyTable(m, n, root, q) && Resolve(m, root, q).None? && Resolve(n, root, q).Some? && f in s
    ensures Ensured(m, s, n, s - {f}, root, q, true)
  {
    assert s == (s - {f}) + {f};
  }

  lemma NotPaid(m: Mem, s: set<nat>, root: nat, q: Path)
    requires Resolve(m, root, q).None?
    ensures Ensured(m, s, m, s, root, q, false)
  {
  }

  lemma AbsentUser(m: Mem, m2: Mem, root: nat, t: nat, i: nat, e: Entry, s: set<nat>)
    requires Tree(m, root) && TablesAvoid(m, root, s) && SameExcept(m, m2, s) && IsTable(At(m2, t)) && i < 512
    requires forall q :: Resolve(m, root, q).Some? ==> Resolve(SetEntry(m2, t, i, e), root, q) == Resolve(m, root, q)
    requires EntryAt(m, t, i).present && EntryAt(m, t, i).user ==> e.present && e.user
    ensures UserKept(m, SetEntry(m2, t, i, e), root)
  {
    forall q, j | UserAt(m, root, q, j) ensures UserAt(SetEntry(m2, t, i, e), root, q, j) {
      var u := Resolve(m, root, q).value;
      assert At(m2, u) == At(m, u);
      SetEntryReads(m2, t, i, e, u, j);
    }
  }

  /** The walks of `n` are those of `m`, except that page `k` now gives `leaf`. */
  ghost predicate Remapped(m: Mem, n: Mem, root: nat, k: nat, leaf: Leaf) {
    forall j: nat :: j < PAGES ==> WalkPage(n, root, j) == if j == k then leaf else WalkPage(m, root, j)
  }

  /** The walks of `n` are those of `m`, except that the 2 MB page around page `k` now starts at `frame`. */
  ghost predicate HugeMapped(m: Mem, n: Mem, root: nat, k: nat, frame: nat, flags: Flags) {
    forall j: nat :: j < PAGES ==>
      WalkPage(n, root, j) == if j / 512 == k / 512 then Huge(frame, flags) else WalkPage(m, root, j)
  }

  /** The four levels together grant `access` on page `k`, and on every other page what they granted before. */
  ghost predicate Regranted(m: Mem, n: Mem, root: nat, k: nat, access: Option<Flags>) {
    forall j: nat :: j < PAGES ==> Granted(n, root, j) == if j == k then access else Granted(m, root, j)
  }

  /** They grant `flags` all over the 2 MB page around page `k`, and elsewhere what they granted before. */
  ghost predicate HugeGranted(m: Mem, n: Mem, root: nat, k: nat, flags: Flags) {
    forall j: nat :: j < PAGES ==>
      Granted(n, root, j) == if j / 512 == k / 512 then Some(flags) else Granted(m, root, j)
  }

  /** They grant on every page what they granted before. */
  ghost predicate SameGrants(m: Mem, n: Mem, root: nat) {
    forall j: nat :: j < PAGES ==> Granted(n, root, j) == Granted(m, root, j)
  }

  lemma PageGrant(m: Mem, n: Mem, root: nat, k: nat, leaf: Leaf)
    requires Tree(m, root) && Tree(n, root) && Remapped(m, n, root, k, leaf)
    ensures Regranted(m, n, root, k, LeafPerms(leaf))
  {
    forall j: nat | j < PAGES
      ensures Granted(n, root, j) == if j == k then LeafPerms(leaf) else Granted(m, root, j)
    {
      GrantedIsLeaf(m, root, j);
      GrantedIsLeaf(n, root, j);
    }
  }

  lemma HugeGrant(m: Mem, n: Mem, root: nat, k: nat, frame: nat, flags: Flags)
    requires Tree(m, root) && Tree(n, root) && HugeMapped(m, n, root, k, frame, flags)
    ensures HugeGranted(m, n, root, k, flags)
  {
    forall j: nat | j < PAGES
      ensures Granted(n, root, j) == if j / 512 == k / 512 then Some(flags) else Granted(m, root, j)
    {
      GrantedIsLeaf(m, root, j);
      GrantedIsLeaf(n, root, j);
    }
  }

  lemma WalksGrant(m: Mem, n: Mem, root: nat)
    requires Tree(m, root) && Tree(n, root) && SameWalks(m, n, root)
    ensures SameGrants(m, n, root)
  {
    forall j: nat | j < PAGES ensures Granted(n, root, j) == Granted(m, root, j) {
      GrantedIsLeaf(m, root, j);
      GrantedIsLeaf(n, root, j);
    }
  }

  lemma PageWritten(m: Mem, s: set<nat>, root: nat, k: nat, e: Entry)
    requires Tree(m, root) && k < PAGES && !e.huge && Resolve(m, root, PtOf(k)).Some?
    requires e.present && e.user ==> UserAt(m, root, PdOf(k), C(k))
    ensures var n := SetEntry(m, Resolve(m, root, PtOf(k)).value, D(k), e);
      && Tree(n, root) && Extended(m, s, n, s, root, k)
      && (forall q :: Resolve(n, root, q) == Resolve(m, root, q))
      && Remapped(m, n, root, k, if e.present then Small(e.frame, Perms(e)) else Unmapped)
  {
    SetPageEffect(m, root, k, e);
    PathTablesMember(m, root, k, PtOf(k));
  }

  lemma RemappedAfter(m: Mem, n: Mem, o: Mem, root: nat, k: nat, leaf: Leaf)
    requires SameWalks(m, n, root) && Remapped(n, o, root, k, leaf)
    ensures Remapped(m, o, root, k, leaf)
  {
  }

  /**
   * A 2 MB entry is written once the way to it is there: the level-1 table below it, if any, hangs nowhere any more.
   */
  lemma HugeWritten(m: Mem, s: set<nat>, n: Mem, t: set<nat>, root: nat, k: nat, frame: nat, flags: Flags)
    requires Tree(n, root) && TablesAvoid(n, root, t) && Prepared(m, s, n, t, root, k) && k < PAGES
    requires Resolve(n, root, PdOf(k)).Some? && (flags.user ==> UserAt(n, root, Sub(Root, A(k)), B(k)))
    ensures var o := SetEntry(n, Resolve(n, root, PdOf(k)).value, C(k), HugeEntry(frame, flags));
      && Tree(o, root) && TablesAvoid(o, root, t) && HugeMapped(m, o, root, k, frame, flags)
      && SameExcept(m, o, s + PathTables(m, root, k)) && Unhung(n, o, root, k)
  {
    SetHugeEffect(n, root, k, HugeEntry(frame, flags));
    PathTablesMember(n, root, k, PdOf(k));
    PathTablesGrow(m, s, n, t, root, k);
  }

  /** The level-1 table of page `k` is gone from the tree; the other tables are as before. */
  ghost predicate Unhung(m: Mem, n: Mem, root: nat, k: nat) {
    forall q :: Resolve(n, root, q) == if Extends(q, PtOf(k)) then None else Resolve(m, root, q)
  }

  /** The tables down to level 2 of page `k` are there now; its level-1 table, and only that, is gone. */
  ghost predicate HungForHuge(m: Mem, n: Mem, root: nat, k: nat) {
    forall q ::
      Resolve(n, root, q).Some? <==> (Resolve(m, root, q).Some? || q in PdWay(k)) && !Extends(q, PtOf(k))
  }

  lemma PdHung(m: Mem, s: set<nat>, n: Mem, t: set<nat>, o: Mem, root: nat, k: nat)
    requires Extended(m, s, n, t, root, k) && PdEnsured(m, s, n, t, root, k, true) && Resolve(n, root, PdOf(k)).Some?
    requires Unhung(n, o, root, k)
    ensures HungForHuge(m, o, root, k)
  {
    assert Resolve(n, root, Sub(Root, A(k))).Some?;
    assert Resolve(m, root, Root).Some?;
    ShorterNotBelow(Sub(Root, A(k)), PtOf(k));
    ShorterNotBelow(PdOf(k), PtOf(k));
    forall q ensures Resolve(n, root, q).Some? <==> Resolve(m, root, q).Some? || q in PdWay(k) {
      assert q == PtOf(k) ==> Resolve(n, root, q) == Resolve(m, root, q);
    }
  }

  /** Entry `i` of the table at `p` maps a 2 MB page. */
  ghost predicate HugeAt(m: Mem, root: nat, p: Path, i: nat) {
    Resolve(m, root, p).Some? && var e := EntryAt(m, Resolve(m, root, p).value, i); e.present && e.huge
  }

  lemma HugeOnlyAtPd(m: Mem, root: nat, p: Path, i: nat)
    requires Tree(m, root) && Depth(p) < 2
    ensures !HugeAt(m, root, p, i)
  {
  }

  lemma HugeWalk(m: Mem, root: nat, k: nat)
    requires Tree(m, root)
    ensures WalkPage(m, root, k).Huge? <==> HugeAt(m, root, PdOf(k), C(k))
  {
    WalkByPaths(m, root, A(k), B(k), C(k), D(k));
  }

  /** What a page maps to. */
  datatype Target = Target(frame: nat, perms: Flags)

  /** The map from pages to frames and permissions that the tables stand for. */
  function Flat(m: Mem, root: nat, n: nat): Option<Target> {
    match WalkPage(m, root, n)
    case Unmapped => None
    case Small(f, p) => Some(Target(f, p))
    case Huge(f, p) => Some(Target(f + n % 512, p))
  }

  /** Translation of a byte address is the flat map on its page, with the offset kept. */
  lemma TranslateIsFlat(m: Mem, root: nat, v: nat)
    ensures Translate(m, root, v) ==
      match Flat(m, root, PageOf(v))
      case None => None
      case Some(t) => Some(t.frame * PAGE + v % PAGE)
  {
    PartsOfPage(v);
    var x := v / PAGE;
    ModMod(x, 0x800_0000);
    HugeOffset(v);
  }

  lemma HugeOffset(v: nat)
    ensures v % HUGE_PAGE == (v / PAGE % 512) * PAGE + v % PAGE
  {
    var x := v / 4096;
    assert v == 4096 * x + v % 4096;
    assert x == 512 * (x / 512) + x % 512;
    QuotientUnique(v, HUGE_PAGE, x / 512);
  }

  /** How many pages `j` lies after `first`, going around at the end of the address space. */
  function Offset(j: nat, first: nat): nat
    requires first < PAGES
  {
    (j + PAGES - first) % PAGES
  }

  /**
   * `n` maps the `count` pages from `first` on to the frames from `to` on, with its permissions, and every other page
   * as `m` does.
   */
  ghost predicate RangeMapped(m: Mem, n: Mem, root: nat, first: nat, count: nat, to: Target)
    requires first < PAGES
  {
    forall j: nat :: j < PAGES ==>
      Flat(n, root, j) ==
      if Offset(j, first) < count then Some(Target(to.frame + Offset(j, first), to.perms)) else Flat(m, root, j)
  }

  lemma OffsetOf(first: nat, c: nat, j: nat)
    requires first < PAGES && c < PAGES && j < PAGES
    ensures Offset(j, first) == c <==> j == (first + c) % PAGES
  {
  }

  lemma RangeGrowsByPage(m: Mem, n: Mem, o: Mem, root: nat, first: nat, c: nat, to: Target)
    requires first < PAGES && c < PAGES && RangeMapped(m, n, root, first, c, to)
    requires Remapped(n, o, root, (first + c) % PAGES, Small(to.frame + c, to.perms))
    ensures RangeMapped(m, o, root, first, c + 1, to)
  {
    forall j: nat | j < PAGES
      ensures Flat(o, root, j) ==
        if Offset(j, first) < c + 1 then Some(Target(to.frame + Offset(j, first), to.perms)) else Flat(m, root, j)
    {
      OffsetOf(first, c, j);
      assert WalkPage(o, root, j) ==
        if j == (first + c) % PAGES then Small(to.frame + c, to.perms)
        else WalkPage(n, root, j);
      assert Flat(n, root, j) ==
        if Offset(j, first) < c then Some(Target(to.frame + Offset(j, first), to.perms))
        else Flat(m, root, j);
    }
  }

  lemma HugeOffsets(first: nat, c: nat, j: nat)
    requires first < PAGES && c + 512 <= PAGES && j < PAGES && (first + c) % 512 == 0
    ensures var k := (first + c) % PAGES;
      && (j / 512 == k / 512 <==> c <= Offset(j, first) < c + 512)
      && (j / 512 == k / 512 ==> Offset(j, first) == c + j % 512)
  {
    var k := (first + c) % PAGES;
    assert k % 512 == 0;
    assert j / 512 == k / 512 <==> k <= j < k + 512;
  }

  lemma RangeGrowsByHuge(m: Mem, n: Mem, o: Mem, root: nat, first: nat, c: nat, to: Target)
    requires first < PAGES && c + 512 <= PAGES && (first + c) % 512 == 0 && RangeMapped(m, n, root, first, c, to)
    requires HugeMapped(n, o, root, (first + c) % PAGES, to.frame + c, to.perms)
    ensures RangeMapped(m, o, root, first, c + 512, to)
  {
    var k := (first + c) % PAGES;
    forall j: nat | j < PAGES
      ensures Flat(o, root, j) ==
        if Offset(j, first) < c + 512 then Some(Target(to.frame + Offset(j, first), to.perms)) else Flat(m, root, j)
    {
      HugeOffsets(first, c, j);
      assert WalkPage(o, root, j) == if j / 512 == k / 512 then Huge(to.frame + c, to.perms) else WalkPage(n, root, j);
      assert Flat(n, root, j) ==
        if Offset(j, first) < c then Some(Target(to.frame + Offset(j, first), to.perms))
        else Flat(m, root, j);
    }
  }

  /** The first `c` pages of the span are mapped as asked, every other page as before. */
  ghost predicate SpanMapped(m: Mem, n: Mem, root: nat, sp: Span, flags: Flags, c: nat) {
    RangeMapped(m, n, root, PageAt(sp, 0), c, Target(sp.frame, flags))
  }

  /** A call that fails part way has mapped an initial part of the span, one page short at least. */
  ghost predicate PrefixMapped(m: Mem, n: Mem, root: nat, sp: Span, flags: Flags) {
    exists c: nat :: c < Count(sp) && SpanMapped(m, n, root, sp, flags, c)
  }

  lemma RangeSame(m: Mem, n: Mem, o: Mem, root: nat, first: nat, c: nat, to: Target)
    requires first < PAGES && RangeMapped(m, n, root, first, c, to) && SameWalks(n, o, root)
    ensures RangeMapped(m, o, root, first, c, to)
  {
    forall j: nat | j < PAGES ensures Flat(o, root, j) == Flat(n, root, j) { SameFlat(n, o, root, j); }
    SameRange(m, n, o, root, first, c, to);
  }

  lemma SameFlat(n: Mem, o: Mem, root: nat, j: nat)
    requires WalkPage(o, root, j) == WalkPage(n, root, j)
    ensures Flat(o, root, j) == Flat(n, root, j)
  {
  }

  lemma SameRange(m: Mem, n: Mem, o: Mem, root: nat, first: nat, c: nat, to: Target)
    requires first < PAGES && RangeMapped(m, n, root, first, c, to)
    requires forall j: nat :: j < PAGES ==> Flat(o, root, j) == Flat(n, root, j)
    ensures RangeMapped(m, o, root, first, c, to)
  {
  }

  lemma ModAdd(v: nat, c: nat)
    ensures (v + c) % PAGES == (v % PAGES + c) % PAGES
  {
    var q := v / PAGES;
    assert v == PAGES * q + v % PAGES;
    var r := (v % PAGES + c) / PAGES;
    QuotientUnique(v + c, PAGES, q + r);
  }

  lemma HugeAligned(v: nat)
    requires v % HUGE_PAGE == 0
    ensures PageOf(v) % 512 == 0
  {
    ModMod(v / PAGE, 0x800_0000);
  }

  lemma HugeStepped(m: Mem, n: Mem, o: Mem, root: nat, virt: nat, first: nat, c: nat, to: Target, ok: bool, next: nat)
    requires first < PAGES && c + 512 <= PAGES && RangeMapped(m, n, root, first, c, to)
    requires PageOf(virt) == (first + c) % PAGES && virt % HUGE_PAGE == 0
    requires if ok then HugeMapped(n, o, root, PageOf(virt), to.frame + c, to.perms) else SameWalks(n, o, root)
    requires next == if ok then c + 512 else c
    ensures RangeMapped(m, o, root, first, next, to)
  {
    if ok {
      HugeAligned(virt);
      SameRemainder(first + c);
      RangeGrowsByHuge(m, n, o, root, first, c, to);
    } else {
      RangeSame(m, n, o, root, first, c, to);
    }
  }

  lemma SameRemainder(x: nat)
    ensures x % PAGES % 512 == x % 512
  {
    ModMod(x, 0x800_0000);
  }

  // ---------- What a range of pages costs ----------

  ghost function Those(ws: set<Path>, keep: Path -> bool): set<Path> {
    set q | q in ws && keep(q)
  }

  lemma OneMore(ws: set<Path>, keep: Path -> bool, q: Path)
    ensures |Those(ws + {q}, keep)| == |Those(ws, keep)| + if keep(q) && q !in ws then 1 else 0
  {
    if q in ws {
      assert ws + {q} == ws;
    } else if keep(q) {
      assert Those(ws + {q}, keep) == Those(ws, keep) + {q};
    } else {
      assert Those(ws + {q}, keep) == Those(ws, keep);
    }
  }

  /** Those of the tables that `m` does not have. */
  ghost function NotThere(m: Mem, root: nat, ws: set<Path>): set<Path> {
    Those(ws, q => Resolve(m, root, q).None?)
  }

  /** How many tables the first `c` pages of the span need that `m` does not have. */
  ghost function Lacked(m: Mem, root: nat, sp: Span, c: nat): nat {
    |NotThere(m, root, Tables(sp, c))|
  }

  /** No page that would get a 4 KB entry lies inside a 2 MB page. */
  ghost predicate NoneHuge(m: Mem, root: nat, sp: Span, c: nat) {
    forall j: nat :: j < c && !Big(sp, j) ==> !WalkPage(m, root, PageAt(sp, j)).Huge?
  }

  /** Nothing is in the way of the span, and there are as many free pages as it lacks tables. */
  ghost predicate Affordable(m: Mem, s: set<nat>, root: nat, sp: Span) {
    NoneHuge(m, root, sp, Count(sp)) && Lacked(m, root, sp, Count(sp)) <= |s|
  }

  /** The table at `q` was there, or the first `c` pages needed it. */
  ghost predicate ThereNow(m: Mem, n: Mem, root: nat, sp: Span, c: nat, q: Path) {
    Resolve(n, root, q).Some? <==> Resolve(m, root, q).Some? || q in Tables(sp, c)
  }

  /** So it is with the tables that the pages still to come pass, and their leaves are as they were. */
  ghost predicate Ahead(m: Mem, n: Mem, root: nat, sp: Span, c: nat) {
    && (forall q :: Depth(q) <= 2 ==> ThereNow(m, n, root, sp, c, q))
    && (forall j: nat :: c <= j < Count(sp) && !Big(sp, j) ==> ThereNow(m, n, root, sp, c, PtOf(PageAt(sp, j))))
    && (forall j: nat :: c <= j < Count(sp) ==>
          WalkPage(n, root, PageAt(sp, j)) == WalkPage(m, root, PageAt(sp, j)))
  }

  /** The first `c` pages are mapped and their tables paid for. */
  ghost predicate Advanced(m: Mem, s: set<nat>, n: Mem, t: set<nat>, root: nat, sp: Span, c: nat) {
    && Boundary(sp, c) && Ahead(m, n, root, sp, c) && NoneHuge(m, root, sp, c)
    && |t| + Lacked(m, root, sp, c) == |s|
  }

  lemma NotAdvanced(m: Mem, s: set<nat>, root: nat, sp: Span)
    ensures Advanced(m, s, m, s, root, sp, 0)
  {
    BoundaryStart(sp);
    assert Tables(sp, 0) == {};
  }

  lemma OneMoreTable(m: Mem, root: nat, ws: set<Path>, q: Path)
    ensures |NotThere(m, root, ws + {q})| ==
      |NotThere(m, root, ws)| + if Resolve(m, root, q).Some? || q in ws then 0 else 1
  {
    OneMore(ws, p => Resolve(m, root, p).None?, q);
  }

  /** `n` has the table at `q` exactly if `m` has it or it is one of `ws`. */
  ghost predicate HadOrAmong(m: Mem, n: Mem, root: nat, ws: set<Path>, q: Path) {
    Resolve(n, root, q).Some? <==> Resolve(m, root, q).Some? || q in ws
  }

  lemma PdCost(m: Mem, n: Mem, root: nat, ws: set<Path>, k: nat)
    requires HadOrAmong(m, n, root, ws, Sub(Root, A(k))) && HadOrAmong(m, n, root, ws, PdOf(k))
    ensures |NotThere(m, root, ws + PdWay(k))| == |NotThere(m, root, ws)| + MissingPd(n, root, k)
  {
    OneMoreTable(m, root, ws, Sub(Root, A(k)));
    OneMoreTable(m, root, ws + {Sub(Root, A(k))}, PdOf(k));
    assert ws + {Sub(Root, A(k))} + {PdOf(k)} == ws + PdWay(k);
  }

  lemma WayCost(m: Mem, n: Mem, root: nat, ws: set<Path>, k: nat)
    requires HadOrAmong(m, n, root, ws, Sub(Root, A(k))) && HadOrAmong(m, n, root, ws, PdOf(k))
    requires HadOrAmong(m, n, root, ws, PtOf(k))
    ensures |NotThere(m, root, ws + Way(k))| == |NotThere(m, root, ws)| + Missing(n, root, k)
  {
    PdCost(m, n, root, ws, k);
    OneMoreTable(m, root, ws + PdWay(k), PtOf(k));
    assert ws + PdWay(k) + {PtOf(k)} == ws + Way(k);
  }

  /** What the next 4 KB page costs. */
  lemma PageCost(m: Mem, n: Mem, root: nat, sp: Span, c: nat)
    requires Ahead(m, n, root, sp, c) && c < Count(sp) && !Big(sp, c)
    ensures Lacked(m, root, sp, c + 1) == Lacked(m, root, sp, c) + Missing(n, root, PageAt(sp, c))
  {
    var k := PageAt(sp, c);
    assert ThereNow(m, n, root, sp, c, Sub(Root, A(k))) && ThereNow(m, n, root, sp, c, PdOf(k));
    assert ThereNow(m, n, root, sp, c, PtOf(k));
    WayCost(m, n, root, Tables(sp, c), k);
    PageStep(sp, c);
  }

  /** What the next 2 MB page costs. */
  lemma HugeCost(m: Mem, n: Mem, root: nat, sp: Span, c: nat)
    requires Ahead(m, n, root, sp, c) && Big(sp, c) && (sp.first + c) % 512 == 0
    ensures Lacked(m, root, sp, c + 512) == Lacked(m, root, sp, c) + MissingPd(n, root, PageAt(sp, c))
  {
    var k := PageAt(sp, c);
    assert ThereNow(m, n, root, sp, c, Sub(Root, A(k))) && ThereNow(m, n, root, sp, c, PdOf(k));
    PdCost(m, n, root, Tables(sp, c), k);
    BigStep(sp, c);
  }

  lemma LackedGrows(m: Mem, root: nat, sp: Span, c: nat, d: nat)
    requires c <= d
    ensures Lacked(m, root, sp, c) <= Lacked(m, root, sp, d)
  {
    TablesGrow(sp, c, d);
    var a, b := NotThere(m, root, Tables(sp, c)), NotThere(m, root, Tables(sp, d));
    assert b == a + (b - a);
  }

  /** A page of the span was mapped by a 4 KB entry. */
  lemma PageAdvanced(m: Mem, s: set<nat>, n: Mem, t: set<nat>, o: Mem, u: set<nat>, root: nat, sp: Span, c: nat,
                     leaf: Leaf, k: nat, next: nat)
    requires Advanced(m, s, n, t, root, sp, c) && c < Count(sp) <= PAGES && !Big(sp, c) && Tree(o, root)
    requires Extended(n, t, o, u, root, k) && Remapped(n, o, root, k, leaf) && leaf.Small?
    requires !WalkPage(n, root, k).Huge? && |u| + Missing(n, root, k) == |t| && k == PageAt(sp, c) && next == c + 1
    ensures Advanced(m, s, o, u, root, sp, next)
  {
    PageCost(m, n, root, sp, c);
    BoundaryAfterPage(sp, c);
    PageAhead(m, n, t, o, u, root, sp, c, leaf);
    assert WalkPage(n, root, PageAt(sp, c)) == WalkPage(m, root, PageAt(sp, c));
  }

  lemma WayNowThere(n: Mem, t: set<nat>, o: Mem, u: set<nat>, root: nat, k: nat)
    requires Extended(n, t, o, u, root, k) && Tree(o, root) && WalkPage(o, root, k).Small?
    ensures forall q :: Resolve(o, root, q).Some? <==> Resolve(n, root, q).Some? || q in Way(k)
  {
    WalkEndsInPt(o, root, A(k), B(k), C(k), D(k));
    assert Resolve(o, root, PdOf(k)).Some?;
    assert Resolve(o, root, Sub(Root, A(k))).Some?;
    assert Resolve(n, root, Root).Some?;
  }

  lemma PageAhead(m: Mem, n: Mem, t: set<nat>, o: Mem, u: set<nat>, root: nat, sp: Span, c: nat, leaf: Leaf)
    requires Ahead(m, n, root, sp, c) && c < Count(sp) <= PAGES && !Big(sp, c) && Tree(o, root)
    requires Extended(n, t, o, u, root, PageAt(sp, c)) && Remapped(n, o, root, PageAt(sp, c), leaf) && leaf.Small?
    ensures Ahead(m, o, root, sp, c + 1)
  {
    var k := PageAt(sp, c);
    PageStep(sp, c);
    assert WalkPage(o, root, k) == leaf;
    WayNowThere(n, t, o, u, root, k);
    AheadAfterPage(m, n, o, root, sp, c, leaf);
  }

  lemma AheadAfterPage(m: Mem, n: Mem, o: Mem, root: nat, sp: Span, c: nat, leaf: Leaf)
    requires Ahead(m, n, root, sp, c) && c < Count(sp) <= PAGES
    requires Tables(sp, c + 1) == Tables(sp, c) + Way(PageAt(sp, c)) && Remapped(n, o, root, PageAt(sp, c), leaf)
    requires forall q :: Resolve(o, root, q).Some? <==> Resolve(n, root, q).Some? || q in Way(PageAt(sp, c))
    ensures Ahead(m, o, root, sp, c + 1)
  {
    forall q | Depth(q) <= 2 ensures ThereNow(m, o, root, sp, c + 1, q) { assert ThereNow(m, n, root, sp, c, q); }
    forall j: nat | c + 1 <= j < Count(sp) && !Big(sp, j)
      ensures ThereNow(m, o, root, sp, c + 1, PtOf(PageAt(sp, j)))
    {
      assert ThereNow(m, n, root, sp, c, PtOf(PageAt(sp, j)));
    }
    forall j: nat | c + 1 <= j < Count(sp)
      ensures WalkPage(o, root, PageAt(sp, j)) == WalkPage(m, root, PageAt(sp, j))
    {
      OtherPage(sp, c, j);
    }
  }

  /** 512 pages of the span were mapped by a 2 MB entry. */
  lemma HugeAdvanced(m: Mem, s: set<nat>, n: Mem, t: set<nat>, o: Mem, u: set<nat>, root: nat, sp: Span, c: nat,
                     frame: nat, flags: Flags, k: nat, next: nat)
    requires Advanced(m, s, n, t, root, sp, c) && c + 512 <= Count(sp) <= PAGES && Big(sp, c)
    requires HungForHuge(n, o, root, k) && HugeMapped(n, o, root, k, frame, flags)
    requires |u| + MissingPd(n, root, k) == |t| && k == PageAt(sp, c) && next == c + 512
    ensures Advanced(m, s, o, u, root, sp, next)
  {
    HugeCost(m, n, root, sp, c);
    BigStep(sp, c);
    BoundaryAfterHuge(sp, c);
    HugeAhead(m, n, o, root, sp, c, frame, flags);
  }

  lemma HugeAhead(m: Mem, n: Mem, o: Mem, root: nat, sp: Span, c: nat, frame: nat, flags: Flags)
    requires Ahead(m, n, root, sp, c) && c + 512 <= Count(sp) <= PAGES && Big(sp, c) && (sp.first + c) % 512 == 0
    requires HungForHuge(n, o, root, PageAt(sp, c)) && HugeMapped(n, o, root, PageAt(sp, c), frame, flags)
    ensures Ahead(m, o, root, sp, c + 512)
  {
    var k := PageAt(sp, c);
    BigStep(sp, c);
    forall q | Depth(q) <= 2 ensures ThereNow(m, o, root, sp, c + 512, q) {
      ShorterNotBelow(q, PtOf(k));
      assert ThereNow(m, n, root, sp, c, q);
    }
    forall j: nat | c + 512 <= j < Count(sp)
      ensures WalkPage(o, root, PageAt(sp, j)) == WalkPage(m, root, PageAt(sp, j))
      ensures !Big(sp, j) ==> ThereNow(m, o, root, sp, c + 512, PtOf(PageAt(sp, j)))
    {
      OtherChunk(sp, c, j);
      IndicesIdentify(PageAt(sp, j), k);
      if !Big(sp, j) { assert ThereNow(m, n, root, sp, c, PtOf(PageAt(sp, j))); }
    }
  }

  /** A step that cannot be taken shows that the span could not be afforded. */
  lemma PageTooDear(m: Mem, s: set<nat>, n: Mem, t: set<nat>, root: nat, sp: Span, c: nat, k: nat)
    requires Advanced(m, s, n, t, root, sp, c) && c < Count(sp) && !Big(sp, c) && k == PageAt(sp, c)
    requires WalkPage(n, root, k).Huge? || |t| < Missing(n, root, k)
    ensures !Affordable(m, s, root, sp)
  {
    PageCost(m, n, root, sp, c);
    LackedGrows(m, root, sp, c + 1, Count(sp));
    assert WalkPage(n, root, PageAt(sp, c)) == WalkPage(m, root, PageAt(sp, c));
  }

  lemma HugeTooDear(m: Mem, s: set<nat>, n: Mem, t: set<nat>, root: nat, sp: Span, c: nat, k: nat)
    requires Advanced(m, s, n, t, root, sp, c) && c + 512 <= Count(sp) && Big(sp, c) && k == PageAt(sp, c)
    requires |t| < MissingPd(n, root, k)
    ensures !Affordable(m, s, root, sp)
  {
    HugeCost(m, n, root, sp, c);
    LackedGrows(m, root, sp, c + 512, Count(sp));
  }

  /** Addresses are 64 bits wide. */
  const TOP: nat := 0x1_0000_0000_0000_0000

  /** The first `c` pages of the span are mapped, and their tables paid for. */
  ghost predicate Progress(m: Mem, s: set<nat>, n: Mem, t: set<nat>, root: nat, sp: Span, flags: Flags, c: nat) {
    SpanMapped(m, n, root, sp, flags, c) && Advanced(m, s, n, t, root, sp, c)
  }

  lemma NoProgress(m: Mem, s: set<nat>, root: nat, sp: Span, flags: Flags)
    ensures Progress(m, s, m, s, root, sp, flags, 0)
  {
    NotAdvanced(m, s, root, sp);
  }

  /** What mapping the next 4 KB page does. */
  lemma PageProgress(m: Mem, s: set<nat>, n: Mem, t: set<nat>, o: Mem, u: set<nat>, root: nat, sp: Span, flags: Flags,
                     c: nat, next: nat, k: nat, frame: nat)
    requires Progress(m, s, n, t, root, sp, flags, c) && c < Count(sp) <= PAGES && !Big(sp, c) && Tree(o, root)
    requires k == PageAt(sp, c) && frame == sp.frame + c && next == c + 1
    requires Extended(n, t, o, u, root, k) && Remapped(n, o, root, k, Small(frame, flags))
    requires !WalkPage(n, root, k).Huge? && |u| + Missing(n, root, k) == |t|
    ensures Progress(m, s, o, u, root, sp, flags, next)
  {
    PageSpanned(m, n, o, root, sp, flags, c, next, k, frame);
    PageAdvanced(m, s, n, t, o, u, root, sp, c, Small(frame, flags), k, next);
  }

  lemma PageSpanned(m: Mem, n: Mem, o: Mem, root: nat, sp: Span, flags: Flags, c: nat, next: nat, k: nat, frame: nat)
    requires SpanMapped(m, n, root, sp, flags, c) && c < PAGES
    requires k == PageAt(sp, c) && frame == sp.frame + c && next == c + 1
    requires Remapped(n, o, root, k, Small(frame, flags))
    ensures SpanMapped(m, o, root, sp, flags, next)
  {
    PageAtFirst(sp, c);
    RangeGrowsByPage(m, n, o, root, PageAt(sp, 0), c, Target(sp.frame, flags));
  }

  /** What failing to map it does, and what it shows. */
  lemma PageBlocked(m: Mem, s: set<nat>, n: Mem, t: set<nat>, o: Mem, root: nat, sp: Span, flags: Flags, c: nat, k: nat)
    requires Progress(m, s, n, t, root, sp, flags, c) && c < Count(sp) <= PAGES && !Big(sp, c) && k == PageAt(sp, c)
    requires SameWalks(n, o, root) && (WalkPage(n, root, k).Huge? || |t| < Missing(n, root, k))
    ensures !Affordable(m, s, root, sp) && SpanMapped(m, o, root, sp, flags, c)
  {
    RangeSame(m, n, o, root, PageAt(sp, 0), c, Target(sp.frame, flags));
    PageTooDear(m, s, n, t, root, sp, c, k);
  }

  /** What mapping the next 2 MB page does. */
  lemma HugeProgress(m: Mem, s: set<nat>, n: Mem, t: set<nat>, o: Mem, u: set<nat>, root: nat, sp: Span, flags: Flags,
                     c: nat, next: nat, virt: nat, k: nat, frame: nat, ok: bool)
    requires Progress(m, s, n, t, root, sp, flags, c) && c + 512 <= Count(sp) <= PAGES && Big(sp, c)
    requires k == PageAt(sp, c) == PageOf(virt) && frame == sp.frame + c && next == c + 512 && virt % HUGE_PAGE == 0
    requires ok <==> |t| >= MissingPd(n, root, k)
    requires ok ==> |u| + MissingPd(n, root, k) == |t| && HungForHuge(n, o, root, k)
    requires if ok then HugeMapped(n, o, root, k, frame, flags) else SameWalks(n, o, root)
    ensures if ok then Progress(m, s, o, u, root, sp, flags, next)
            else !Affordable(m, s, root, sp) && SpanMapped(m, o, root, sp, flags, c)
  {
    PageAtFirst(sp, c);
    HugeStepped(m, n, o, root, virt, PageAt(sp, 0), c, Target(sp.frame, flags), ok, if ok then next else c);
    if ok {
      HugeAdvanced(m, s, n, t, o, u, root, sp, c, frame, flags, k, next);
    } else {
      HugeTooDear(m, s, n, t, root, sp, c, k);
    }
  }

  /** They grant `flags` on the pages of the span, and on every other page what they granted before. */
  ghost predicate SpanGranted(m: Mem, n: Mem, root: nat, sp: Span, flags: Flags) {
    forall j: nat :: j < PAGES ==>
      Granted(n, root, j) == if Offset(j, PageAt(sp, 0)) < Count(sp) then Some(flags) else Granted(m, root, j)
  }

  lemma SpanGrant(m: Mem, n: Mem, root: nat, sp: Span, flags: Flags)
    requires Tree(m, root) && Tree(n, root) && SpanMapped(m, n, root, sp, flags, Count(sp))
    ensures SpanGranted(m, n, root, sp, flags)
  {
    forall j: nat | j < PAGES
      ensures Granted(n, root, j) == if Offset(j, PageAt(sp, 0)) < Count(sp) then Some(flags) else Granted(m, root, j)
    {
      GrantedIsFlat(m, root, j);
      GrantedIsFlat(n, root, j);
    }
  }

  /** What the levels grant on a page is what the flat map says of it. */
  lemma GrantedIsFlat(m: Mem, root: nat, j: nat)
    requires Tree(m, root)
    ensures Granted(m, root, j) == match Flat(m, root, j) case None => None case Some(t) => Some(t.perms)
  {
    GrantedIsLeaf(m, root, j);
  }

  lemma PageAtFirst(sp: Span, c: nat)
    ensures PageAt(sp, c) == (PageAt(sp, 0) + c) % PAGES
  {
    ModAdd(sp.first, c);
  }

  lemma HugeNumber(x: nat)
    ensures (x * PAGE) % HUGE_PAGE == 0 <==> x % 512 == 0
    ensures x * PAGE / PAGE == x && PageOf(x * PAGE) == x % PAGES
  {
  }

  /** What the loop tests, in terms of the span. */
  lemma StepTest(sp: Span, c: nat, virt: nat, phys: nat, remaining: nat)
    requires Boundary(sp, c) && c < Count(sp)
    requires virt == (sp.first + c) * PAGE && phys == (sp.frame + c) * PAGE && remaining + c * PAGE == sp.size
    ensures Big(sp, c) <==> virt % HUGE_PAGE == 0 && phys % HUGE_PAGE == 0 && remaining >= HUGE_PAGE
    ensures Big(sp, c) ==> c + 512 <= Count(sp)
    ensures PageOf(virt) == PageAt(sp, c) && phys / PAGE == sp.frame + c
  {
    HugeNumber(sp.first + c);
    HugeNumber(sp.frame + c);
    BigTest(sp, c);
  }

  class PageTableManager {
    const pml4: nat
    const mem: Memory

    constructor (mem: Memory, pml4: nat)
      ensures this.mem == mem && this.pml4 == pml4
    {
      this.mem := mem;
      this.pml4 := pml4;
    }

    /** The tables form a tree, and none of them is a free page. */
    ghost predicate Valid(alloc: Buddy)
      reads this, mem, alloc, alloc.mem
    {
      && alloc.mem == mem && alloc.Valid()
      && Tree(mem.cells, pml4) && TablesAvoid(mem.cells, pml4, alloc.free)
    }

    /** Writes one entry of a table that is not a free page. */
    method WriteEntry(ghost alloc: Buddy, t: nat, i: nat, e: Entry)
      requires alloc.mem == mem && alloc.Valid() && t !in alloc.free && IsTable(At(mem.cells, t)) && i < 512
      modifies mem
      ensures alloc.Valid() && mem.cells == SetEntry(old(mem.cells), t, i, e)
    {
      alloc.StoreSafe(t, Table(At(mem.cells, t).entries[i := e]));
      mem.cells := SetEntry(mem.cells, t, i, e);
    }

    /** Takes a free page, zeroes it and hangs it below entry `i` of table `t`. */
    method AddTable(alloc: Buddy, t: nat, i: nat, user: bool, ghost p: Path, ghost k: nat) returns (r: Option<nat>)
      requires Valid(alloc) && Resolve(mem.cells, pml4, p) == Some(t) && Depth(p) < 3 && i < 512
      requires OnWay(k, p) && OnWay(k, Sub(p, i)) && !EntryAt(mem.cells, t, i).present
      requires user ==> UserAbove(mem.cells, pml4, p)
      modifies alloc, mem
      ensures Valid(alloc) && Prepared(old(mem.cells), old(alloc.free), mem.cells, alloc.free, pml4, k)
      ensures r.None? ==> old(alloc.free) == alloc.free == {} && mem.cells == old(mem.cells)
      ensures r.Some? ==> r.value in old(alloc.free) && alloc.free == old(alloc.free) - {r.value}
      ensures r.Some? ==> OnlyTable(old(mem.cells), mem.cells, pml4, Sub(p, i))
      ensures r.Some? ==> Resolve(mem.cells, pml4, Sub(p, i)) == r && (user ==> UserAt(mem.cells, pml4, p, i))
    {
      ghost var m, s := mem.cells, alloc.free;
      r := alloc.AllocPage();
      if r.Some? {
        TableAdded(m, s, mem.cells, r.value, pml4, k, p, i, user);
        alloc.StoreSafe(r.value, EMPTY_TABLE);
        mem.cells := mem.cells[r.value := EMPTY_TABLE];
        WriteEntry(alloc, t, i, TableEntry(r.value, user));
      }
    }

    /** Adds the missing table below entry `i`, if a page is free. */
    method PayForTable(alloc: Buddy, t: nat, i: nat, user: bool, ghost p: Path, ghost k: nat) returns (r: Option<nat>)
      requires Valid(alloc) && Resolve(mem.cells, pml4, p) == Some(t) && Depth(p) < 3 && i < 512
      requires OnWay(k, p) && OnWay(k, Sub(p, i)) && !EntryAt(mem.cells, t, i).present
      requires user ==> UserAbove(mem.cells, pml4, p)
      modifies alloc, mem
      ensures Valid(alloc) && Prepared(old(mem.cells), old(alloc.free), mem.cells, alloc.free, pml4, k)
      ensures r.None? ==> alloc.free == {}
      ensures Ensured(old(mem.cells), old(alloc.free), mem.cells, alloc.free, pml4, Sub(p, i), r.Some?)
      ensures r.Some? ==> Resolve(mem.cells, pml4, Sub(p, i)) == r && (user ==> UserAt(mem.cells, pml4, p, i))
    {
      ghost var m, s := mem.cells, alloc.free;
      assert Resolve(m, pml4, Sub(p, i)).None?;
      r := AddTable(alloc, t, i, user, p, k);
      if r.Some? {
        PaidByOne(m, s, mem.cells, r.value, pml4, Sub(p, i));
      } else {
        NotPaid(m, s, pml4, Sub(p, i));
      }
    }

    /** The table below entry `i` of the table `t` at path `p`, created if it is absent. */
    method EnsureTable(alloc: Buddy, t: nat, i: nat, user: bool, ghost p: Path, ghost k: nat) returns (r: Option<nat>)
      requires Valid(alloc) && Resolve(mem.cells, pml4, p) == Some(t) && Depth(p) < 3 && i < 512
      requires OnWay(k, p) && OnWay(k, Sub(p, i)) && (user ==> UserAbove(mem.cells, pml4, p))
      modifies alloc, mem
      ensures Valid(alloc) && Prepared(old(mem.cells), old(alloc.free), mem.cells, alloc.free, pml4, k)
      ensures r.Some? ==> Resolve(mem.cells, pml4, Sub(p, i)) == r && (user ==> UserAt(mem.cells, pml4, p, i))
      ensures Ensured(old(mem.cells), old(alloc.free), mem.cells, alloc.free, pml4, Sub(p, i), r.Some?)
      ensures r.None? ==> old(HugeAt(mem.cells, pml4, p, i)) || alloc.free == {}
      ensures r.Some? ==> !old(HugeAt(mem.cells, pml4, p, i))
    {
      var e := EntryAt(mem.cells, t, i);
      if !e.present {
        r := PayForTable(alloc, t, i, user, p, k);
      } else if e.huge {
        NotPaid(mem.cells, alloc.free, pml4, Sub(p, i));
        r := None;
      } else {
        OpenTable(alloc, t, i, user, e, p, k);
        r := Some(e.frame);
      }
    }

    /** Sets the user bit of entry `i`, which points to a table, if it is needed and missing. */
    method OpenTable(ghost alloc: Buddy, t: nat, i: nat, user: bool, e: Entry, ghost p: Path, ghost k: nat)
      requires Valid(alloc) && Resolve(mem.cells, pml4, p) == Some(t) && Depth(p) < 3 && i < 512 && OnWay(k, p)
      requires e == EntryAt(mem.cells, t, i) && PointsToTable(e) && (user ==> UserAbove(mem.cells, pml4, p))
      modifies mem
      ensures Valid(alloc) && Prepared(old(mem.cells), alloc.free, mem.cells, alloc.free, pml4, k)
      ensures Resolve(mem.cells, pml4, Sub(p, i)) == Some(e.frame) && (user ==> UserAt(mem.cells, pml4, p, i))
      ensures Ensured(old(mem.cells), alloc.free, mem.cells, alloc.free, pml4, Sub(p, i), true)
    {
      if user && !e.user {
        UserBitAdded(mem.cells, alloc.free, pml4, k, p, i, e.(user := true));
        WriteEntry(alloc, t, i, e.(user := true));
      }
    }

    /** The level-2 table for `virt`. */
    method EnsurePd(alloc: Buddy, virt: nat, user: bool) returns (r: Option<nat>)
      requires Valid(alloc)
      modifies alloc, mem
      ensures Valid(alloc) && Prepared(old(mem.cells), old(alloc.free), mem.cells, alloc.free, pml4, PageOf(virt))
      ensures r.Some? ==> Resolve(mem.cells, pml4, PdOf(PageOf(virt))) == r
      ensures r.Some? && user ==>
        UserAt(mem.cells, pml4, Root, I4(virt)) && UserAt(mem.cells, pml4, Sub(Root, I4(virt)), I3(virt))
      ensures PdEnsured(old(mem.cells), old(alloc.free), mem.cells, alloc.free, pml4, PageOf(virt), r.Some?)
    {
      PartsOfPage(virt);
      ghost var k := PageOf(virt);
      HugeOnlyAtPd(mem.cells, pml4, Root, I4(virt));
      r := EnsureTable(alloc, pml4, I4(virt), user, Root, k);
      if r.None? {
        PdNotPaid(old(mem.cells), mem.cells, pml4, k);
      } else {
        ghost var m, s := mem.cells, alloc.free;
        HugeOnlyAtPd(m, pml4, Sub(Root, I4(virt)), I3(virt));
        r := EnsureTable(alloc, r.value, I3(virt), user, Sub(Root, I4(virt)), k);
        PreparedTrans(old(mem.cells), old(alloc.free), m, s, mem.cells, alloc.free, pml4, k);
        PdPaid(old(mem.cells), old(alloc.free), m, s, mem.cells, alloc.free, pml4, k, r.Some?);
      }
    }

    /** The level-1 table for `virt`. */
    method EnsurePt(alloc: Buddy, virt: nat, user: bool) returns (r: Option<nat>)
      requires Valid(alloc)
      modifies alloc, mem
      ensures Valid(alloc) && Prepared(old(mem.cells), old(alloc.free), mem.cells, alloc.free, pml4, PageOf(virt))
      ensures r.Some? ==> Resolve(mem.cells, pml4, PtOf(PageOf(virt))) == r
      ensures r.Some? && user ==> var k := PageOf(virt);
        && UserAt(mem.cells, pml4, Root, A(k))
        && UserAt(mem.cells, pml4, Sub(Root, A(k)), B(k))
        && UserAt(mem.cells, pml4, PdOf(k), C(k))
      ensures WayEnsured(old(mem.cells), old(alloc.free), mem.cells, alloc.free, pml4, PageOf(virt), r.Some?)
    {
      PartsOfPage(virt);
      ghost var k := PageOf(virt);
      if WalkPage(mem.cells, pml4, k).Huge? { HugeComplete(mem.cells, pml4, k); }
      r := EnsurePd(alloc, virt, user);
      if r.None? {
        WayNotPaid(old(mem.cells), old(alloc.free), mem.cells, alloc.free, pml4, k);
      } else {
        ghost var m, s := mem.cells, alloc.free;
        HugeWalk(m, pml4, k);
        r := EnsureTable(alloc, r.value, I2(virt), user, PdOf(k), k);
        PreparedTrans(old(mem.cells), old(alloc.free), m, s, mem.cells, alloc.free, pml4, k);
        WayPaid(old(mem.cells), old(alloc.free), m, s, mem.cells, alloc.free, pml4, k, r.Some?);
      }
    }

    /** Maps the page of `virt` to `frame`. */
    method Map4K(alloc: Buddy, virt: nat, frame: nat, flags: Flags) returns (ok: bool)
      requires Valid(alloc)
      modifies alloc, mem
      ensures Valid(alloc)
      ensures Extended(old(mem.cells), old(alloc.free), mem.cells, alloc.free, pml4, PageOf(virt))
      ensures !ok ==> SameWalks(old(mem.cells), mem.cells, pml4)
      ensures ok ==> Remapped(old(mem.cells), mem.cells, pml4, PageOf(virt), Small(frame, flags))
      ensures ok ==> Regranted(old(mem.cells), mem.cells, pml4, PageOf(virt), Some(flags))
      ensures !ok ==> SameGrants(old(mem.cells), mem.cells, pml4)
      ensures WayEnsured(old(mem.cells), old(alloc.free), mem.cells, alloc.free, pml4, PageOf(virt), ok)
    {
      PartsOfPage(virt);
      ghost var k := PageOf(virt);
      var pt := EnsurePt(alloc, virt, flags.user);
      if pt.None? {
        WalksGrant(old(mem.cells), mem.cells, pml4);
        return false;
      }
      ghost var m, s := mem.cells, alloc.free;
      PageWritten(m, s, pml4, k, PageEntry(frame, flags));
      WriteEntry(alloc, pt.value, I1(virt), PageEntry(frame, flags));
      ExtendedTrans(old(mem.cells), old(alloc.free), m, s, mem.cells, alloc.free, pml4, k);
      RemappedAfter(old(mem.cells), m, mem.cells, pml4, k, Small(frame, flags));
      PageGrant(old(mem.cells), mem.cells, pml4, k, Small(frame, flags));
      return true;
    }

    /**
     * Maps the 2 MB page of `virt` to the 512 frames from `frame` on. A level-1 table that was there is dropped from
     * the tree and not freed.
     */
    method Map2M(alloc: Buddy, virt: nat, frame: nat, flags: Flags) returns (ok: bool)
      requires Valid(alloc)
      modifies alloc, mem
      ensures Valid(alloc) && alloc.free <= old(alloc.free)
      ensures ok <==> |old(alloc.free)| >= old(MissingPd(mem.cells, pml4, PageOf(virt)))
      ensures !ok ==> SameWalks(old(mem.cells), mem.cells, pml4) && alloc.free == {}
      ensures ok ==> HugeMapped(old(mem.cells), mem.cells, pml4, PageOf(virt), frame, flags)
      ensures ok ==> HungForHuge(old(mem.cells), mem.cells, pml4, PageOf(virt))
      ensures ok ==> |alloc.free| + old(MissingPd(mem.cells, pml4, PageOf(virt))) == |old(alloc.free)|
      ensures ok ==> HugeGranted(old(mem.cells), mem.cells, pml4, PageOf(virt), flags)
      ensures !ok ==> SameGrants(old(mem.cells), mem.cells, pml4)
      ensures SameExcept(old(mem.cells), mem.cells, old(alloc.free) + PathTables(old(mem.cells), pml4, PageOf(virt)))
    {
      PartsOfPage(virt);
      ghost var k := PageOf(virt);
      var pd := EnsurePd(alloc, virt, flags.user);
      if pd.None? {
        WalksGrant(old(mem.cells), mem.cells, pml4);
        return false;
      }
      ghost var m := mem.cells;
      HugeWritten(old(mem.cells), old(alloc.free), m, alloc.free, pml4, k, frame, flags);
      WriteEntry(alloc, pd.value, I2(virt), HugeEntry(frame, flags));
      PdHung(old(mem.cells), old(alloc.free), m, alloc.free, mem.cells, pml4, k);
      HugeGrant(old(mem.cells), mem.cells, pml4, k, frame, flags);
      return true;
    }

    /** Clears the page of `virt`, which must not lie inside a 2 MB page, and returns its frame. */
    method Unmap(ghost alloc: Buddy, virt: nat) returns (r: Option<nat>)
      requires Valid(alloc) && !WalkPage(mem.cells, pml4, PageOf(virt)).Huge?
      modifies mem
      ensures Valid(alloc)
      ensures r == match Flat(old(mem.cells), pml4, PageOf(virt)) case None => None case Some(t) => Some(t.frame)
      ensures r.None? ==> mem.cells == old(mem.cells)
      ensures Remapped(old(mem.cells), mem.cells, pml4, PageOf(virt), Unmapped)
      ensures Regranted(old(mem.cells), mem.cells, pml4, PageOf(virt), None)
      ensures forall q :: Resolve(mem.cells, pml4, q) == old(Resolve(mem.cells, pml4, q))
      ensures SameExcept(old(mem.cells), mem.cells, PathTables(old(mem.cells), pml4, PageOf(virt)))
    {
      r := ClearPage(alloc, virt);
      PageGrant(old(mem.cells), mem.cells, pml4, PageOf(virt), Unmapped);
    }

    /** Walks to the entry of `virt` and clears it. */
    method ClearPage(ghost alloc: Buddy, virt: nat) returns (r: Option<nat>)
      requires Valid(alloc) && !WalkPage(mem.cells, pml4, PageOf(virt)).Huge?
      modifies mem
      ensures Valid(alloc)
      ensures r == match Flat(old(mem.cells), pml4, PageOf(virt)) case None => None case Some(t) => Some(t.frame)
      ensures r.None? ==> mem.cells == old(mem.cells)
      ensures Remapped(old(mem.cells), mem.cells, pml4, PageOf(virt), Unmapped)
      ensures forall q :: Resolve(mem.cells, pml4, q) == old(Resolve(mem.cells, pml4, q))
      ensures SameExcept(old(mem.cells), mem.cells, PathTables(old(mem.cells), pml4, PageOf(virt)))
    {
      PartsOfPage(virt);
      ghost var k := PageOf(virt);
      if WalkPage(mem.cells, pml4, k).Small? { WalkEndsInPt(mem.cells, pml4, A(k), B(k), C(k), D(k)); }
      var e := EntryAt(mem.cells, pml4, I4(virt));
      if !e.present { return None; }
      e := EntryAt(mem.cells, e.frame, I3(virt));
      if !e.present { return None; }
      e := EntryAt(mem.cells, e.frame, I2(virt));
      if !e.present { return None; }
      var pt := e.frame;
      e := EntryAt(mem.cells, pt, I1(virt));
      if !e.present { return None; }
      assert Resolve(mem.cells, pml4, PtOf(k)) == Some(pt);
      PageWritten(mem.cells, alloc.free, pml4, k, EMPTY);
      PathTablesMember(mem.cells, pml4, k, PtOf(k));
      WriteEntry(alloc, pt, I1(virt), EMPTY);
      return Some(e.frame);
    }

    /** Maps the 2 MB page that comes after the first `c` pages of the span. */
    method MapHugeStep(alloc: Buddy, virt: nat, frame: nat, flags: Flags, ghost m: Mem, ghost s: set<nat>,
                       ghost sp: Span, ghost c: nat, ghost next: nat, ghost k: nat) returns (ok: bool)
      requires Valid(alloc) && Progress(m, s, mem.cells, alloc.free, pml4, sp, flags, c) && Big(sp, c)
      requires PageOf(virt) == k == PageAt(sp, c) && virt % HUGE_PAGE == 0 && frame == sp.frame + c
      requires c + 512 <= Count(sp) <= PAGES && next == c + 512
      modifies alloc, mem
      ensures Valid(alloc)
      ensures if ok then Progress(m, s, mem.cells, alloc.free, pml4, sp, flags, next)
              else !Affordable(m, s, pml4, sp) && SpanMapped(m, mem.cells, pml4, sp, flags, c)
    {
      ghost var n, t := mem.cells, alloc.free;
      ok := Map2M(alloc, virt, frame, flags);
      HugeProgress(m, s, n, t, mem.cells, alloc.free, pml4, sp, flags, c, next, virt, k, frame, ok);
    }

    /** Maps the page that comes after the first `c` pages of the span. */
    method MapPageStep(alloc: Buddy, virt: nat, frame: nat, flags: Flags, ghost m: Mem, ghost s: set<nat>,
                       ghost sp: Span, ghost c: nat, ghost next: nat, ghost k: nat) returns (ok: bool)
      requires Valid(alloc) && Progress(m, s, mem.cells, alloc.free, pml4, sp, flags, c) && !Big(sp, c)
      requires PageOf(virt) == k == PageAt(sp, c) && frame == sp.frame + c && c < Count(sp) <= PAGES && next == c + 1
      modifies alloc, mem
      ensures Valid(alloc)
      ensures if ok then Progress(m, s, mem.cells, alloc.free, pml4, sp, flags, next)
              else !Affordable(m, s, pml4, sp) && SpanMapped(m, mem.cells, pml4, sp, flags, c)
    {
      ghost var n, t := mem.cells, alloc.free;
      ok := Map4K(alloc, virt, frame, flags);
      if ok {
        PageProgress(m, s, n, t, mem.cells, alloc.free, pml4, sp, flags, c, next, k, frame);
      } else {
        PageBlocked(m, s, n, t, mem.cells, pml4, sp, flags, c, k);
      }
    }

    /** One step of `MapRange`: `c` pages are done, and `pages` more are mapped, up to `next`. */
    method MapStep(alloc: Buddy, virt: nat, phys: nat, remaining: nat, flags: Flags, ghost m: Mem, ghost s: set<nat>,
                   ghost sp: Span, ghost c: nat) returns (ok: bool, pages: nat, ghost next: nat)
      requires Valid(alloc) && Progress(m, s, mem.cells, alloc.free, pml4, sp, flags, c) && c < Count(sp) <= PAGES
      requires virt == (sp.first + c) * PAGE && phys == (sp.frame + c) * PAGE && remaining + c * PAGE == sp.size
      modifies alloc, mem
      ensures Valid(alloc) && next == c + pages <= Count(sp) && pages > 0
      ensures if ok then Progress(m, s, mem.cells, alloc.free, pml4, sp, flags, next)
              else !Affordable(m, s, pml4, sp) && SpanMapped(m, mem.cells, pml4, sp, flags, c)
    {
      StepTest(sp, c, virt, phys, remaining);
      var frame := phys / PAGE;
      ghost var k := PageOf(virt);
      if virt % HUGE_PAGE == 0 && phys % HUGE_PAGE == 0 && remaining >= HUGE_PAGE {
        pages := 512;
        next := c + 512;
        ok := MapHugeStep(alloc, virt, frame, flags, m, s, sp, c, next, k);
      } else {
        pages := 1;
        next := c + 1;
        ok := MapPageStep(alloc, virt, frame, flags, m, s, sp, c, next, k);
      }
    }

    /**
     * Maps `size` bytes, by 2 MB pages wherever both addresses are aligned and enough is left. It succeeds if and only
     * if the range ends below 2^64, no 4 KB page of it lies inside a 2 MB page, and as many pages are free as it lacks
     * tables.
     */
    method MapRange(alloc: Buddy, virtStart: nat, physStart: nat, size: nat, flags: Flags) returns (ok: bool)
      requires Valid(alloc) && virtStart % PAGE == 0 && physStart % PAGE == 0 && size <= PAGES * PAGE
      modifies alloc, mem
      ensures Valid(alloc)
      ensures var sp := Span(virtStart / PAGE, physStart / PAGE, size);
        && (ok <==> size == 0 || (virtStart + size < TOP && old(Affordable(mem.cells, alloc.free, pml4, sp))))
        && (ok ==> SpanMapped(old(mem.cells), mem.cells, pml4, sp, flags, Count(sp)))
        && (ok ==> SpanGranted(old(mem.cells), mem.cells, pml4, sp, flags))
        && (ok ==> |alloc.free| + Lacked(old(mem.cells), pml4, sp, Count(sp)) == |old(alloc.free)|)
        && (!ok ==> PrefixMapped(old(mem.cells), mem.cells, pml4, sp, flags))
    {
      ghost var m, s, sp := mem.cells, alloc.free, Span(virtStart / PAGE, physStart / PAGE, size);
      NoProgress(m, s, pml4, sp, flags);
      if size == 0 {
        SpanGrant(m, m, pml4, sp, flags);
        return true;
      }
      if virtStart + size >= TOP { return false; }
      ok := MapPages(alloc, virtStart, physStart, virtStart + size, flags, m, s, sp);
      if ok { SpanGrant(m, mem.cells, pml4, sp, flags); }
    }

    /** The loop of `MapRange`. */
    method MapPages(alloc: Buddy, virtStart: nat, physStart: nat, end: nat, flags: Flags, ghost m: Mem,
                    ghost s: set<nat>, ghost sp: Span) returns (ok: bool)
      requires Valid(alloc) && Progress(m, s, mem.cells, alloc.free, pml4, sp, flags, 0) && Count(sp) <= PAGES
      requires virtStart == sp.first * PAGE && physStart == sp.frame * PAGE && end == virtStart + sp.size
      modifies alloc, mem
      ensures Valid(alloc) && (ok <==> Affordable(m, s, pml4, sp))
      ensures ok ==> SpanMapped(m, mem.cells, pml4, sp, flags, Count(sp))
      ensures ok ==> |alloc.free| + Lacked(m, pml4, sp, Count(sp)) == |s|
      ensures !ok ==> PrefixMapped(m, mem.cells, pml4, sp, flags)
    {
      var virt, phys := virtStart, physStart;
      ghost var c: nat := 0;
      while virt < end
        invariant Valid(alloc) && virt == (sp.first + c) * PAGE && phys == (sp.frame + c) * PAGE && c <= Count(sp)
        invariant Progress(m, s, mem.cells, alloc.free, pml4, sp, flags, c)
        decreases end - virt
      {
        var pages: nat;
        ghost var next: nat;
        ok, pages, next := MapStep(alloc, virt, phys, end - virt, flags, m, s, sp, c);
        if !ok { return; }
        virt, phys, c := virt + pages * PAGE, phys + pages * PAGE, next;
      }
      assert c == Count(sp);
      ok := true;
    }
  }
}
