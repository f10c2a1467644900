/** The kernel heap: ten lists of equal objects carved from single pages, and whole blocks for anything larger. */
module SlabHeap {
  import opened Bits
  import opened BuddyBlocks
  import opened BuddyAllocator

  const CLASSES: nat := 10
  const SLAB_SIZES: seq<nat> := [8, 16, 32, 64, 128, 256, 512, 1024, 2048, 4096]

  /** A byte of physical memory: a page and an offset in it. */
  datatype Addr = Addr(page: nat, off: nat)

  /** What a caller asks for: a size, and an alignment of `2^alignExp` bytes. */
  datatype Layout = Layout(size: nat, alignExp: nat)

  /** The bytes that count: the size, the alignment, and room for a link. */
  function Need(l: Layout): nat { Max(Max(l.size, Pow2(l.alignExp)), 8) }

  lemma SlabSizes(c: nat)
    requires c < CLASSES
    ensures SLAB_SIZES[c] == Pow2(c + 3)
  {
    assert Pow2(3) == 8 && Pow2(4) == 16 && Pow2(5) == 32 && Pow2(6) == 64 && Pow2(7) == 128;
    assert Pow2(8) == 256 && Pow2(9) == 512 && Pow2(10) == 1024 && Pow2(11) == 2048 && Pow2(12) == 4096;
  }

  /** The first class from `i` on whose objects hold `size` bytes. */
  function SizeToSlab(size: nat, i: nat := 0): (r: Option<nat>)
    requires i <= CLASSES
    ensures r.Some? ==>
      i <= r.value < CLASSES && SLAB_SIZES[r.value] >= size && forall j :: i <= j < r.value ==> SLAB_SIZES[j] < size
    ensures r.None? ==> forall j :: i <= j < CLASSES ==> SLAB_SIZES[j] < size
    decreases CLASSES - i
  {
    if i == CLASSES then None else if SLAB_SIZES[i] >= size then Some(i) else SizeToSlab(size, i + 1)
  }

  /** The smallest order of a block with `pages` pages. */
  function OrderFrom(pages: nat, o: nat): (r: nat)
    ensures pages <= Pow2(r) && o <= r && (o < r ==> Pow2(r - 1) < pages)
    decreases pages - Pow2(o)
  {
    if pages <= Pow2(o) then o else OrderFrom(pages, o + 1)
  }

  method PagesToOrder(pages: nat) returns (order: nat)
    ensures order == OrderFrom(pages, 0)
  {
    order := 0;
    var n := 1;
    while n < pages
      invariant n == Pow2(order) && OrderFrom(pages, 0) == OrderFrom(pages, order)
      decreases pages - n
    {
      n := n * 2;
      order := order + 1;
    }
  }

  ghost function LargeOrder(l: Layout): nat { OrderFrom(AlignUpPage(Need(l)), 0) }

  // ---------- Alignment ----------

  lemma {:induction false} SlotsApart(x: nat, y: nat, n: nat)
    requires Aligned(x, n) && Aligned(y, n) && x < y
    ensures x + Pow2(n) <= y
  {
    if n > 0 { SlotsApart(x / 2, y / 2, n - 1); }
  }

  lemma {:induction false} AlignedSum(x: nat, y: nat, n: nat)
    requires Aligned(x, n) && Aligned(y, n)
    ensures Aligned(x + y, n)
  {
    if n > 0 {
      AlignedSum(x / 2, y / 2, n - 1);
      assert (x + y) / 2 == x / 2 + y / 2;
    }
  }

  const PAGE_BITS: nat := 12

  /** `p` shifted left by `k` bits. */
  function ShiftLeft(p: nat, k: nat): nat { if k == 0 then p else 2 * ShiftLeft(p, k - 1) }

  lemma PageShift(p: nat)
    ensures ShiftLeft(p, PAGE_BITS) == 4096 * p
  {
    FourBits(p, 0);
    FourBits(p, 4);
    FourBits(p, 8);
  }

  lemma FourBits(p: nat, k: nat)
    ensures ShiftLeft(p, k + 4) == 16 * ShiftLeft(p, k)
  {
    assert ShiftLeft(p, k + 2) == 4 * ShiftLeft(p, k);
    assert ShiftLeft(p, k + 4) == 4 * ShiftLeft(p, k + 2);
  }

  lemma {:induction false} AlignedShift(p: nat, n: nat, k: nat)
    requires Aligned(p, n)
    ensures Aligned(ShiftLeft(p, k), n + k)
  {
    if k > 0 {
      AlignedShift(p, n, k - 1);
      AlignedDouble(ShiftLeft(p, k - 1), n + k - 1);
    }
  }

  lemma {:induction false} PowerShift(n: nat, k: nat)
    ensures ShiftLeft(Pow2(n), k) == Pow2(n + k)
  {
    if k > 0 { PowerShift(n, k - 1); }
  }

  lemma {:induction false} SmallerPower(e: nat, n: nat)
    requires Pow2(e) <= Pow2(n)
    ensures e <= n
  {
    if n < e { Pow2Monotone(n, e); SameSize(n, e); }
  }

  // ---------- Who owns a page ----------

  datatype Owner = Slab(class_: nat) | Large(head: nat)

  type Owners = map<nat, Owner>

  /** An object of class `c`. */
  ghost predicate IsSlot(owner: Owners, c: nat, a: Addr) {
    a.page in owner && owner[a.page] == Slab(c) && Aligned(a.off, c + 3) && a.off + Pow2(c + 3) <= 4096
  }

  /** The whole block belongs to the allocation that starts with it. */
  ghost predicate IsLarge(owner: Owners, order: nat, a: Addr) {
    && a.off == 0
    && IsBlock(a.page, order)
    && forall p :: p in BlockPages(a.page, order) ==> p in owner && owner[p] == Large(a.page)
  }

  ghost predicate IsAllocation(owner: Owners, a: Addr, l: Layout) {
    match SizeToSlab(Need(l))
    case Some(c) => IsSlot(owner, c, a)
    case None => IsLarge(owner, LargeOrder(l), a)
  }

  function Start(a: Addr): nat { 4096 * a.page + a.off }

  /** The bytes that the allocation may use. */
  ghost function Room(l: Layout): nat {
    match SizeToSlab(Need(l))
    case Some(c) => Pow2(c + 3)
    case None => 4096 * Pow2(LargeOrder(l))
  }

  /** An allocation is at least as long as was asked for. */
  lemma LongEnough(l: Layout)
    ensures l.size <= Need(l) <= Room(l)
  {
    match SizeToSlab(Need(l))
    case Some(c) => SlabSizes(c);
    case None =>
  }

  lemma SlotAligned(a: Addr, n: nat, e: nat)
    requires Aligned(a.off, n) && n <= PAGE_BITS && e <= n
    ensures Aligned(Start(a), e)
  {
    AlignedShift(a.page, 0, PAGE_BITS);
    PageShift(a.page);
    AlignedDown(4096 * a.page, n, PAGE_BITS);
    AlignedSum(4096 * a.page, a.off, n);
    AlignedDown(Start(a), e, n);
  }

  lemma BlockAligned(p: nat, o: nat, e: nat)
    requires Aligned(p, o) && Pow2(e) <= 4096 * Pow2(o)
    ensures Aligned(4096 * p, e)
  {
    AlignedShift(p, o, PAGE_BITS);
    PageShift(p);
    PageShift(Pow2(o));
    PowerShift(o, PAGE_BITS);
    SmallerPower(e, o + PAGE_BITS);
    AlignedDown(4096 * p, e, o + PAGE_BITS);
  }

  /** An allocation is aligned as was asked for. */
  lemma WellAligned(owner: Owners, a: Addr, l: Layout)
    requires IsAllocation(owner, a, l)
    ensures Aligned(Start(a), l.alignExp)
  {
    LongEnough(l);
    match SizeToSlab(Need(l))
    case Some(c) =>
      SmallerPower(l.alignExp, c + 3);
      SlotAligned(a, c + 3, l.alignExp);
    case None =>
      BlockAligned(a.page, LargeOrder(l), l.alignExp);
  }

  /** Every page that an allocation reaches is its own. */
  lemma PagesOwned(owner: Owners, a: Addr, l: Layout, p: nat)
    requires IsAllocation(owner, a, l) && Start(a) < 4096 * p + 4096 && 4096 * p < Start(a) + Room(l)
    ensures p in owner
    ensures match SizeToSlab(Need(l))
      case Some(c) => p == a.page && owner[p] == Slab(c)
      case None => owner[p] == Large(a.page)
  {
    match SizeToSlab(Need(l))
    case Some(c) =>
    case None =>
      assert Within(p, a.page, LargeOrder(l));
      assert p in BlockPages(a.page, LargeOrder(l));
  }

  ghost predicate BytesApart(a: Addr, l: Layout, b: Addr, k: Layout) {
    Start(a) + Room(l) <= Start(b) || Start(b) + Room(k) <= Start(a)
  }

  /** Two allocations at different addresses share no byte. */
  lemma AllocationsApart(owner: Owners, a: Addr, l: Layout, b: Addr, k: Layout)
    requires IsAllocation(owner, a, l) && IsAllocation(owner, b, k) && a != b
    ensures BytesApart(a, l, b, k)
  {
    if !BytesApart(a, l, b, k) {
      var x := if Start(a) < Start(b) then Start(b) else Start(a);
      var p := x / 4096;
      PagesOwned(owner, a, l, p);
      PagesOwned(owner, b, k, p);
      if SizeToSlab(Need(l)).Some? {
        var c := SizeToSlab(Need(l)).value;
        if a.off < b.off { SlotsApart(a.off, b.off, c + 3); } else { SlotsApart(b.off, a.off, c + 3); }
      }
      assert false;
    }
  }

  // ---------- The heap ----------

  ghost predicate NoDuplicates(s: seq<Addr>) {
    forall i, j :: 0 <= i < j < |s| ==> s[i] != s[j]
  }

  /** The free objects of class `c` are slots of its pages, each listed once, and none is in use. */
  ghost predicate FreeListOk(owner: Owners, live: map<Addr, Layout>, c: nat, list: seq<Addr>) {
    NoDuplicates(list) && forall i :: 0 <= i < |list| ==> IsSlot(owner, c, list[i]) && list[i] !in live
  }

  ghost predicate Sound(slabs: seq<seq<Addr>>, owner: Owners, live: map<Addr, Layout>, free: set<nat>) {
    && |slabs| == CLASSES
    && (forall p :: p in owner ==> p !in free)
    && (forall c :: 0 <= c < CLASSES ==> FreeListOk(owner, live, c, slabs[c]))
    && (forall a :: a in live ==> IsAllocation(owner, a, live[a]))
  }

  /** All live allocations are long enough, aligned, and share no byte with one another. */
  lemma LiveSound(slabs: seq<seq<Addr>>, owner: Owners, live: map<Addr, Layout>, free: set<nat>)
    requires Sound(slabs, owner, live, free)
    ensures forall a :: a in live ==> live[a].size <= Room(live[a]) && Aligned(Start(a), live[a].alignExp)
    ensures forall a, b :: a in live && b in live && a != b ==> BytesApart(a, live[a], b, live[b])
  {
    forall a | a in live ensures live[a].size <= Room(live[a]) && Aligned(Start(a), live[a].alignExp) {
      LongEnough(live[a]);
      WellAligned(owner, a, live[a]);
    }
    forall a, b | a in live && b in live && a != b ensures BytesApart(a, live[a], b, live[b]) {
      AllocationsApart(owner, a, live[a], b, live[b]);
    }
  }

  /** An object moves from the front of its list into use. */
  lemma TakeObject(slabs: seq<seq<Addr>>, owner: Owners, live: map<Addr, Layout>, free: set<nat>, c: nat, l: Layout)
    requires Sound(slabs, owner, live, free) && SizeToSlab(Need(l)) == Some(c) && slabs[c] != []
    ensures Sound(slabs[c := slabs[c][1..]], owner, live[slabs[c][0] := l], free)
  {
    var a := slabs[c][0];
    var next := slabs[c := slabs[c][1..]];
    forall d | 0 <= d < CLASSES ensures FreeListOk(owner, live[a := l], d, next[d]) {
      assert FreeListOk(owner, live, d, slabs[d]);
      forall i | 0 <= i < |next[d]| ensures next[d][i] != a {
        if d == c { assert next[d][i] == slabs[c][i + 1]; } else { assert IsSlot(owner, d, slabs[d][i]); }
      }
    }
  }

  /** An object goes back to the front of its list. */
  lemma PutObject(slabs: seq<seq<Addr>>, owner: Owners, live: map<Addr, Layout>, free: set<nat>, c: nat, a: Addr)
    requires Sound(slabs, owner, live, free) && a in live && SizeToSlab(Need(live[a])) == Some(c)
    ensures Sound(slabs[c := [a] + slabs[c]], owner, live - {a}, free)
  {
    var next := slabs[c := [a] + slabs[c]];
    assert IsAllocation(owner, a, live[a]);
    forall d | 0 <= d < CLASSES ensures FreeListOk(owner, live - {a}, d, next[d]) {
      assert FreeListOk(owner, live, d, slabs[d]);
      forall i | 0 <= i < |next[d]| ensures IsSlot(owner, d, next[d][i]) && next[d][i] !in live - {a} {
        if d == c && i > 0 { assert next[d][i] == slabs[c][i - 1]; }
      }
    }
  }

  /** New pages get an owner; nothing that was owned changes. */
  lemma MorePages(slabs: seq<seq<Addr>>, owner: Owners, next: Owners, live: map<Addr, Layout>, free: set<nat>,
                  t: set<nat>)
    requires Sound(slabs, owner, live, free) && t <= free
    requires forall p :: p in owner ==> p in next && next[p] == owner[p]
    requires forall p :: p in next && p !in owner ==> p !in t
    ensures Sound(slabs, next, live, t)
  {
    forall c | 0 <= c < CLASSES
      ensures FreeListOk(next, live, c, slabs[c])
    {
      assert FreeListOk(owner, live, c, slabs[c]);
    }
    forall a | a in live ensures IsAllocation(next, a, live[a]) { assert IsAllocation(owner, a, live[a]); }
  }

  /** A slot that is neither listed nor in use joins its list. */
  lemma CarveObject(slabs: seq<seq<Addr>>, owner: Owners, live: map<Addr, Layout>, free: set<nat>, c: nat, a: Addr)
    requires Sound(slabs, owner, live, free) && c < CLASSES && IsSlot(owner, c, a) && a !in live && a !in slabs[c]
    ensures Sound(slabs[c := [a] + slabs[c]], owner, live, free)
  {
    var next := slabs[c := [a] + slabs[c]];
    forall d | 0 <= d < CLASSES ensures FreeListOk(owner, live, d, next[d]) {
      assert FreeListOk(owner, live, d, slabs[d]);
      forall i | 0 <= i < |next[d]| ensures IsSlot(owner, d, next[d][i]) && next[d][i] !in live {
        if d == c && i > 0 { assert next[d][i] == slabs[c][i - 1]; }
      }
    }
  }

  /** A slot that is neither listed nor in use is put to use. */
  lemma UseObject(slabs: seq<seq<Addr>>, owner: Owners, live: map<Addr, Layout>, free: set<nat>, a: Addr, l: Layout)
    requires Sound(slabs, owner, live, free) && IsAllocation(owner, a, l) && a !in live
    requires forall c :: 0 <= c < CLASSES ==> a !in slabs[c]
    ensures Sound(slabs, owner, live[a := l], free)
  {
    forall c | 0 <= c < CLASSES ensures FreeListOk(owner, live[a := l], c, slabs[c]) {
      assert FreeListOk(owner, live, c, slabs[c]);
      assert a !in slabs[c];
    }
  }

  /** Nothing listed or in use lies on a page without an owner. */
  lemma NothingThere(slabs: seq<seq<Addr>>, owner: Owners, live: map<Addr, Layout>, free: set<nat>, p: nat)
    requires Sound(slabs, owner, live, free) && p !in owner
    ensures forall c, i :: 0 <= c < CLASSES && 0 <= i < |slabs[c]| ==> slabs[c][i].page != p
    ensures forall a :: a in live ==> a.page != p
  {
    forall c, i | 0 <= c < CLASSES && 0 <= i < |slabs[c]| ensures slabs[c][i].page != p {
      assert FreeListOk(owner, live, c, slabs[c]);
    }
    forall a | a in live ensures a.page != p {
      assert IsAllocation(owner, a, live[a]);
      assert Within(a.page, a.page, LargeOrder(live[a]));
      assert a.page in BlockPages(a.page, LargeOrder(live[a]));
    }
  }

  /** A block goes back: its pages lose their owner, and no other allocation had a part in them. */
  lemma DropLarge(slabs: seq<seq<Addr>>, owner: Owners, live: map<Addr, Layout>, free: set<nat>, a: Addr)
    requires Sound(slabs, owner, live, free) && a in live && SizeToSlab(Need(live[a])).None?
    ensures var pages := BlockPages(a.page, LargeOrder(live[a])); Sound(slabs, owner - pages, live - {a}, free + pages)
  {
    var pages := BlockPages(a.page, LargeOrder(live[a]));
    var next := owner - pages;
    assert IsAllocation(owner, a, live[a]);
    forall c | 0 <= c < CLASSES ensures FreeListOk(next, live - {a}, c, slabs[c]) {
      assert FreeListOk(owner, live, c, slabs[c]);
    }
    forall b | b in live && b != a ensures IsAllocation(next, b, live[b]) {
      assert IsAllocation(owner, b, live[b]);
      OtherPages(owner, a, live[a], b, live[b]);
    }
  }

  lemma OtherPages(owner: Owners, a: Addr, l: Layout, b: Addr, k: Layout)
    requires IsAllocation(owner, a, l) && IsAllocation(owner, b, k) && a != b && SizeToSlab(Need(l)).None?
    ensures SizeToSlab(Need(k)).Some? ==> b.page !in BlockPages(a.page, LargeOrder(l))
    ensures SizeToSlab(Need(k)).None? ==> BlockPages(b.page, LargeOrder(k)) !! BlockPages(a.page, LargeOrder(l))
  {
  }

  // ---------- Nothing is lost ----------

  /** Page `p` belongs to a block that is in use. */
  ghost predicate InLiveBlock(live: map<Addr, Layout>, head: nat, p: nat) {
    var a := Addr(head, 0);
    a in live && SizeToSlab(Need(live[a])).None? && p in BlockPages(head, LargeOrder(live[a]))
  }

  /** Every object of every slab page is listed or in use, and every other page belongs to a block in use. */
  ghost predicate Accounted(slabs: seq<seq<Addr>>, owner: Owners, live: map<Addr, Layout>)
    requires |slabs| == CLASSES
  {
    && (forall p :: p in owner && owner[p].Slab? ==> owner[p].class_ < CLASSES)
    && (forall c: nat, a {:trigger IsSlot(owner, c, a)} :: c < CLASSES && IsSlot(owner, c, a) ==>
          a in slabs[c] || a in live)
    && (forall p :: p in owner && owner[p].Large? ==> InLiveBlock(live, owner[p].head, p))
  }

  /** A list that loses its first object to the live ones. */
  lemma TakeAccounted(slabs: seq<seq<Addr>>, owner: Owners, live: map<Addr, Layout>, free: set<nat>, c: nat, l: Layout)
    requires Sound(slabs, owner, live, free) && Accounted(slabs, owner, live) && SizeToSlab(Need(l)) == Some(c)
    requires slabs[c] != []
    ensures Accounted(slabs[c := slabs[c][1..]], owner, live[slabs[c][0] := l])
  {
    var a, next := slabs[c][0], slabs[c := slabs[c][1..]];
    assert FreeListOk(owner, live, c, slabs[c]);
    forall d: nat, b | d < CLASSES && IsSlot(owner, d, b) ensures b in next[d] || b in live[a := l] {
      if d == c && b in slabs[c] && b != a {
        var j :| 0 <= j < |slabs[c]| && slabs[c][j] == b;
        assert next[c][j - 1] == b;
      }
    }
    LargeKept(owner, live, live[a := l]);
  }

  lemma PutAccounted(slabs: seq<seq<Addr>>, owner: Owners, live: map<Addr, Layout>, free: set<nat>, c: nat, a: Addr)
    requires Sound(slabs, owner, live, free) && Accounted(slabs, owner, live) && a in live
    requires SizeToSlab(Need(live[a])) == Some(c)
    ensures Accounted(slabs[c := [a] + slabs[c]], owner, live - {a})
  {
    var next := slabs[c := [a] + slabs[c]];
    assert IsAllocation(owner, a, live[a]);
    assert a in [a] + slabs[c] && forall b :: b in slabs[c] ==> b in [a] + slabs[c];
    forall d: nat, b | d < CLASSES && IsSlot(owner, d, b) ensures b in next[d] || b in live - {a} {
      assert b in slabs[d] || b in live;
    }
    LargeKept(owner, live, live - {a});
  }

  /** Blocks in use do not depend on which objects are. */
  lemma LargeKept(owner: Owners, live: map<Addr, Layout>, next: map<Addr, Layout>)
    requires forall p :: p in owner && owner[p].Large? ==> InLiveBlock(live, owner[p].head, p)
    requires forall a :: a in live && SizeToSlab(Need(live[a])).None? ==> a in next && next[a] == live[a]
    ensures forall p :: p in owner && owner[p].Large? ==> InLiveBlock(next, owner[p].head, p)
  {
    forall p | p in owner && owner[p].Large?
      ensures InLiveBlock(next, owner[p].head, p)
    {
      assert InLiveBlock(live, owner[p].head, p);
    }
  }

  /** Where an object of class `c` other than the first may begin. */
  predicate LaterOffset(off: nat, c: nat) {
    Aligned(off, c + 3) && 0 < off
  }

  /** The objects of page `base` after the first are all listed in `list`. */
  ghost predicate RestListed(list: seq<Addr>, c: nat, base: nat) {
    forall off: nat :: LaterOffset(off, c) && off + Pow2(c + 3) <= 4096 ==> Addr(base, off) in list
  }

  /** A new page of objects: the first in use, the rest listed. */
  lemma GrowAccounted(slabs: seq<seq<Addr>>, owner: Owners, live: map<Addr, Layout>, next: seq<seq<Addr>>, c: nat,
                      base: nat, l: Layout)
    requires |slabs| == CLASSES && Accounted(slabs, owner, live) && |next| == CLASSES && c < CLASSES && base !in owner
    requires Addr(base, 0) !in live
    requires forall d, a :: 0 <= d < CLASSES && a in slabs[d] ==> a in next[d]
    requires RestListed(next[c], c, base)
    ensures Accounted(next, owner[base := Slab(c)], live[Addr(base, 0) := l])
  {
    var o, v := owner[base := Slab(c)], live[Addr(base, 0) := l];
    forall d: nat, a | d < CLASSES && IsSlot(o, d, a) ensures a in next[d] || a in v {
      if a.page != base { assert IsSlot(owner, d, a); }
      assert a.off > 0 && d == c ==> LaterOffset(a.off, c);
    }
    LargeKept(owner, live, v);
  }

  lemma LargeAccounted(slabs: seq<seq<Addr>>, owner: Owners, live: map<Addr, Layout>, head: nat, l: Layout)
    requires |slabs| == CLASSES && Accounted(slabs, owner, live) && SizeToSlab(Need(l)).None? && Addr(head, 0) !in live
    requires forall p :: p in BlockPages(head, LargeOrder(l)) ==> p !in owner
    ensures Accounted(slabs, owner + map q | q in BlockPages(head, LargeOrder(l)) :: Large(head),
                      live[Addr(head, 0) := l])
  {
    var o := owner + map q | q in BlockPages(head, LargeOrder(l)) :: Large(head);
    forall c: nat, a | c < CLASSES && IsSlot(o, c, a) ensures a in slabs[c] || a in live[Addr(head, 0) := l] {
      assert IsSlot(owner, c, a);
    }
    LargeKept(owner, live, live[Addr(head, 0) := l]);
  }

  lemma DropAccounted(slabs: seq<seq<Addr>>, owner: Owners, live: map<Addr, Layout>, free: set<nat>, a: Addr)
    requires Sound(slabs, owner, live, free) && Accounted(slabs, owner, live) && a in live
    requires SizeToSlab(Need(live[a])).None?
    ensures Accounted(slabs, owner - BlockPages(a.page, LargeOrder(live[a])), live - {a})
  {
    var o := owner - BlockPages(a.page, LargeOrder(live[a]));
    assert IsAllocation(owner, a, live[a]);
    forall c: nat, b | c < CLASSES && IsSlot(o, c, b) ensures b in slabs[c] || b in live - {a} {
      assert IsSlot(owner, c, b);
      assert Within(a.page, a.page, LargeOrder(live[a])) && a.page in BlockPages(a.page, LargeOrder(live[a]));
    }
    forall p | p in o && o[p].Large?
      ensures InLiveBlock(live - {a}, o[p].head, p)
    {
      assert InLiveBlock(live, owner[p].head, p);
    }
  }

  /** Pages move between the free ones and the owned ones, and none appears or disappears. */
  ghost predicate SamePages(s: set<nat>, owner: Owners, t: set<nat>, next: Owners) {
    forall p :: p in s || p in owner <==> p in t || p in next
  }

  // ---------- Lists threaded through the objects ----------

  /** The first word of each object that has been written. */
  type Words = map<Addr, Option<Addr>>

  /** From `head` on, each object's first word leads to the next one of `list`. */
  ghost predicate Threaded(head: Option<Addr>, words: Words, list: seq<Addr>)
    decreases list
  {
    if list == [] then head == None
    else head == Some(list[0]) && list[0] in words && Threaded(words[list[0]], words, list[1..])
  }

  ghost predicate AllThreaded(heads: seq<Option<Addr>>, words: Words, slabs: seq<seq<Addr>>) {
    |heads| == |slabs| == CLASSES && forall c :: 0 <= c < CLASSES ==> Threaded(heads[c], words, slabs[c])
  }

  /** A word written outside the list does not disturb it. */
  lemma {:induction false} ThreadedElsewhere(head: Option<Addr>, words: Words, list: seq<Addr>, a: Addr,
                                             v: Option<Addr>)
    requires Threaded(head, words, list) && a !in list
    ensures Threaded(head, words[a := v], list)
    decreases list
  {
    if list != [] { ThreadedElsewhere(words[list[0]], words, list[1..], a, v); }
  }

  lemma WordElsewhere(heads: seq<Option<Addr>>, words: Words, slabs: seq<seq<Addr>>, a: Addr, v: Option<Addr>)
    requires AllThreaded(heads, words, slabs) && forall d :: 0 <= d < CLASSES ==> a !in slabs[d]
    ensures AllThreaded(heads, words[a := v], slabs)
  {
    forall d | 0 <= d < CLASSES ensures Threaded(heads[d], words[a := v], slabs[d]) {
      ThreadedElsewhere(heads[d], words, slabs[d], a, v);
    }
  }

  /** Putting an object in front: its word gets the old head, and it becomes the head. */
  lemma PushThreaded(heads: seq<Option<Addr>>, words: Words, slabs: seq<seq<Addr>>, c: nat, a: Addr)
    requires AllThreaded(heads, words, slabs) && c < CLASSES && forall d :: 0 <= d < CLASSES ==> a !in slabs[d]
    ensures AllThreaded(heads[c := Some(a)], words[a := heads[c]], slabs[c := [a] + slabs[c]])
  {
    WordElsewhere(heads, words, slabs, a, heads[c]);
    assert ([a] + slabs[c])[1..] == slabs[c];
  }

  /** Taking the front object: its word is the new head. */
  lemma PopThreaded(heads: seq<Option<Addr>>, words: Words, slabs: seq<seq<Addr>>, c: nat)
    requires AllThreaded(heads, words, slabs) && c < CLASSES && slabs[c] != []
    ensures heads[c] == Some(slabs[c][0]) && slabs[c][0] in words
    ensures AllThreaded(heads[c := words[slabs[c][0]]], words, slabs[c := slabs[c][1..]])
  {
    assert Threaded(heads[c], words, slabs[c]);
  }

  /** Live objects are on no list. */
  lemma LiveUnlisted(slabs: seq<seq<Addr>>, owner: Owners, live: map<Addr, Layout>, free: set<nat>, a: Addr)
    requires Sound(slabs, owner, live, free) && a in live
    ensures forall d :: 0 <= d < CLASSES ==> a !in slabs[d]
  {
    forall d | 0 <= d < CLASSES ensures a !in slabs[d] { assert FreeListOk(owner, live, d, slabs[d]); }
  }

  /** No object on a list begins inside a live allocation. */
  lemma InsideUnlisted(slabs: seq<seq<Addr>>, owner: Owners, live: map<Addr, Layout>, free: set<nat>, a: Addr, b: Addr,
                       d: nat)
    requires Sound(slabs, owner, live, free) && a in live && d < CLASSES && b.off < 4096
    requires Start(a) <= Start(b) < Start(a) + Room(live[a])
    ensures b !in slabs[d]
  {
    if b in slabs[d] {
      assert FreeListOk(owner, live, d, slabs[d]);
      assert IsSlot(owner, d, b) && b !in live;
      assert IsAllocation(owner, a, live[a]);
      PagesOwned(owner, a, live[a], b.page);
      if SizeToSlab(Need(live[a])).Some? {
        var c := SizeToSlab(Need(live[a])).value;
        if a.off < b.off { SlotsApart(a.off, b.off, c + 3); }
      }
      assert false;
    }
  }

  class KernelHeap {
    const alloc: Buddy
    var heads: seq<Option<Addr>>
    var words: Words
    ghost var slabs: seq<seq<Addr>>
    ghost var owner: Owners
    ghost var live: map<Addr, Layout>

    ghost predicate Valid()
      reads this, alloc, alloc.mem
    {
      && alloc.Valid() && Sound(slabs, owner, live, alloc.free) && Accounted(slabs, owner, live)
      && AllThreaded(heads, words, slabs)
    }

    constructor (alloc: Buddy)
      requires alloc.Valid()
      ensures Valid() && this.alloc == alloc && live == map[] && owner == map[]
    {
      this.alloc := alloc;
      heads := seq(CLASSES, _ => None);
      words := map[];
      slabs := seq(CLASSES, _ => []);
      owner := map[];
      live := map[];
    }

    /** Takes an object of class `c` from the front of its list, or from a new page. */
    method SlabAlloc(c: nat, ghost l: Layout) returns (r: Option<Addr>)
      requires Valid() && SizeToSlab(Need(l)) == Some(c)
      modifies this, alloc, alloc.mem
      ensures Valid() && SamePages(old(alloc.free), old(owner), alloc.free, owner)
      ensures r.Some? ==> r.value !in old(live) && live == old(live)[r.value := l]
      ensures r.None? ==> live == old(live)
      ensures r.None? <==> old(slabs)[c] == [] && old(alloc.free) == {}
      ensures old(slabs)[c] != [] ==>
        r == Some(old(slabs)[c][0]) && slabs == old(slabs)[c := old(slabs)[c][1..]] && alloc.free == old(alloc.free)
    {
      assert Threaded(heads[c], words, slabs[c]);
      if heads[c].Some? {
        var node := Pop(c, l);
        return Some(node);
      }
      r := Grow(c, l);
    }

    /** Takes the front object of class `c`. */
    method Pop(c: nat, ghost l: Layout) returns (node: Addr)
      requires Valid() && SizeToSlab(Need(l)) == Some(c) && slabs[c] != []
      modifies this
      ensures Valid() && owner == old(owner) && node == old(slabs)[c][0]
      ensures node !in old(live) && live == old(live)[node := l] && slabs == old(slabs)[c := old(slabs)[c][1..]]
    {
      assert FreeListOk(owner, live, c, slabs[c]);
      PopThreaded(heads, words, slabs, c);
      TakeObject(slabs, owner, live, alloc.free, c, l);
      TakeAccounted(slabs, owner, live, alloc.free, c, l);
      node := heads[c].value;
      heads := heads[c := words[node]];
      slabs := slabs[c := slabs[c][1..]];
      live := live[node := l];
    }

    /** Cuts a new page into objects of class `c`: the first is handed out, the rest are listed. */
    method Grow(c: nat, ghost l: Layout) returns (r: Option<Addr>)
      requires Valid() && SizeToSlab(Need(l)) == Some(c)
      modifies this, alloc, alloc.mem
      ensures Valid() && SamePages(old(alloc.free), old(owner), alloc.free, owner)
      ensures r.Some? ==> r.value !in old(live) && live == old(live)[r.value := l]
      ensures r.None? ==> live == old(live)
      ensures r.None? <==> old(alloc.free) == {}
    {
      ghost var free, lists, owned := alloc.free, slabs, owner;
      var page := alloc.AllocPage();
      if page.None? { return None; }
      var base := page.value;
      NothingThere(slabs, owner, live, free, base);
      MorePages(slabs, owner, owner[base := Slab(c)], live, free, alloc.free);
      owner := owner[base := Slab(c)];
      Carve(c, base);
      GrowAccounted(lists, owned, live, slabs, c, base, l);
      FirstObject(slabs, owner, live, alloc.free, c, base, l);
      live := live[Addr(base, 0) := l];
      return Some(Addr(base, 0));
    }

    /** The objects of page `base` from the second up to `offset` are listed, and no other object of that page is. */
    ghost predicate Carved(c: nat, base: nat, offset: nat, was: seq<seq<Addr>>)
      requires c < CLASSES == |was|
      reads this, alloc
    {
      && Sound(slabs, owner, live, alloc.free) && AllThreaded(heads, words, slabs)
      && ListedBelow(slabs[c], c, base, offset) && ListedOnly(slabs, base, offset) && Keeps(was, slabs)
    }

    /** Lists the objects of page `base` after the first. */
    method Carve(c: nat, base: nat)
      requires alloc.Valid() && Sound(slabs, owner, live, alloc.free) && c < CLASSES && base in owner
      requires owner[base] == Slab(c) && AllThreaded(heads, words, slabs)
      requires forall d, i :: 0 <= d < CLASSES && 0 <= i < |slabs[d]| ==> slabs[d][i].page != base
      requires forall a :: a in live ==> a.page != base
      modifies this`slabs, this`heads, this`words
      ensures Sound(slabs, owner, live, alloc.free) && AllThreaded(heads, words, slabs)
      ensures forall d :: 0 <= d < CLASSES ==> Addr(base, 0) !in slabs[d]
      ensures RestListed(slabs[c], c, base)
      ensures forall d, a :: 0 <= d < CLASSES && a in old(slabs)[d] ==> a in slabs[d]
    {
      var size := SLAB_SIZES[c];
      SlabSizes(c);
      AlignedZero(c + 3);
      AlignedNext(0, c + 3);
      FirstOffset(slabs[c], c, base);
      var offset: nat := size;
      while offset + size <= 4096
        invariant size == Pow2(c + 3) && Aligned(offset, c + 3) && offset > 0 && Carved(c, base, offset, old(slabs))
        decreases 4096 - offset
      {
        CarveNext(c, base, offset, old(slabs));
        AlignedNext(offset, c + 3);
        offset := offset + size;
      }
    }

    /** Lists the object at `offset`. */
    method CarveNext(c: nat, base: nat, offset: nat, ghost was: seq<seq<Addr>>)
      requires c < CLASSES == |was| && Carved(c, base, offset, was) && offset > 0
      requires base in owner && owner[base] == Slab(c)
      requires Aligned(offset, c + 3) && offset + Pow2(c + 3) <= 4096 && forall a :: a in live ==> a.page != base
      modifies this`slabs, this`heads, this`words
      ensures Carved(c, base, offset + Pow2(c + 3), was)
    {
      var node := Addr(base, offset);
      NodeUnlisted(slabs, base, offset);
      CarveObject(slabs, owner, live, alloc.free, c, node);
      ListedMore(slabs[c], c, base, offset);
      ListedOnlyMore(slabs, c, base, offset);
      PushThreaded(heads, words, slabs, c, node);
      words := words[node := heads[c]];
      heads := heads[c := Some(node)];
      slabs := slabs[c := [node] + slabs[c]];
    }

    /** Allocates for `l`: an object of the smallest class that holds it, or a block of pages. */
    method Alloc(l: Layout) returns (r: Option<Addr>)
      requires Valid()
      modifies this, alloc, alloc.mem
      ensures Valid() && SamePages(old(alloc.free), old(owner), alloc.free, owner)
      ensures r.Some? ==> r.value !in old(live) && live == old(live)[r.value := l]
      ensures r.None? ==> live == old(live)
      ensures r.None? <==> match SizeToSlab(Need(l))
        case Some(c) => old(slabs)[c] == [] && old(alloc.free) == {}
        case None => forall b :: b in old(alloc.blocks) ==> old(alloc.blocks)[b] < LargeOrder(l)
    {
      var need := Need(l);
      var idx := SizeToSlab(need);
      if idx.Some? {
        r := SlabAlloc(idx.value, l);
        return;
      }
      var order := PagesToOrder(AlignUpPage(need));
      r := LargeAlloc(order, l);
    }

    /** Allocates a block of the given order. */
    method LargeAlloc(order: nat, ghost l: Layout) returns (r: Option<Addr>)
      requires Valid() && SizeToSlab(Need(l)).None? && order == LargeOrder(l)
      modifies this, alloc, alloc.mem
      ensures Valid() && SamePages(old(alloc.free), old(owner), alloc.free, owner)
      ensures r.Some? ==> r.value !in old(live) && live == old(live)[r.value := l]
      ensures r.None? ==> live == old(live)
      ensures r.None? <==> forall b :: b in old(alloc.blocks) ==> old(alloc.blocks)[b] < order
    {
      ghost var free := alloc.free;
      var p := alloc.AllocBlock(order);
      if p.None? { return None; }
      ghost var pages := BlockPages(p.value, order);
      assert Within(p.value, p.value, order) && p.value in pages;
      NothingThere(slabs, owner, live, free, p.value);
      ghost var next := owner + map q | q in pages :: Large(p.value);
      MorePages(slabs, owner, next, live, free, alloc.free);
      LargeAccounted(slabs, owner, live, p.value, l);
      owner := next;
      UseObject(slabs, owner, live, alloc.free, Addr(p.value, 0), l);
      live := live[Addr(p.value, 0) := l];
      return Some(Addr(p.value, 0));
    }

    /** Puts a live object of class `c` in front of its list. */
    method Push(c: nat, a: Addr)
      requires Valid() && a in live && SizeToSlab(Need(live[a])) == Some(c)
      modifies this
      ensures Valid() && owner == old(owner) && live == old(live) - {a}
      ensures slabs == old(slabs)[c := [a] + old(slabs)[c]]
    {
      LiveUnlisted(slabs, owner, live, alloc.free, a);
      PushThreaded(heads, words, slabs, c, a);
      PutObject(slabs, owner, live, alloc.free, c, a);
      PutAccounted(slabs, owner, live, alloc.free, c, a);
      words := words[a := heads[c]];
      heads := heads[c := Some(a)];
      slabs := slabs[c := [a] + slabs[c]];
      live := live - {a};
    }

    /** Whoever holds an allocation may write any word in it: no list is disturbed. */
    method Scribble(ghost a: Addr, b: Addr, v: Option<Addr>)
      requires Valid() && a in live && b.off < 4096 && Start(a) <= Start(b) < Start(a) + Room(live[a])
      modifies this`words
      ensures Valid() && words == old(words)[b := v]
    {
      forall d | 0 <= d < CLASSES ensures b !in slabs[d] { InsideUnlisted(slabs, owner, live, alloc.free, a, b, d); }
      WordElsewhere(heads, words, slabs, b, v);
      words := words[b := v];
    }

    /** Gives back an allocation under the layout it was made with, to the list or as the block it came from. */
    method Dealloc(a: Addr, l: Layout)
      requires Valid() && a in live && live[a] == l
      modifies this, alloc, alloc.mem
      ensures Valid() && live == old(live) - {a} && SamePages(old(alloc.free), old(owner), alloc.free, owner)
      ensures match SizeToSlab(Need(l))
        case Some(c) => slabs == old(slabs)[c := [a] + old(slabs)[c]] && alloc.free == old(alloc.free)
        case None => slabs == old(slabs) && alloc.free == old(alloc.free) + BlockPages(a.page, LargeOrder(l))
    {
      var need := Need(l);
      var idx := SizeToSlab(need);
      assert IsAllocation(owner, a, l);
      if idx.Some? {
        Push(idx.value, a);
      } else {
        var order := PagesToOrder(AlignUpPage(need));
        DropLarge(slabs, owner, live, alloc.free, a);
        DropAccounted(slabs, owner, live, alloc.free, a);
        alloc.FreeBlock(a.page, order);
        owner := owner - BlockPages(a.page, order);
        live := live - {a};
      }
    }
  }

  /** The objects of page `base` from the second up to offset `limit` are listed. */
  ghost predicate ListedBelow(list: seq<Addr>, c: nat, base: nat, limit: nat) {
    forall off: nat :: LaterOffset(off, c) && off < limit ==> Addr(base, off) in list
  }

  /** Listed objects of page `base` lie after the first and before `limit`. */
  ghost predicate ListedOnly(slabs: seq<seq<Addr>>, base: nat, limit: nat) {
    forall d, i :: 0 <= d < |slabs| && 0 <= i < |slabs[d]| && slabs[d][i].page == base ==> 0 < slabs[d][i].off < limit
  }

  ghost predicate Keeps(was: seq<seq<Addr>>, slabs: seq<seq<Addr>>) {
    |was| == |slabs| && forall d, a :: 0 <= d < |was| && a in was[d] ==> a in slabs[d]
  }

  lemma NodeUnlisted(slabs: seq<seq<Addr>>, base: nat, limit: nat)
    requires ListedOnly(slabs, base, limit)
    ensures forall d :: 0 <= d < |slabs| ==> Addr(base, limit) !in slabs[d]
  {
  }

  lemma ListedOnlyMore(slabs: seq<seq<Addr>>, c: nat, base: nat, limit: nat)
    requires ListedOnly(slabs, base, limit) && c < |slabs| && limit > 0
    ensures ListedOnly(slabs[c := [Addr(base, limit)] + slabs[c]], base, limit + Pow2(c + 3))
  {
    var next: seq<seq<Addr>> := slabs[c := [Addr(base, limit)] + slabs[c]];
    forall d, i | 0 <= d < |next| && 0 <= i < |next[d]| && next[d][i].page == base
      ensures 0 < next[d][i].off < limit + Pow2(c + 3)
    {
      if d == c && i > 0 { assert next[d][i] == slabs[c][i - 1]; }
    }
  }

  lemma FirstOffset(list: seq<Addr>, c: nat, base: nat)
    ensures ListedBelow(list, c, base, Pow2(c + 3))
  {
    forall off: nat | LaterOffset(off, c) ensures Pow2(c + 3) <= off {
      AlignedZero(c + 3);
      SlotsApart(0, off, c + 3);
    }
  }

  lemma ListedMore(list: seq<Addr>, c: nat, base: nat, limit: nat)
    requires ListedBelow(list, c, base, limit) && Aligned(limit, c + 3)
    ensures ListedBelow([Addr(base, limit)] + list, c, base, limit + Pow2(c + 3))
  {
    forall off: nat | LaterOffset(off, c) && off < limit + Pow2(c + 3)
      ensures Addr(base, off) in [Addr(base, limit)] + list
    {
      if off > limit { SlotsApart(limit, off, c + 3); }
    }
  }

  /** The first object of a new page can be put to use. */
  lemma FirstObject(slabs: seq<seq<Addr>>, owner: Owners, live: map<Addr, Layout>, free: set<nat>, c: nat, base: nat,
                    l: Layout)
    requires Sound(slabs, owner, live, free) && SizeToSlab(Need(l)) == Some(c) && base in owner
    requires owner[base] == Slab(c)
    requires Addr(base, 0) !in live && forall d :: 0 <= d < CLASSES ==> Addr(base, 0) !in slabs[d]
    ensures Sound(slabs, owner, live[Addr(base, 0) := l], free)
  {
    SlabSizes(c);
    AlignedZero(c + 3);
    UseObject(slabs, owner, live, free, Addr(base, 0), l);
  }
}
