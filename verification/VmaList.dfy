/**
 * The list of virtual memory areas as a value: sorted by address, disjoint, and merged wherever two neighbours
 * touch and have the same attributes. Such a list is the canonical form of a map from addresses to attributes.
 */
module VmaList {
  import opened BuddyAllocator

  datatype VmaFlags = VmaFlags(read: bool, write: bool, exec: bool)
  datatype VmaKind = Anonymous | Stack | Heap
  datatype Attr = Attr(flags: VmaFlags, kind: VmaKind)

  datatype Vma = Vma(start: nat, end: nat, attr: Attr) {
    predicate Contains(a: nat) {
      start <= a < end
    }
  }

  /** The attributes of address `a`, if some area contains it. */
  function Lookup(vs: seq<Vma>, a: nat): Option<Attr> {
    if vs == [] then None
    else if vs[0].Contains(a) then Some(vs[0].attr)
    else Lookup(vs[1..], a)
  }

  ghost predicate Sorted(vs: seq<Vma>) {
    && (forall i :: 0 <= i < |vs| ==> vs[i].start < vs[i].end)
    && (forall i, j :: 0 <= i < j < |vs| ==> vs[i].end <= vs[j].start)
  }

  predicate Mergeable(v: Vma, w: Vma) {
    v.end == w.start && v.attr == w.attr
  }

  ghost predicate Merged(vs: seq<Vma>) {
    forall i :: 0 < i < |vs| ==> !Mergeable(vs[i - 1], vs[i])
  }

  ghost predicate Canonical(vs: seq<Vma>) {
    Sorted(vs) && Merged(vs)
  }

  // ---------- Lookup ----------

  lemma {:induction false} LookupAt(vs: seq<Vma>, i: nat, a: nat)
    requires Sorted(vs) && i < |vs| && vs[i].Contains(a)
    ensures Lookup(vs, a) == Some(vs[i].attr)
  {
    if i > 0 {
      LookupAt(vs[1..], i - 1, a);
    }
  }

  lemma {:induction false} LookupFound(vs: seq<Vma>, a: nat) returns (i: nat)
    requires Lookup(vs, a).Some?
    ensures i < |vs| && vs[i].Contains(a) && Lookup(vs, a) == Some(vs[i].attr)
  {
    if vs[0].Contains(a) {
      i := 0;
    } else {
      i := LookupFound(vs[1..], a);
      i := i + 1;
    }
  }

  lemma LookupNone(vs: seq<Vma>, a: nat)
    requires forall i :: 0 <= i < |vs| ==> !vs[i].Contains(a)
    ensures Lookup(vs, a).None?
  {
    if Lookup(vs, a).Some? { var i := LookupFound(vs, a); }
  }

  // ---------- Uniqueness ----------

  /** The first area starts where the map starts. */
  lemma FirstStart(vs: seq<Vma>, ws: seq<Vma>)
    requires Canonical(vs) && Canonical(ws) && vs != []
    requires forall a: nat :: Lookup(vs, a) == Lookup(ws, a)
    ensures ws != [] && ws[0].start <= vs[0].start
  {
    LookupAt(vs, 0, vs[0].start);
    var i := LookupFound(ws, vs[0].start);
    assert i > 0 ==> ws[0].end <= ws[i].start;
  }

  /** The first area ends where its attributes end. */
  lemma FirstEnd(vs: seq<Vma>, ws: seq<Vma>)
    requires Canonical(vs) && Canonical(ws) && vs != [] && ws != []
    requires vs[0].start == ws[0].start
    requires forall a: nat :: Lookup(vs, a) == Lookup(ws, a)
    ensures ws[0].end <= vs[0].end && ws[0].attr == vs[0].attr
  {
    LookupAt(vs, 0, vs[0].start);
    LookupAt(ws, 0, vs[0].start);
    StopsAtEnd(vs, 0);
    if vs[0].end < ws[0].end {
      LookupAt(ws, 0, vs[0].end);
    }
  }

  /** Just past its end, an area's attributes do not go on. */
  lemma StopsAtEnd(vs: seq<Vma>, i: nat)
    requires Canonical(vs) && i < |vs|
    ensures Lookup(vs, vs[i].end) != Some(vs[i].attr)
  {
    var e := vs[i].end;
    if Lookup(vs, e).Some? {
      var j := LookupFound(vs, e);
      assert i < j;
      assert vs[i].end <= vs[i + 1].start;
      assert forall k :: i + 1 < k < |vs| ==> vs[i + 1].end <= vs[k].start;
      assert j == i + 1;
      assert !Mergeable(vs[j - 1], vs[j]);
    }
  }

  /** Just before its start, an area's attributes have not begun. */
  lemma StartsAtStart(vs: seq<Vma>, i: nat)
    requires Canonical(vs) && i < |vs| && vs[i].start > 0
    ensures Lookup(vs, vs[i].start - 1) != Some(vs[i].attr)
  {
    var e := vs[i].start - 1;
    if Lookup(vs, e).Some? {
      var j := LookupFound(vs, e);
      assert j < i;
      assert vs[i - 1].end <= vs[i].start;
      assert forall k :: 0 <= k < i - 1 ==> vs[k].end <= vs[i - 1].start;
      assert j == i - 1;
      assert !Mergeable(vs[i - 1], vs[i]);
    }
  }

  lemma LookupTail(vs: seq<Vma>, a: nat)
    requires Sorted(vs) && vs != []
    ensures Lookup(vs[1..], a) == if vs[0].Contains(a) then None else Lookup(vs, a)
  {
    if vs[0].Contains(a) {
      forall i | 0 <= i < |vs[1..]| ensures !vs[1..][i].Contains(a) {
        assert vs[0].end <= vs[i + 1].start;
      }
      LookupNone(vs[1..], a);
    }
  }

  /** A canonical list is determined by the map it stands for. */
  lemma {:induction false} CanonicalUnique(vs: seq<Vma>, ws: seq<Vma>)
    requires Canonical(vs) && Canonical(ws)
    requires forall a: nat :: Lookup(vs, a) == Lookup(ws, a)
    ensures vs == ws
  {
    if vs == [] {
      if ws != [] { FirstStart(ws, vs); }
    } else {
      FirstStart(vs, ws);
      FirstStart(ws, vs);
      FirstEnd(vs, ws);
      FirstEnd(ws, vs);
      forall a: nat ensures Lookup(vs[1..], a) == Lookup(ws[1..], a) {
        LookupTail(vs, a);
        LookupTail(ws, a);
      }
      TailCanonical(vs);
      TailCanonical(ws);
      CanonicalUnique(vs[1..], ws[1..]);
      assert vs == [vs[0]] + vs[1..] && ws == [ws[0]] + ws[1..];
    }
  }

  lemma TailCanonical(vs: seq<Vma>)
    requires Canonical(vs) && vs != []
    ensures Canonical(vs[1..])
  {
    var t := vs[1..];
    forall i | 0 < i < |t| ensures !Mergeable(t[i - 1], t[i]) {
      assert !Mergeable(vs[i + 1 - 1], vs[i + 1]);
    }
  }

  // ---------- Inserting and removing ----------

  function Splice(vs: seq<Vma>, lo: nat, hi: nat, w: Vma): seq<Vma>
    requires lo <= hi <= |vs|
  {
    vs[..lo] + [w] + vs[hi..]
  }

  /** The areas from `lo` to `hi` can be replaced by `w`: it fits between its new neighbours and merges with neither. */
  ghost predicate Fits(vs: seq<Vma>, lo: nat, hi: nat, w: Vma)
    requires lo <= hi <= |vs|
  {
    && w.start < w.end
    && (lo > 0 ==> vs[lo - 1].end <= w.start && !Mergeable(vs[lo - 1], w))
    && (hi < |vs| ==> w.end <= vs[hi].start && !Mergeable(w, vs[hi]))
  }

  lemma SpliceAt(vs: seq<Vma>, lo: nat, hi: nat, w: Vma, j: nat)
    requires lo <= hi <= |vs| && j < lo + 1 + |vs| - hi
    ensures Splice(vs, lo, hi, w)[j] == if j < lo then vs[j] else if j == lo then w else vs[j - lo - 1 + hi]
  {
  }

  lemma SpliceOrder(vs: seq<Vma>, lo: nat, hi: nat, w: Vma, i: nat, j: nat)
    requires Sorted(vs) && lo <= hi <= |vs| && Fits(vs, lo, hi, w) && i < j < lo + 1 + |vs| - hi
    ensures Splice(vs, lo, hi, w)[i].end <= Splice(vs, lo, hi, w)[j].start
  {
    SpliceAt(vs, lo, hi, w, i);
    SpliceAt(vs, lo, hi, w, j);
    if i < lo <= j {
      assert i < lo - 1 ==> vs[i].end <= vs[lo - 1].start;
    }
    if i <= lo < j {
      assert j - lo - 1 > 0 ==> vs[hi].end <= vs[j - lo - 1 + hi].start;
    }
  }

  lemma SpliceMerged(vs: seq<Vma>, lo: nat, hi: nat, w: Vma, i: nat)
    requires Merged(vs) && lo <= hi <= |vs| && Fits(vs, lo, hi, w) && 0 < i < lo + 1 + |vs| - hi
    ensures !Mergeable(Splice(vs, lo, hi, w)[i - 1], Splice(vs, lo, hi, w)[i])
  {
    SpliceAt(vs, lo, hi, w, i - 1);
    SpliceAt(vs, lo, hi, w, i);
    if i < lo {
      assert !Mergeable(vs[i - 1], vs[i]);
    } else if i > lo + 1 {
      var k := i - lo - 1 + hi;
      assert !Mergeable(vs[k - 1], vs[k]);
    }
  }

  lemma SpliceCanonical(vs: seq<Vma>, lo: nat, hi: nat, w: Vma)
    requires Canonical(vs) && lo <= hi <= |vs| && Fits(vs, lo, hi, w)
    ensures Canonical(Splice(vs, lo, hi, w))
  {
    var r := Splice(vs, lo, hi, w);
    forall i | 0 <= i < |r| ensures r[i].start < r[i].end { SpliceAt(vs, lo, hi, w, i); }
    forall i, j | 0 <= i < j < |r| ensures r[i].end <= r[j].start { SpliceOrder(vs, lo, hi, w, i, j); }
    forall i | 0 < i < |r| ensures !Mergeable(r[i - 1], r[i]) { SpliceMerged(vs, lo, hi, w, i); }
  }

  /** What a splice looks up, when the areas it replaces and `v` together make up `w`. */
  lemma SpliceLookup(vs: seq<Vma>, lo: nat, hi: nat, w: Vma, v: Vma, a: nat)
    requires Sorted(vs) && lo <= hi <= |vs| && w.attr == v.attr && Sorted(Splice(vs, lo, hi, w))
    requires forall i :: lo <= i < hi ==> vs[i].attr == v.attr
    requires w.Contains(a) <==> v.Contains(a) || exists i :: lo <= i < hi && vs[i].Contains(a)
    ensures Lookup(Splice(vs, lo, hi, w), a) == if v.Contains(a) then Some(v.attr) else Lookup(vs, a)
  {
    var r := Splice(vs, lo, hi, w);
    if w.Contains(a) {
      SpliceAt(vs, lo, hi, w, lo);
      LookupAt(r, lo, a);
      if !v.Contains(a) {
        var i :| lo <= i < hi && vs[i].Contains(a);
        LookupAt(vs, i, a);
      }
    } else if Lookup(vs, a).Some? {
      var i := LookupFound(vs, a);
      var j := if i < lo then i else i - hi + lo + 1;
      SpliceAt(vs, lo, hi, w, j);
      LookupAt(r, j, a);
    } else {
      if Lookup(r, a).Some? {
        var j := LookupFound(r, a);
        SpliceAt(vs, lo, hi, w, j);
        LookupAt(vs, if j < lo then j else j - lo - 1 + hi, a);
      }
    }
  }

  function Without(vs: seq<Vma>, i: nat): seq<Vma>
    requires i < |vs|
  {
    vs[..i] + vs[i + 1..]
  }

  lemma WithoutAt(vs: seq<Vma>, i: nat, j: nat)
    requires i < |vs| && j < |vs| - 1
    ensures Without(vs, i)[j] == if j < i then vs[j] else vs[j + 1]
  {
  }

  /** Removing one area removes its addresses from the map; the gap it leaves keeps its neighbours apart. */
  lemma RemoveCanonical(vs: seq<Vma>, i: nat)
    requires Canonical(vs) && i < |vs|
    ensures Canonical(Without(vs, i))
  {
    var r := Without(vs, i);
    forall j | 0 <= j < |r| ensures r[j].start < r[j].end { WithoutAt(vs, i, j); }
    forall j, k | 0 <= j < k < |r| ensures r[j].end <= r[k].start {
      WithoutAt(vs, i, j);
      WithoutAt(vs, i, k);
    }
    forall j | 0 < j < |r| ensures !Mergeable(r[j - 1], r[j]) {
      WithoutAt(vs, i, j - 1);
      WithoutAt(vs, i, j);
      if j < i { assert !Mergeable(vs[j - 1], vs[j]); }
      else if j > i { assert !Mergeable(vs[j + 1 - 1], vs[j + 1]); }
      else { assert vs[i - 1].end <= vs[i].start < vs[i].end <= vs[i + 1].start; }
    }
  }

  lemma RemoveLookup(vs: seq<Vma>, i: nat, a: nat)
    requires Sorted(vs) && i < |vs| && Sorted(Without(vs, i))
    ensures Lookup(Without(vs, i), a) == if vs[i].Contains(a) then None else Lookup(vs, a)
  {
    var r := Without(vs, i);
    if Lookup(r, a).Some? {
      var j := LookupFound(r, a);
      WithoutAt(vs, i, j);
      var k := if j < i then j else j + 1;
      LookupAt(vs, k, a);
      assert k < i ==> vs[k].end <= vs[i].start;
      assert i < k ==> vs[i].end <= vs[k].start;
    } else if Lookup(vs, a).Some? {
      var k := LookupFound(vs, a);
      if k != i {
        var j := if k < i then k else k - 1;
        WithoutAt(vs, i, j);
        LookupAt(r, j, a);
      }
    }
  }

  lemma RemoveFacts(vs: seq<Vma>, i: nat)
    requires Canonical(vs) && i < |vs|
    ensures Canonical(Without(vs, i))
    ensures forall a: nat :: Lookup(Without(vs, i), a) == if vs[i].Contains(a) then None else Lookup(vs, a)
  {
    RemoveCanonical(vs, i);
    forall a: nat ensures Lookup(Without(vs, i), a) == if vs[i].Contains(a) then None else Lookup(vs, a) {
      RemoveLookup(vs, i, a);
    }
  }

  /** A maximal stretch of equal attributes is one area of the list. */
  lemma RunIsArea(vs: seq<Vma>, v: Vma) returns (i: nat)
    requires Canonical(vs) && v.start < v.end
    requires forall a: nat :: v.Contains(a) ==> Lookup(vs, a) == Some(v.attr)
    requires v.start > 0 ==> Lookup(vs, v.start - 1) != Some(v.attr)
    requires Lookup(vs, v.end) != Some(v.attr)
    ensures i < |vs| && vs[i] == v
  {
    assert v.Contains(v.start);
    i := LookupFound(vs, v.start);
    if vs[i].start < v.start {
      LookupAt(vs, i, v.start - 1);
    }
    if v.end < vs[i].end {
      LookupAt(vs, i, v.end);
    }
    if vs[i].end < v.end {
      assert v.Contains(vs[i].end);
      StopsAtEnd(vs, i);
    }
  }
}
