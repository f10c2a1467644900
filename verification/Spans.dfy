/** A range of pages to be mapped: which of them get 2 MB entries, and which tables that takes. */
module Spans {
  import opened PageTable

  /** Virtual page numbers from `first` on are to map to the frames from `frame` on, for `size` bytes. */
  datatype Span = Span(first: nat, frame: nat, size: nat)

  /** The number of pages, the last of them perhaps in part. */
  function Count(sp: Span): nat { (sp.size + PAGE - 1) / PAGE }

  /** The `j`th page; page numbers go around at the end of the address space. */
  function PageAt(sp: Span, j: nat): nat { (sp.first + j) % PAGES }

  /** The first page number of the 2 MB that the `j`th page lies in. */
  function BaseOf(sp: Span, j: nat): nat { sp.first + j - (sp.first + j) % 512 }

  /** The 2 MB around the `j`th page lie wholly inside the span, and their frames are 2 MB of memory. */
  predicate Big(sp: Span, j: nat) {
    sp.first % 512 == sp.frame % 512 && sp.first <= BaseOf(sp, j) && (BaseOf(sp, j) + 512 - sp.first) * PAGE <= sp.size
  }

  /** The tables that a 2 MB entry needs. */
  function PdWay(k: nat): set<Path> { {Sub(Root, A(k)), PdOf(k)} }

  function TablesOf(sp: Span, j: nat): set<Path> {
    if Big(sp, j) then PdWay(PageAt(sp, j)) else Way(PageAt(sp, j))
  }

  /** The tables that the first `c` pages need. */
  ghost function Tables(sp: Span, c: nat): set<Path> {
    set j: nat, q | j < c && q in TablesOf(sp, j) :: q
  }

  // ---------- One step ----------

  /** Position `c` is not inside 2 MB that get an entry of their own. */
  predicate Boundary(sp: Span, c: nat) {
    Big(sp, c) ==> (sp.first + c) % 512 == 0
  }

  lemma BoundaryStart(sp: Span)
    ensures Boundary(sp, 0)
  {
  }

  lemma BoundaryAfterPage(sp: Span, c: nat)
    requires !Big(sp, c)
    ensures Boundary(sp, c + 1)
  {
    if (sp.first + c + 1) % 512 != 0 { assert BaseOf(sp, c + 1) == BaseOf(sp, c); }
  }

  lemma BoundaryAfterHuge(sp: Span, c: nat)
    requires (sp.first + c) % 512 == 0
    ensures Boundary(sp, c + 512)
  {
  }

  lemma SamePhase(first: nat, frame: nat, c: nat)
    requires (first + c) % 512 == 0
    ensures first % 512 == frame % 512 <==> (frame + c) % 512 == 0
  {
  }

  /** The test of the loop is that the next 2 MB get an entry of their own. */
  lemma BigTest(sp: Span, c: nat)
    requires Boundary(sp, c) && c * PAGE <= sp.size
    ensures Big(sp, c) <==>
      (sp.first + c) % 512 == 0 && (sp.frame + c) % 512 == 0 && sp.size - c * PAGE >= HUGE_PAGE
  {
    if (sp.first + c) % 512 == 0 {
      SamePhase(sp.first, sp.frame, c);
      assert BaseOf(sp, c) == sp.first + c;
      assert (c + 512) * PAGE == c * PAGE + HUGE_PAGE;
    }
  }

  lemma ChunkBase(x: nat, j: nat)
    requires x % 512 == 0 && x <= j < x + 512
    ensures j - j % 512 == x
  {
  }

  /** Then all 512 pages do, and the step needs the tables of the first. */
  lemma BigStep(sp: Span, c: nat)
    requires Big(sp, c) && (sp.first + c) % 512 == 0
    ensures Tables(sp, c + 512) == Tables(sp, c) + PdWay(PageAt(sp, c))
    ensures forall j: nat :: c <= j < c + 512 ==> Big(sp, j)
  {
    forall j: nat | c <= j < c + 512 ensures Big(sp, j) && TablesOf(sp, j) == PdWay(PageAt(sp, c)) {
      ChunkBase(sp.first + c, sp.first + j);
      SameChunk(sp.first + c, sp.first + j);
      IndicesIdentify(PageAt(sp, j), PageAt(sp, c));
    }
    forall q ensures q in Tables(sp, c + 512) <==> q in Tables(sp, c) || q in PdWay(PageAt(sp, c)) {
      if q in PdWay(PageAt(sp, c)) { assert c < c + 512 && q in TablesOf(sp, c); }
    }
  }

  lemma SameChunk(x: nat, y: nat)
    requires x % 512 == 0 && x <= y < x + 512
    ensures x % PAGES / 512 == y % PAGES / 512
  {
    assert x == 512 * (x / 512);
    assert PAGES == 512 * 0x800_0000;
    Wrap(x, y - x);
  }

  lemma Wrap(x: nat, d: nat)
    requires x % 512 == 0 && d < 512
    ensures (x + d) % PAGES == x % PAGES + d && x % PAGES % 512 == 0
  {
    var r := x % PAGES;
    assert r == x - PAGES * (x / PAGES);
    assert r % 512 == 0;
    assert r + d < PAGES;
  }

  lemma PageStep(sp: Span, c: nat)
    requires !Big(sp, c)
    ensures Tables(sp, c + 1) == Tables(sp, c) + Way(PageAt(sp, c))
  {
    forall q ensures q in Tables(sp, c + 1) <==> q in Tables(sp, c) || q in Way(PageAt(sp, c)) {
      if q in Way(PageAt(sp, c)) { assert c < c + 1 && q in TablesOf(sp, c); }
    }
  }

  lemma TablesGrow(sp: Span, c: nat, d: nat)
    requires c <= d
    ensures Tables(sp, c) <= Tables(sp, d)
  {
    forall q | q in Tables(sp, c) ensures q in Tables(sp, d) {
      var j: nat :| j < c && q in TablesOf(sp, j);
      assert j < d && q in TablesOf(sp, j);
    }
  }

  // ---------- Pages that are still to come ----------

  lemma DifferentRemainders(x: nat, y: nat)
    requires x < y < x + PAGES
    ensures x % PAGES != y % PAGES
  {
    assert x == PAGES * (x / PAGES) + x % PAGES;
    assert y == PAGES * (y / PAGES) + y % PAGES;
  }

  /** Two positions less than an address space apart are different pages. */
  lemma OtherPage(sp: Span, c: nat, j: nat)
    requires c < j < c + PAGES
    ensures PageAt(sp, j) != PageAt(sp, c)
  {
    DifferentRemainders(sp.first + c, sp.first + j);
  }

  lemma ChunksApart(x: nat, b: nat)
    requires x % 512 == 0 && b % 512 == 0 && x < b < x + PAGES
    ensures x % PAGES / 512 != b % PAGES / 512
  {
    Wrap(x, 0);
    Wrap(b, 0);
    DifferentRemainders(x, b);
    Multiples(x % PAGES, b % PAGES);
  }

  lemma Multiples(r: nat, q: nat)
    requires r % 512 == 0 && q % 512 == 0 && r != q
    ensures r / 512 != q / 512
  {
  }

  lemma ChunkOf(x: nat, y: nat) returns (b: nat)
    requires x % 512 == 0 && x + 512 <= y
    ensures b % 512 == 0 && x < b <= y < b + 512
  {
    b := y - y % 512;
  }

  /** What comes after the 2 MB at `c` lies in other 2 MB. */
  lemma OtherChunk(sp: Span, c: nat, j: nat)
    requires (sp.first + c) % 512 == 0 && c + 512 <= j < c + PAGES
    ensures PageAt(sp, j) / 512 != PageAt(sp, c) / 512
  {
    var b := ChunkOf(sp.first + c, sp.first + j);
    SameChunk(b, sp.first + j);
    ChunksApart(sp.first + c, b);
  }
}
