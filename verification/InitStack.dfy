/** Building the initial stack in a user address space: strings, random bytes, then the words a program reads. */
module InitStack {
  import opened PhysMem
  import opened BuddyAllocator
  import opened UserMemory
  import opened Isolation
  import opened StackImage
  import opened Spaces = AddressSpace

  /** The process sees the bytes `w` from address `lo` on. */
  ghost predicate Window(m: Mem, x: Space, lo: nat, w: seq<byte>) {
    forall i {:trigger w[i]} :: 0 <= i < |w| ==> View(m, x.walks, x.areas, lo + i) == Some(w[i])
  }

  /** Every page with an address from `lo` to `hi` has a frame. */
  ghost predicate Mapped(x: Space, lo: nat, hi: nat) {
    forall k: nat :: lo < 4096 * k + 4096 && 4096 * k < hi ==> UserFrame(x.walks, x.areas, k).Some?
  }

  lemma {:induction false} MappedExtent(x: Space, k: nat, off: nat, n: nat)
    requires off < 4096 && Mapped(x, 4096 * k + off, 4096 * k + off + n)
    ensures Extent(x, k, off, n) == n
    decreases n
  {
    if n > 0 {
      assert UserFrame(x.walks, x.areas, k).Some?;
      if Chunk(off, n) < n { MappedExtent(x, k + 1, 0, n - Chunk(off, n)); }
    }
  }

  /** Writing inside the window patches it. */
  lemma WindowPatched(m: Mem, x: Space, lo: nat, w: seq<byte>, a: nat, data: seq<byte>)
    requires DataPages(m, x) && Window(m, x, lo, w) && Mapped(x, lo, lo + |w|) && lo <= a && a + |data| <= lo + |w|
    ensures Window(Stored(m, x, a / 4096, a % 4096, data), x, lo, Patch(w, a - lo, data))
    ensures Pushed(m, x, w, Stored(m, x, a / 4096, a % 4096, data), Patch(w, a - lo, data), lo, a, a + |data|)
    ensures Extent(x, a / 4096, a % 4096, |data|) == |data|
  {
    var k, off := a / 4096, a % 4096;
    assert a == 4096 * k + off;
    MappedExtent(x, k, off, |data|);
    var u := Patch(w, a - lo, data);
    forall i | 0 <= i < |u| ensures View(Stored(m, x, k, off, data), x.walks, x.areas, lo + i) == Some(u[i]) {
      StoredAt(m, x, k, off, data, lo + i);
      PatchByte(w, a - lo, data, i);
    }
    PatchBetween(w, lo, a, data);
    forall e: nat | !(lo <= e < lo + |w|)
      ensures View(Stored(m, x, k, off, data), x.walks, x.areas, e) == View(m, x.walks, x.areas, e)
    {
      StoredAt(m, x, k, off, data, e);
    }
  }

  lemma MappedAreas(x: Space, lo: nat, hi: nat)
    requires Mapped(x, lo, hi)
    ensures OwnBytes(x.walks, x.areas, lo, hi)
  {
    forall k: nat | lo < 4096 * k + 4096 && 4096 * k < hi && lo < hi ensures Releasable(x.walks, x.areas, k) {
      assert UserFrame(x.walks, x.areas, k).Some?;
    }
  }

  /** Addresses outside the window read the same. */
  ghost predicate Elsewhere(m: Mem, x: Space, n: Mem, lo: nat, hi: nat) {
    forall a: nat :: !(lo <= a < hi) ==> View(n, x.walks, x.areas, a) == View(m, x.walks, x.areas, a)
  }

  /** From memory `m` with window `w` to memory `n` with window `u`, only bytes from `a` to `b` changed. */
  ghost predicate Pushed(m: Mem, x: Space, w: seq<byte>, n: Mem, u: seq<byte>, lo: nat, a: nat, b: nat) {
    OnlyBetween(w, u, lo, a, b) && Elsewhere(m, x, n, lo, lo + |w|)
  }

  lemma PushedTrans(m: Mem, x: Space, w: seq<byte>, n: Mem, u: seq<byte>, o: Mem, t: seq<byte>, lo: nat, a: nat, b: nat,
                    c: nat)
    requires Pushed(m, x, w, n, u, lo, a, b) && Pushed(n, x, u, o, t, lo, c, a)
    ensures Pushed(m, x, w, o, t, lo, c, b) && SameFrom(u, t, lo, a)
  {
    BetweenTrans(w, u, t, lo, a, b, c);
    forall e: nat | !(lo <= e < lo + |w|) ensures View(o, x.walks, x.areas, e) == View(m, x.walks, x.areas, e) {
      assert View(n, x.walks, x.areas, e) == View(m, x.walks, x.areas, e);
    }
  }

  /** A change just above a change. */
  lemma PushedUp(m: Mem, x: Space, w: seq<byte>, n: Mem, u: seq<byte>, o: Mem, t: seq<byte>, lo: nat, a: nat, b: nat,
                 c: nat)
    requires Pushed(m, x, w, n, u, lo, a, b) && Pushed(n, x, u, o, t, lo, b, c)
    ensures Pushed(m, x, w, o, t, lo, a, c)
  {
    forall e: nat | !(lo <= e < lo + |w|) ensures View(o, x.walks, x.areas, e) == View(m, x.walks, x.areas, e) {
      assert View(n, x.walks, x.areas, e) == View(m, x.walks, x.areas, e);
    }
  }

  /** A change below a change, with a gap between them. */
  lemma PushedBelow(m: Mem, x: Space, w: seq<byte>, n: Mem, u: seq<byte>, o: Mem, t: seq<byte>, lo: nat, a: nat, b: nat,
                    c: nat, d: nat)
    requires Pushed(m, x, w, n, u, lo, a, b) && Pushed(n, x, u, o, t, lo, c, d) && d <= a
    ensures Pushed(m, x, w, o, t, lo, c, b) && SameFrom(u, t, lo, d)
  {
    forall e: nat | !(lo <= e < lo + |w|) ensures View(o, x.walks, x.areas, e) == View(m, x.walks, x.areas, e) {
      assert View(n, x.walks, x.areas, e) == View(m, x.walks, x.areas, e);
    }
  }

  lemma PushedNothing(m: Mem, x: Space, w: seq<byte>, lo: nat, a: nat)
    requires lo <= a <= lo + |w|
    ensures Pushed(m, x, w, m, w, lo, a, a)
  {
  }

  /** The stack window is mapped and holds `w`. */
  ghost predicate Ready(space: AddressSpace, alloc: Buddy, mem: Memory, lo: nat, w: seq<byte>)
    reads space, alloc, alloc.mem
  {
    && space.MemoryOk(alloc, space.vmas) && mem == alloc.mem && lo + |w| <= USER_END
    && Mapped(space.Here(), lo, lo + |w|) && Window(alloc.mem.cells, space.Here(), lo, w)
  }

  /** Writes `data` at `a`, crossing pages as needed. */
  method WriteBytes(space: AddressSpace, ghost alloc: Buddy, mem: Memory, ghost lo: nat, ghost w: seq<byte>, a: nat,
                    data: seq<byte>)
    returns (ok: bool, ghost u: seq<byte>)
    requires Ready(space, alloc, mem, lo, w) && lo <= a && a + |data| <= lo + |w|
    modifies mem
    ensures ok && Ready(space, alloc, mem, lo, u) && u == Patch(w, a - lo, data)
    ensures Pushed(old(mem.cells), space.Here(), w, mem.cells, u, lo, a, a + |data|)
  {
    ghost var m, x := mem.cells, space.Here();
    SpaceDataPages(m, alloc.free, x);
    WindowPatched(m, x, lo, w, a, data);
    MappedAreas(x, lo, lo + |w|);
    ok := space.WriteToUser(alloc, mem, a, data);
    u := Patch(w, a - lo, data);
  }

  lemma WordInPage(a: nat)
    requires a % 8 == 0
    ensures a % 4096 + 8 <= 4096
  {
  }

  /** Writes one word at `a`, which is a multiple of 8 and so lies within one page. */
  method WriteWord(space: AddressSpace, ghost alloc: Buddy, mem: Memory, ghost lo: nat, ghost w: seq<byte>, a: nat,
                   v: nat)
    returns (ok: bool, ghost u: seq<byte>)
    requires Ready(space, alloc, mem, lo, w) && lo <= a && a + 8 <= lo + |w| && a % 8 == 0
    modifies mem
    ensures ok && Ready(space, alloc, mem, lo, u) && u == Patch(w, a - lo, Le(v, WORD))
    ensures Pushed(old(mem.cells), space.Here(), w, mem.cells, u, lo, a, a + 8)
  {
    ghost var m, x := mem.cells, space.Here();
    SpaceDataPages(m, alloc.free, x);
    WindowPatched(m, x, lo, w, a, Le(v, WORD));
    WordInPage(a);
    assert UserFrame(x.walks, x.areas, a / 4096).Some?;
    WordStored(m, x, a / 4096, a % 4096, Le(v, WORD));
    ok := space.WritePage(alloc, mem, a / 4096, a % 4096, Le(v, WORD));
    u := Patch(w, a - lo, Le(v, WORD));
  }

  lemma WordStored(m: Mem, x: Space, k: nat, off: nat, data: seq<byte>)
    requires DataPages(m, x) && UserFrame(x.walks, x.areas, k).Some? && 0 < |data| && off + |data| <= 4096
    ensures var f := UserFrame(x.walks, x.areas, k).value;
      IsData(At(m, f)) && Stored(m, x, k, off, data) == m[f := Bytes(Patch(At(m, f).data, off, data))]
  {
    assert data[..|data|] == data && data[|data|..] == [];
  }

  // ---------- The builder ----------

  lemma {:induction false} StringSpaceGrows(strs: seq<seq<byte>>, i: nat)
    requires i <= |strs|
    ensures StringSpace(strs[..i]) <= StringSpace(strs) && |strs| <= StringSpace(strs)
    decreases |strs|
  {
    if strs != [] {
      var n := |strs| - 1;
      if i <= n {
        StringSpaceGrows(strs[..n], i);
        assert strs[..n][..i] == strs[..i];
      } else {
        StringSpaceGrows(strs[..n], n);
        assert strs[..i] == strs;
      }
    }
  }

  lemma NextString(strs: seq<seq<byte>>, i: nat)
    requires i < |strs|
    ensures StringSpace(strs[..i + 1]) == StringSpace(strs[..i]) + |strs[i]| + 1 <= StringSpace(strs)
  {
    assert strs[..i + 1][..i] == strs[..i];
    StringSpaceGrows(strs, i + 1);
  }

  lemma StringsGrow(w: seq<byte>, u: seq<byte>, lo: nat, from: nat, next: nat, ptrs: seq<nat>, strs: seq<seq<byte>>,
                    i: nat)
    requires i < |strs| && Strings(w, lo, from, ptrs, strs[..i]) && SameFrom(w, u, lo, from) && next <= from
    requires StringAt(u, lo, next, strs[i])
    ensures Strings(u, lo, next, ptrs + [next], strs[..i + 1])
  {
    StringsKept(w, u, lo, from, next, ptrs, strs[..i]);
    forall j | 0 <= j < i + 1
      ensures next <= (ptrs + [next])[j] && StringAt(u, lo, (ptrs + [next])[j], strs[..i + 1][j])
    {
      assert j < i ==> strs[..i + 1][j] == strs[..i][j];
    }
  }

  /** Pushes one string and its NUL. */
  method PushString(space: AddressSpace, ghost alloc: Buddy, mem: Memory, ghost lo: nat, ghost w: seq<byte>, addr: nat,
                    s: seq<byte>)
    returns (next: nat, ghost u: seq<byte>)
    requires Ready(space, alloc, mem, lo, w) && lo + |s| + 1 <= addr <= lo + |w|
    modifies mem
    ensures next == addr - (|s| + 1) && Ready(space, alloc, mem, lo, u)
    ensures StringAt(u, lo, next, s) && Pushed(old(mem.cells), space.Here(), w, mem.cells, u, lo, next, addr)
  {
    next := addr - (|s| + 1);
    StringPushed(w, lo, next, s);
    var ok: bool;
    ok, u := WriteBytes(space, alloc, mem, lo, w, next, s);
    ghost var n, v := mem.cells, u;
    ok, u := WriteBytes(space, alloc, mem, lo, u, next + |s|, [0]);
    PushedUp(old(mem.cells), space.Here(), w, n, v, mem.cells, u, lo, next, next + |s|, addr);
  }

  /** Pushes the strings one below the other and returns where each begins. */
  method PushStrings(space: AddressSpace, ghost alloc: Buddy, mem: Memory, ghost lo: nat, ghost w: seq<byte>, addr: nat,
                     strs: seq<seq<byte>>)
    returns (next: nat, ptrs: seq<nat>, ghost u: seq<byte>)
    requires Ready(space, alloc, mem, lo, w) && lo + StringSpace(strs) <= addr <= lo + |w|
    modifies mem
    ensures next == addr - StringSpace(strs) && Ready(space, alloc, mem, lo, u)
    ensures Strings(u, lo, next, ptrs, strs) && Pushed(old(mem.cells), space.Here(), w, mem.cells, u, lo, next, addr)
  {
    next, ptrs, u := addr, [], w;
    PushedNothing(mem.cells, space.Here(), w, lo, addr);
    for i := 0 to |strs|
      invariant lo <= next == addr - StringSpace(strs[..i]) && Ready(space, alloc, mem, lo, u)
      invariant Strings(u, lo, next, ptrs, strs[..i])
      invariant Pushed(old(mem.cells), space.Here(), w, mem.cells, u, lo, next, addr)
    {
      NextString(strs, i);
      ghost var n, before, from := mem.cells, u, next;
      next, u := PushString(space, alloc, mem, lo, u, next, strs[i]);
      PushedTrans(old(mem.cells), space.Here(), w, n, before, mem.cells, u, lo, from, addr, next);
      StringsGrow(before, u, lo, from, next, ptrs, strs, i);
      ptrs := ptrs + [next];
    }
    assert strs[..|strs|] == strs;
  }

  /** Pushes one word below the words already there. */
  method PushWord(space: AddressSpace, ghost alloc: Buddy, mem: Memory, ghost lo: nat, ghost w: seq<byte>, addr: nat,
                  v: nat, ghost ws: seq<nat>)
    returns (next: nat, ghost u: seq<byte>)
    requires Ready(space, alloc, mem, lo, w) && lo + 8 <= addr <= lo + |w| && addr % 8 == 0 && Words(w, lo, addr, ws)
    modifies mem
    ensures next == addr - 8 && next % 8 == 0 && Ready(space, alloc, mem, lo, u)
    ensures Words(u, lo, next, [v] + ws) && Pushed(old(mem.cells), space.Here(), w, mem.cells, u, lo, next, addr)
  {
    next := addr - 8;
    WordPushed(w, lo, addr, ws, v);
    var ok: bool;
    ok, u := WriteWord(space, alloc, mem, lo, w, next, v);
  }

  lemma PrependWord(vs: seq<nat>, i: nat, ws: seq<nat>)
    requires i < |vs|
    ensures [vs[i]] + (vs[i + 1..] + ws) == vs[i..] + ws
  {
  }

  lemma PrependPair(aux: seq<(nat, nat)>, i: nat)
    requires i < |aux|
    ensures [aux[i].0] + ([aux[i].1] + Flat(aux[i + 1..])) == Flat(aux[i..])
  {
    assert aux[i..][1..] == aux[i + 1..];
  }

  /** Pushes the words `vs` so that they read upwards in order. */
  method PushWords(space: AddressSpace, ghost alloc: Buddy, mem: Memory, ghost lo: nat, ghost w: seq<byte>, addr: nat,
                   vs: seq<nat>, ghost ws: seq<nat>)
    returns (next: nat, ghost u: seq<byte>)
    requires Ready(space, alloc, mem, lo, w) && lo + 8 * |vs| <= addr <= lo + |w| && addr % 8 == 0
    requires Words(w, lo, addr, ws)
    modifies mem
    ensures next == addr - 8 * |vs| && next % 8 == 0 && Ready(space, alloc, mem, lo, u)
    ensures Words(u, lo, next, vs + ws) && Pushed(old(mem.cells), space.Here(), w, mem.cells, u, lo, next, addr)
  {
    next, u := addr, w;
    PushedNothing(mem.cells, space.Here(), w, lo, addr);
    assert vs[|vs|..] + ws == ws;
    for i := |vs| downto 0
      invariant next == addr - 8 * (|vs| - i) && next % 8 == 0 && Ready(space, alloc, mem, lo, u)
      invariant Words(u, lo, next, vs[i..] + ws)
      invariant Pushed(old(mem.cells), space.Here(), w, mem.cells, u, lo, next, addr)
    {
      ghost var n, before, from := mem.cells, u, next;
      next, u := PushWord(space, alloc, mem, lo, u, next, vs[i], vs[i + 1..] + ws);
      PrependWord(vs, i, ws);
      PushedTrans(old(mem.cells), space.Here(), w, n, before, mem.cells, u, lo, from, addr, next);
    }
  }

  /** Pushes the auxiliary vector, for each pair from the last the value and then the tag. */
  method PushAux(space: AddressSpace, ghost alloc: Buddy, mem: Memory, ghost lo: nat, ghost w: seq<byte>, addr: nat,
                 aux: seq<(nat, nat)>)
    returns (next: nat, ghost u: seq<byte>)
    requires Ready(space, alloc, mem, lo, w) && lo + 16 * |aux| <= addr <= lo + |w| && addr % 8 == 0
    modifies mem
    ensures next == addr - 16 * |aux| && next % 8 == 0 && Ready(space, alloc, mem, lo, u)
    ensures Words(u, lo, next, Flat(aux)) && Pushed(old(mem.cells), space.Here(), w, mem.cells, u, lo, next, addr)
  {
    next, u := addr, w;
    PushedNothing(mem.cells, space.Here(), w, lo, addr);
    for i := |aux| downto 0
      invariant next == addr - 16 * (|aux| - i) && next % 8 == 0 && Ready(space, alloc, mem, lo, u)
      invariant Words(u, lo, next, Flat(aux[i..]))
      invariant Pushed(old(mem.cells), space.Here(), w, mem.cells, u, lo, next, addr)
    {
      var (tag, val) := aux[i];
      ghost var n, before, from, ws := mem.cells, u, next, Flat(aux[i + 1..]);
      next, u := PushWord(space, alloc, mem, lo, u, next, val, ws);
      PushedTrans(old(mem.cells), space.Here(), w, n, before, mem.cells, u, lo, from, addr, next);
      n, before, from := mem.cells, u, next;
      next, u := PushWord(space, alloc, mem, lo, u, next, tag, [val] + ws);
      PushedTrans(old(mem.cells), space.Here(), w, n, before, mem.cells, u, lo, from, addr, next);
      PrependPair(aux, i);
    }
    assert aux[0..] == aux;
  }

  const AT_NULL: nat := 0
  const AT_PHDR: nat := 3
  const AT_PHENT: nat := 4
  const AT_PHNUM: nat := 5
  const AT_PAGESZ: nat := 6
  const AT_BASE: nat := 7
  const AT_FLAGS: nat := 8
  const AT_ENTRY: nat := 9
  const AT_UID: nat := 11
  const AT_EUID: nat := 12
  const AT_GID: nat := 13
  const AT_EGID: nat := 14
  const AT_SECURE: nat := 23
  const AT_RANDOM: nat := 25
  const AT_SYSINFO_EHDR: nat := 33

  /** The auxiliary vector of a program with the given entry point and program headers. */
  function AuxVector(entry: nat, phdr: nat, phent: nat, phnum: nat, random: nat): seq<(nat, nat)> {
    [(AT_PHDR, phdr), (AT_PHENT, phent), (AT_PHNUM, phnum), (AT_PAGESZ, 4096), (AT_BASE, 0), (AT_FLAGS, 0),
     (AT_ENTRY, entry),
     (AT_UID, 0), (AT_EUID, 0), (AT_GID, 0), (AT_EGID, 0), (AT_SECURE, 0), (AT_RANDOM, random),
     (AT_SYSINFO_EHDR, 0), (AT_NULL, 0)]
  }

  /** The number of words below the strings. */
  function TotalWords(argv: seq<seq<byte>>, envp: seq<seq<byte>>): nat {
    1 + |argv| + 1 + |envp| + 1 + 15 * 2
  }

  /** Where the random bytes go: below all strings. */
  function RandomAt(top: nat, argv: seq<seq<byte>>, envp: seq<seq<byte>>): int {
    top - StringSpace(envp) - StringSpace(argv) - 16
  }

  /** The address below which the words are pushed: aligned so that the last word ends up on a multiple of 16. */
  function WordsTop(a: nat, total: nat): int {
    a - a % 16 - (if total % 2 != 0 then 8 else 0)
  }

  /** There is room for everything from `lo` up to `top`. */
  predicate Fits(lo: nat, top: nat, argv: seq<seq<byte>>, envp: seq<seq<byte>>) {
    var a := RandomAt(top, argv, envp);
    lo <= a && lo + 8 * TotalWords(argv, envp) <= WordsTop(a, TotalWords(argv, envp))
  }

  lemma Aligned16(a: nat, total: nat)
    requires 8 * total <= WordsTop(a, total)
    ensures (WordsTop(a, total) - 8 * total) % 16 == 0 && WordsTop(a, total) % 8 == 0
  {
    var q, t := a / 16, total / 2;
    assert a - a % 16 == 16 * q;
    if total % 2 != 0 {
      assert total == 2 * t + 1;
      MultipleOf(WordsTop(a, total) - 8 * total, q - t - 1, WordsTop(a, total), 2 * q - 1);
    } else {
      assert total == 2 * t;
      MultipleOf(WordsTop(a, total) - 8 * total, q - t, WordsTop(a, total), 2 * q);
    }
  }

  lemma MultipleOf(x: int, k: int, y: int, j: int)
    requires x == 16 * k && y == 8 * j
    ensures x % 16 == 0 && y % 8 == 0
  {
  }

  /** Rounds `addr` down so that `total` words below it end on a multiple of 16. */
  method AlignDown(addr: nat, total: nat, ghost lo: nat) returns (start: nat, ghost end: nat)
    requires lo + 8 * total <= WordsTop(addr, total)
    ensures start == WordsTop(addr, total) && lo + 8 * total <= start <= addr && start % 8 == 0
    ensures end == start - 8 * total && end % 16 == 0
  {
    Aligned16(addr, total);
    end := WordsTop(addr, total) - 8 * total;
    start := addr - addr % 16;
    if total % 2 != 0 { start := start - 8; }
  }

  lemma AuxNullEnded(entry: nat, phdr: nat, phent: nat, phnum: nat, random: nat)
    ensures NullEnded(AuxVector(entry, phdr, phent, phnum, random))
    ensures |AuxVector(entry, phdr, phent, phnum, random)| == 15
  {
  }

  /** Pushes the environment, the arguments and the random bytes. */
  method PushTexts(space: AddressSpace, ghost alloc: Buddy, mem: Memory, ghost lo: nat, ghost w: seq<byte>, top: nat,
                   argv: seq<seq<byte>>, envp: seq<seq<byte>>, random: seq<byte>)
    returns (addr: nat, argvPtrs: seq<nat>, envpPtrs: seq<nat>, ghost u: seq<byte>)
    requires Ready(space, alloc, mem, lo, w) && |random| == 16 && lo <= RandomAt(top, argv, envp) && top <= lo + |w|
    modifies mem
    ensures addr == RandomAt(top, argv, envp) && Ready(space, alloc, mem, lo, u)
    ensures Pushed(old(mem.cells), space.Here(), w, mem.cells, u, lo, addr, top)
    ensures Strings(u, lo, addr, argvPtrs, argv) && Strings(u, lo, addr, envpPtrs, envp) && BytesAt(u, lo, addr, random)
  {
    addr, envpPtrs, u := PushStrings(space, alloc, mem, lo, w, top, envp);
    ghost var n1, u1, a1 := mem.cells, u, addr;
    addr, argvPtrs, u := PushStrings(space, alloc, mem, lo, u, addr, argv);
    PushedTrans(old(mem.cells), space.Here(), w, n1, u1, mem.cells, u, lo, a1, top, addr);
    StringsKept(u1, u, lo, a1, addr, envpPtrs, envp);
    ghost var n2, u2, a2 := mem.cells, u, addr;
    addr := addr - 16;
    PatchAt(u2, lo, addr, random);
    var ok: bool;
    ok, u := WriteBytes(space, alloc, mem, lo, u, addr, random);
    PushedTrans(old(mem.cells), space.Here(), w, n2, u2, mem.cells, u, lo, a2, top, addr);
    StringsKept(u2, u, lo, a2, addr, envpPtrs, envp);
    StringsKept(u2, u, lo, a2, addr, argvPtrs, argv);
  }

  /** Pushes the vector, the two pointer lists with their ends, and the argument count. */
  method PushTable(space: AddressSpace, ghost alloc: Buddy, mem: Memory, ghost lo: nat, ghost w: seq<byte>, start: nat,
                   argvPtrs: seq<nat>, envpPtrs: seq<nat>, aux: seq<(nat, nat)>)
    returns (rsp: nat, ghost u: seq<byte>)
    requires Ready(space, alloc, mem, lo, w) && start % 8 == 0
    requires lo + 8 * (3 + |argvPtrs| + |envpPtrs| + 2 * |aux|) <= start <= lo + |w|
    modifies mem
    ensures rsp == start - 8 * (3 + |argvPtrs| + |envpPtrs| + 2 * |aux|) && Ready(space, alloc, mem, lo, u)
    ensures Words(u, lo, rsp, StackWords(argvPtrs, envpPtrs, aux))
    ensures Pushed(old(mem.cells), space.Here(), w, mem.cells, u, lo, rsp, start)
  {
    ghost var n, v, a, ws := mem.cells, w, start, Flat(aux);
    rsp, u := PushAux(space, alloc, mem, lo, w, start, aux);
    n, v, a := mem.cells, u, rsp;
    rsp, u := PushWord(space, alloc, mem, lo, u, rsp, 0, ws);
    PushedTrans(old(mem.cells), space.Here(), w, n, v, mem.cells, u, lo, a, start, rsp);
    n, v, a, ws := mem.cells, u, rsp, [0] + ws;
    rsp, u := PushWords(space, alloc, mem, lo, u, rsp, envpPtrs, ws);
    PushedTrans(old(mem.cells), space.Here(), w, n, v, mem.cells, u, lo, a, start, rsp);
    n, v, a, ws := mem.cells, u, rsp, envpPtrs + ws;
    rsp, u := PushWord(space, alloc, mem, lo, u, rsp, 0, ws);
    PushedTrans(old(mem.cells), space.Here(), w, n, v, mem.cells, u, lo, a, start, rsp);
    n, v, a, ws := mem.cells, u, rsp, [0] + ws;
    rsp, u := PushWords(space, alloc, mem, lo, u, rsp, argvPtrs, ws);
    PushedTrans(old(mem.cells), space.Here(), w, n, v, mem.cells, u, lo, a, start, rsp);
    n, v, a, ws := mem.cells, u, rsp, argvPtrs + ws;
    rsp, u := PushWord(space, alloc, mem, lo, u, rsp, |argvPtrs|, ws);
    PushedTrans(old(mem.cells), space.Here(), w, n, v, mem.cells, u, lo, a, start, rsp);
  }

  /** Every word of the table fits 64 bits. */
  lemma TableWords(argvPtrs: seq<nat>, envpPtrs: seq<nat>, aux: seq<(nat, nat)>)
    requires AllWords(argvPtrs) && AllWords(envpPtrs) && IsWord(|argvPtrs|)
    requires forall i :: 0 <= i < |aux| ==> IsWord(aux[i].0) && IsWord(aux[i].1)
    ensures AllWords(StackWords(argvPtrs, envpPtrs, aux))
  {
    FlatWords(aux);
  }

  lemma {:induction false} FlatWords(aux: seq<(nat, nat)>)
    requires forall i :: 0 <= i < |aux| ==> IsWord(aux[i].0) && IsWord(aux[i].1)
    ensures AllWords(Flat(aux))
  {
    if aux != [] { FlatWords(aux[1..]); }
  }

  lemma StringPtrs(w: seq<byte>, lo: nat, from: nat, ptrs: seq<nat>, strs: seq<seq<byte>>)
    requires Strings(w, lo, from, ptrs, strs) && lo + |w| <= USER_END
    ensures AllWords(ptrs)
  {
    forall i | 0 <= i < |ptrs| ensures IsWord(ptrs[i]) { assert StringAt(w, lo, ptrs[i], strs[i]); }
  }

  /** The random bytes that the vector points to are the given ones. */
  ghost predicate HasRandom(w: seq<byte>, lo: nat, aux: seq<(nat, nat)>, random: seq<byte>) {
    exists i :: 0 <= i < |aux| && aux[i].0 == AT_RANDOM && BytesAt(w, lo, aux[i].1, random)
  }

  lemma StackComplete(v: seq<byte>, u: seq<byte>, lo: nat, start: nat, rsp: nat, addr: nat, argvPtrs: seq<nat>,
                      envpPtrs: seq<nat>,
                      argv: seq<seq<byte>>, envp: seq<seq<byte>>, aux: seq<(nat, nat)>)
    requires Strings(v, lo, addr, argvPtrs, argv) && Strings(v, lo, addr, envpPtrs, envp) && lo + |v| <= USER_END
    requires SameFrom(v, u, lo, start) && start <= addr && 0 < lo <= rsp <= start
    requires Words(u, lo, rsp, StackWords(argvPtrs, envpPtrs, aux)) && NullEnded(aux) && IsWord(|argv|)
    requires forall i :: 0 <= i < |aux| ==> IsWord(aux[i].0) && IsWord(aux[i].1)
    ensures Decodes(u, lo, rsp, argv, envp, aux)
  {
    StringsFrom(v, lo, addr, start, argvPtrs, argv);
    StringsFrom(v, lo, addr, start, envpPtrs, envp);
    StringsKept(v, u, lo, start, start, argvPtrs, argv);
    StringsKept(v, u, lo, start, start, envpPtrs, envp);
    StringPtrs(v, lo, addr, argvPtrs, argv);
    StringPtrs(v, lo, addr, envpPtrs, envp);
    TableWords(argvPtrs, envpPtrs, aux);
    StackDecodes(u, lo, rsp, start, argvPtrs, envpPtrs, argv, envp, aux);
  }

  lemma StringsFrom(w: seq<byte>, lo: nat, from: nat, next: nat, ptrs: seq<nat>, strs: seq<seq<byte>>)
    requires Strings(w, lo, from, ptrs, strs) && next <= from
    ensures Strings(w, lo, next, ptrs, strs)
  {
  }

  /**
   * Builds the stack below `top`. Where it fits the mapped window from `lo` up, a program that starts at the returned
   * stack pointer reads back exactly the arguments, the environment and the auxiliary vector.
   */
  method BuildStack(space: AddressSpace, ghost alloc: Buddy, mem: Memory, ghost lo: nat, ghost w: seq<byte>, top: nat,
                    argv: seq<seq<byte>>, envp: seq<seq<byte>>,
                    entry: nat, phdr: nat, phent: nat, phnum: nat, random: seq<byte>)
    returns (rsp: nat, ghost u: seq<byte>)
    requires Ready(space, alloc, mem, lo, w) && 0 < lo && top <= lo + |w| && Fits(lo, top, argv, envp)
    requires |random| == 16 && IsWord(entry) && IsWord(phdr) && IsWord(phent) && IsWord(phnum)
    modifies mem
    ensures Ready(space, alloc, mem, lo, u) && rsp % 16 == 0 && lo <= rsp < top
    ensures var aux := AuxVector(entry, phdr, phent, phnum, RandomAt(top, argv, envp));
      Decodes(u, lo, rsp, argv, envp, aux) && HasRandom(u, lo, aux, random)
    ensures Auxiliary(u, lo, rsp, entry, phdr, phent, phnum, random)
    ensures Pushed(old(mem.cells), space.Here(), w, mem.cells, u, lo, rsp, top)
  {
    var addr: nat, argvPtrs: seq<nat>, envpPtrs: seq<nat>;
    addr, argvPtrs, envpPtrs, u := PushTexts(space, alloc, mem, lo, w, top, argv, envp, random);
    var aux := AuxVector(entry, phdr, phent, phnum, addr);
    var total := 1 + |argv| + 1 + |envp| + 1 + |aux| * 2;
    var start: nat;
    ghost var end: nat;
    start, end := AlignDown(addr, total, lo);
    ghost var n, v := mem.cells, u;
    rsp, u := PushTable(space, alloc, mem, lo, u, start, argvPtrs, envpPtrs, aux);
    PushedBelow(old(mem.cells), space.Here(), w, n, v, mem.cells, u, lo, addr, top, rsp, start);
    assert rsp == end;
    BuiltFacts(v, u, lo, start, rsp, addr, argvPtrs, envpPtrs, argv, envp, aux, entry, phdr, phent, phnum, random);
  }

  /**
   * What a program finds in its auxiliary vector: AT_PHDR, AT_PHENT, AT_PHNUM, AT_PAGESZ, AT_ENTRY and AT_RANDOM, zero
   * under eight more tags, and nothing under any other.
   */
  ghost predicate Auxiliary(w: seq<byte>, lo: nat, rsp: nat, entry: nat, phdr: nat, phent: nat, phnum: nat,
                            random: seq<byte>)
  {
    && AuxValue(w, lo, rsp, 3) == Some(phdr)
    && AuxValue(w, lo, rsp, 4) == Some(phent)
    && AuxValue(w, lo, rsp, 5) == Some(phnum)
    && AuxValue(w, lo, rsp, 6) == Some(4096)
    && AuxValue(w, lo, rsp, 9) == Some(entry)
    && AuxValue(w, lo, rsp, 25).Some? && BytesAt(w, lo, AuxValue(w, lo, rsp, 25).value, random)
    && (forall t :: t in ZERO_TAGS ==> AuxValue(w, lo, rsp, t) == Some(0))
    && (forall t: nat :: t !in ZERO_TAGS && t !in {3, 4, 5, 6, 9, 25} ==> AuxValue(w, lo, rsp, t) == None)
  }

  /** AT_BASE, AT_FLAGS, the four user and group ids, AT_SECURE and AT_SYSINFO_EHDR. */
  const ZERO_TAGS: set<nat> := {7, 8, 11, 12, 13, 14, 23, 33}

  function Expected(entry: nat, phdr: nat, phent: nat, phnum: nat, random: nat, tag: nat): Option<nat> {
    if tag == 3 then Some(phdr) else if tag == 4 then Some(phent) else if tag == 5 then Some(phnum)
    else if tag == 6 then Some(4096) else if tag == 9 then Some(entry) else if tag == 25 then Some(random)
    else if tag in ZERO_TAGS then Some(0) else None
  }

  /** The position of the pair with the given tag. */
  function Position(tag: nat): nat {
    if 3 <= tag <= 9 then tag - 3 else if 11 <= tag <= 14 then tag - 4
    else if tag == 23 then 11 else if tag == 25 then 12 else if tag == 33 then 13 else 14
  }

  lemma VectorTags(entry: nat, phdr: nat, phent: nat, phnum: nat, random: nat, i: nat)
    requires i < 15
    ensures var aux := AuxVector(entry, phdr, phent, phnum, random);
      && Position(aux[i].0) == i && (aux[i].0 == 0 <==> i == 14)
      && Expected(entry, phdr, phent, phnum, random, aux[i].0) == if i < 14 then Some(aux[i].1) else None
  {
  }

  lemma TagAt(entry: nat, phdr: nat, phent: nat, phnum: nat, random: nat, tag: nat)
    requires Position(tag) < 14
    ensures AuxVector(entry, phdr, phent, phnum, random)[Position(tag)].0 == tag
  {
  }

  /** The vector holds each tag once. */
  lemma VectorFirst(entry: nat, phdr: nat, phent: nat, phnum: nat, random: nat, tag: nat)
    ensures FirstPair(AuxVector(entry, phdr, phent, phnum, random), tag) ==
      Expected(entry, phdr, phent, phnum, random, tag)
  {
    var aux := AuxVector(entry, phdr, phent, phnum, random);
    forall i: nat | i < 15 ensures Position(aux[i].0) == i && (aux[i].0 == 0 <==> i == 14) {
      VectorTags(entry, phdr, phent, phnum, random, i);
    }
    var i := Position(tag);
    if i < 14 {
      TagAt(entry, phdr, phent, phnum, random, tag);
      VectorTags(entry, phdr, phent, phnum, random, i);
      FirstAt(aux, i);
    } else {
      FirstNone(aux, tag);
    }
  }

  lemma AuxFound(w: seq<byte>, lo: nat, rsp: nat, argv: seq<seq<byte>>, envp: seq<seq<byte>>, entry: nat, phdr: nat,
                 phent: nat, phnum: nat, at: nat, random: seq<byte>)
    requires Decodes(w, lo, rsp, argv, envp, AuxVector(entry, phdr, phent, phnum, at)) && BytesAt(w, lo, at, random)
    ensures Auxiliary(w, lo, rsp, entry, phdr, phent, phnum, random)
  {
    forall t: nat ensures AuxValue(w, lo, rsp, t) == Expected(entry, phdr, phent, phnum, at, t) {
      LookupIsFirst(w, lo, rsp, argv, envp, AuxVector(entry, phdr, phent, phnum, at), t);
      VectorFirst(entry, phdr, phent, phnum, at, t);
    }
  }

  lemma BuiltFacts(v: seq<byte>, u: seq<byte>, lo: nat, start: nat, rsp: nat, addr: nat, argvPtrs: seq<nat>,
                   envpPtrs: seq<nat>,
                   argv: seq<seq<byte>>, envp: seq<seq<byte>>, aux: seq<(nat, nat)>,
                   entry: nat, phdr: nat, phent: nat, phnum: nat, random: seq<byte>)
    requires Strings(v, lo, addr, argvPtrs, argv) && Strings(v, lo, addr, envpPtrs, envp)
    requires BytesAt(v, lo, addr, random)
    requires lo + |v| <= USER_END && SameFrom(v, u, lo, start) && start <= addr
    requires 0 < lo <= rsp == start - 8 * (3 + |argv| + |envp| + 2 * |aux|)
    requires Words(u, lo, rsp, StackWords(argvPtrs, envpPtrs, aux))
    requires aux == AuxVector(entry, phdr, phent, phnum, addr)
    requires IsWord(entry) && IsWord(phdr) && IsWord(phent) && IsWord(phnum)
    ensures Decodes(u, lo, rsp, argv, envp, aux) && HasRandom(u, lo, aux, random)
    ensures Auxiliary(u, lo, rsp, entry, phdr, phent, phnum, random)
  {
    AuxNullEnded(entry, phdr, phent, phnum, addr);
    StackComplete(v, u, lo, start, rsp, addr, argvPtrs, envpPtrs, argv, envp, aux);
    SameBytes(v, u, lo, start, addr, random);
    assert aux[12] == (AT_RANDOM, addr);
    AuxFound(u, lo, rsp, argv, envp, entry, phdr, phent, phnum, addr, random);
  }
}
