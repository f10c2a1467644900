/**
 * The initial stack of a program as bytes: words and strings in a window of memory, and how a program reads them back
 * (section 3.4.1 of the System V AMD64 ABI).
 */
module StackImage {
  import Division
  import opened PhysMem
  import opened BuddyAllocator
  import opened Isolation

  // ---------- Words ----------

  function Pow256(n: nat): nat { if n == 0 then 1 else 256 * Pow256(n - 1) }

  /** The `n` bytes of `v`, least significant first. */
  function Le(v: nat, n: nat): (r: seq<byte>)
    ensures |r| == n
  {
    if n == 0 then [] else [v % 256] + Le(v / 256, n - 1)
  }

  function Val(b: seq<byte>): nat {
    if b == [] then 0 else b[0] + 256 * Val(b[1..])
  }

  lemma {:induction false} LeVal(v: nat, n: nat)
    requires v < Pow256(n)
    ensures Val(Le(v, n)) == v
  {
    if n > 0 {
      LeVal(v / 256, n - 1);
      assert Le(v, n)[1..] == Le(v / 256, n - 1);
    }
  }

  /** Byte `i` counts 256 to the power `i`. */
  lemma {:induction false} LeByte(v: nat, n: nat, i: nat)
    requires i < n
    ensures Pow256(i) > 0 && Le(v, n)[i] == v / Pow256(i) % 256
  {
    if i > 0 {
      LeByte(v / 256, n - 1, i - 1);
      ByteShift(v, Pow256(i - 1));
    }
  }

  lemma ByteShift(v: nat, p: nat)
    requires p > 0
    ensures v / 256 / p == v / (256 * p)
  {
    var q := v / 256;
    var s, t := q / p, q % p;
    assert q == p * s + t;
    assert (256 * p) * s == 256 * (p * s);
    Division.QuotientUnique(v, 256 * p, s);
  }

  const WORD: nat := 8

  /** A value that fits a 64-bit word. */
  predicate IsWord(v: nat) {
    v < 0x1_0000_0000_0000_0000
  }

  lemma WordLimit()
    ensures Pow256(WORD) == 0x1_0000_0000_0000_0000
  {
    assert Pow256(8) == 0x1_0000_0000_0000_0000;
  }

  /** The bytes `b` lie at address `a` of the window `w` that starts at `lo`. */
  predicate BytesAt(w: seq<byte>, lo: nat, a: nat, b: seq<byte>) {
    lo <= a && a + |b| <= lo + |w| && forall i :: 0 <= i < |b| ==> w[a - lo + i] == b[i]
  }

  /** Word number `i` from address `a` on. */
  function Word(w: seq<byte>, lo: nat, a: nat, i: int): nat {
    if lo <= a && 0 <= i && a + 8 * i + 8 <= lo + |w| then Val(w[a + 8 * i - lo..a + 8 * i + 8 - lo]) else 0
  }

  /** The words `ws` lie one after another from `a` on. */
  ghost predicate Words(w: seq<byte>, lo: nat, a: nat, ws: seq<nat>)
    decreases ws
  {
    if ws == [] then lo <= a <= lo + |w| else BytesAt(w, lo, a, Le(ws[0], WORD)) && Words(w, lo, a + 8, ws[1..])
  }

  /** What is laid down as words reads back as words. */
  lemma {:induction false} WordsRead(w: seq<byte>, lo: nat, a: nat, ws: seq<nat>, i: nat)
    requires Words(w, lo, a, ws) && i < |ws| && IsWord(ws[i])
    ensures Word(w, lo, a, i) == ws[i]
    decreases ws
  {
    if i == 0 {
      WordLimit();
      LeVal(ws[0], WORD);
      assert w[a - lo..a + 8 - lo] == Le(ws[0], WORD);
    } else {
      WordsRead(w, lo, a + 8, ws[1..], i - 1);
    }
  }

  /** `w` and `u` have the same bytes from address `a` on. */
  ghost predicate SameFrom(w: seq<byte>, u: seq<byte>, lo: nat, a: nat) {
    |u| == |w| && lo <= a <= lo + |w| && forall j :: a - lo <= j < |w| ==> u[j] == w[j]
  }

  lemma SameBytes(w: seq<byte>, u: seq<byte>, lo: nat, a: nat, b: nat, bytes: seq<byte>)
    requires SameFrom(w, u, lo, a) && a <= b && BytesAt(w, lo, b, bytes)
    ensures BytesAt(u, lo, b, bytes)
  {
  }

  lemma PatchByte(w: seq<byte>, off: nat, data: seq<byte>, j: nat)
    requires off + |data| <= |w| && j < |w|
    ensures Patch(w, off, data)[j] == if off <= j < off + |data| then data[j - off] else w[j]
  {
  }

  lemma PatchAt(w: seq<byte>, lo: nat, a: nat, data: seq<byte>)
    requires lo <= a && a + |data| <= lo + |w|
    ensures BytesAt(Patch(w, a - lo, data), lo, a, data)
  {
    forall i | 0 <= i < |data|
      ensures Patch(w, a - lo, data)[a - lo + i] == data[i]
    {
      PatchByte(w, a - lo, data, a - lo + i);
    }
  }

  lemma PatchSame(w: seq<byte>, lo: nat, a: nat, data: seq<byte>, from: nat)
    requires lo <= a && a + |data| <= from <= lo + |w|
    ensures SameFrom(w, Patch(w, a - lo, data), lo, from)
  {
    forall j | from - lo <= j < |w| ensures Patch(w, a - lo, data)[j] == w[j] { PatchByte(w, a - lo, data, j); }
  }

  /** Only bytes at the addresses from `a` to `b` differ. */
  ghost predicate OnlyBetween(w: seq<byte>, u: seq<byte>, lo: nat, a: nat, b: nat) {
    && |u| == |w|
    && lo <= a <= b <= lo + |w|
    && forall j {:trigger u[j]} :: 0 <= j < |w| && !(a - lo <= j < b - lo) ==> u[j] == w[j]
  }

  lemma PatchBetween(w: seq<byte>, lo: nat, a: nat, data: seq<byte>)
    requires lo <= a && a + |data| <= lo + |w|
    ensures OnlyBetween(w, Patch(w, a - lo, data), lo, a, a + |data|)
  {
    forall j | 0 <= j < |w| && !(a - lo <= j < a + |data| - lo)
      ensures Patch(w, a - lo, data)[j] == w[j]
    {
      PatchByte(w, a - lo, data, j);
    }
  }

  /** A change below a change. */
  lemma BetweenTrans(w: seq<byte>, u: seq<byte>, t: seq<byte>, lo: nat, a: nat, b: nat, c: nat)
    requires OnlyBetween(w, u, lo, a, b) && OnlyBetween(u, t, lo, c, a)
    ensures OnlyBetween(w, t, lo, c, b) && SameFrom(u, t, lo, a)
  {
  }

  lemma {:induction false} WordsKept(w: seq<byte>, u: seq<byte>, lo: nat, a: nat, ws: seq<nat>)
    requires Words(w, lo, a, ws) && SameFrom(w, u, lo, a)
    ensures Words(u, lo, a, ws)
    decreases ws
  {
    if ws != [] {
      SameBytes(w, u, lo, a, a, Le(ws[0], WORD));
      WordsKept(w, u, lo, a + 8, ws[1..]);
    }
  }

  /** A word written just below a run of words extends it. */
  lemma WordPushed(w: seq<byte>, lo: nat, a: nat, ws: seq<nat>, v: nat)
    requires Words(w, lo, a, ws) && lo + 8 <= a <= lo + |w|
    ensures Words(Patch(w, a - 8 - lo, Le(v, WORD)), lo, a - 8, [v] + ws)
  {
    PatchSame(w, lo, a - 8, Le(v, WORD), a);
    PatchAt(w, lo, a - 8, Le(v, WORD));
    WordsKept(w, Patch(w, a - 8 - lo, Le(v, WORD)), lo, a, ws);
    assert ([v] + ws)[1..] == ws;
  }

  // ---------- Strings ----------

  predicate NulFree(s: seq<byte>) {
    forall i :: 0 <= i < |s| ==> s[i] != 0
  }

  /** The bytes of `s` and a NUL lie at `a`. */
  predicate StringAt(w: seq<byte>, lo: nat, a: nat, s: seq<byte>) {
    BytesAt(w, lo, a, s) && BytesAt(w, lo, a + |s|, [0])
  }

  /** What a reader finds at an address is one string only. */
  lemma StringUnique(w: seq<byte>, lo: nat, a: nat, s: seq<byte>, t: seq<byte>)
    requires StringAt(w, lo, a, s) && StringAt(w, lo, a, t) && NulFree(s) && NulFree(t)
    ensures s == t
  {
    assert [0][0] == w[a + |s| - lo + 0] == w[a + |t| - lo + 0];
    FirstZeroAt(w[a - lo..], s);
    FirstZeroAt(w[a - lo..], t);
    forall i | 0 <= i < |s| ensures t[i] == s[i] { assert w[a - lo + i] == s[i]; }
  }

  /** The position of the first zero byte. */
  function FirstZero(z: seq<byte>): nat {
    if z == [] || z[0] == 0 then 0 else 1 + FirstZero(z[1..])
  }

  lemma {:induction false} FirstZeroAt(z: seq<byte>, s: seq<byte>)
    requires |s| < |z| && NulFree(s) && z[|s|] == 0 && forall i :: 0 <= i < |s| ==> z[i] == s[i]
    ensures FirstZero(z) == |s|
  {
    if s != [] {
      assert z[0] == s[0];
      FirstZeroAt(z[1..], s[1..]);
    }
  }

  lemma StringKept(w: seq<byte>, u: seq<byte>, lo: nat, a: nat, b: nat, s: seq<byte>)
    requires StringAt(w, lo, b, s) && SameFrom(w, u, lo, a) && a <= b
    ensures StringAt(u, lo, b, s)
  {
    SameBytes(w, u, lo, a, b, s);
    SameBytes(w, u, lo, a, b + |s|, [0]);
  }

  lemma StringPushed(w: seq<byte>, lo: nat, a: nat, s: seq<byte>)
    requires lo <= a && a + |s| + 1 <= lo + |w|
    ensures var u := Patch(Patch(w, a - lo, s), a - lo + |s|, [0]);
      StringAt(u, lo, a, s) && SameFrom(w, u, lo, a + |s| + 1)
  {
    var t := Patch(w, a - lo, s);
    var u := Patch(t, a - lo + |s|, [0]);
    PatchAt(w, lo, a, s);
    PatchAt(t, lo, a + |s|, [0]);
    forall j | 0 <= j < |w| && j != a - lo + |s| ensures u[j] == t[j] { PatchByte(t, a - lo + |s|, [0], j); }
    PatchSame(w, lo, a, s, a + |s|);
  }

  /** Pointer `i` leads to string `i`, at or above `from`. */
  ghost predicate Strings(w: seq<byte>, lo: nat, from: nat, ptrs: seq<nat>, strs: seq<seq<byte>>) {
    |ptrs| == |strs| && forall i :: 0 <= i < |strs| ==> from <= ptrs[i] && StringAt(w, lo, ptrs[i], strs[i])
  }

  lemma StringsKept(w: seq<byte>, u: seq<byte>, lo: nat, from: nat, next: nat, ptrs: seq<nat>, strs: seq<seq<byte>>)
    requires Strings(w, lo, from, ptrs, strs) && SameFrom(w, u, lo, from) && next <= from
    ensures Strings(u, lo, next, ptrs, strs)
  {
    forall i | 0 <= i < |strs| ensures next <= ptrs[i] && StringAt(u, lo, ptrs[i], strs[i]) {
      StringKept(w, u, lo, from, ptrs[i], strs[i]);
    }
  }

  function StringSpace(strs: seq<seq<byte>>): nat {
    if strs == [] then 0 else StringSpace(strs[..|strs| - 1]) + |strs[|strs| - 1]| + 1
  }

  // ---------- What a program reads ----------

  /** Words `k` and on are pointers to the given strings, and a zero word ends them. */
  ghost predicate PointerList(w: seq<byte>, lo: nat, a: nat, k: nat, strs: seq<seq<byte>>) {
    && (forall i :: 0 <= i < |strs| ==>
          Pointer(w, lo, a, k, i) != 0 && StringAt(w, lo, Pointer(w, lo, a, k, i), strs[i]))
    && Pointer(w, lo, a, k, |strs|) == 0
  }

  function Pointer(w: seq<byte>, lo: nat, a: nat, k: nat, i: int): nat { Word(w, lo, a, k + i) }
  function Tag(w: seq<byte>, lo: nat, a: nat, k: nat, i: int): nat { Word(w, lo, a, k + 2 * i) }
  function Value(w: seq<byte>, lo: nat, a: nat, k: nat, i: int): nat { Word(w, lo, a, k + 2 * i + 1) }

  /** Words `k` and on are the pairs of `aux`, which ends with the first pair whose tag is 0. */
  ghost predicate AuxList(w: seq<byte>, lo: nat, a: nat, k: nat, aux: seq<(nat, nat)>) {
    && (forall i :: 0 <= i < |aux| ==> (aux[i].0, aux[i].1) == (Tag(w, lo, a, k, i), Value(w, lo, a, k, i)))
    && |aux| > 0 && Tag(w, lo, a, k, |aux| - 1) == 0 && (forall i :: 0 <= i < |aux| - 1 ==> Tag(w, lo, a, k, i) != 0)
  }

  /** A program that starts with its stack pointer at `rsp` finds these arguments, environment and auxiliary vector. */
  ghost predicate Decodes(w: seq<byte>, lo: nat, rsp: nat, argv: seq<seq<byte>>, envp: seq<seq<byte>>,
                          aux: seq<(nat, nat)>)
  {
    && Word(w, lo, rsp, 0) == |argv|
    && PointerList(w, lo, rsp, 1, argv)
    && AfterArgs(w, lo, rsp, 2 + |argv|, envp, aux)
  }

  ghost predicate AfterArgs(w: seq<byte>, lo: nat, rsp: nat, k: nat, envp: seq<seq<byte>>, aux: seq<(nat, nat)>) {
    PointerList(w, lo, rsp, k, envp) && AuxList(w, lo, rsp, k + |envp| + 1, aux)
  }

  // ---------- How a program looks up the auxiliary vector ----------

  /** The number of the first zero word from word `k` on; past the window every word reads as zero. */
  function ListEnd(w: seq<byte>, lo: nat, a: nat, k: nat): nat
    decreases lo + |w| - a - 8 * k
  {
    if Word(w, lo, a, k) == 0 then k else ListEnd(w, lo, a, k + 1)
  }

  /** The value of the first pair with the given tag, from word `k` up to a pair with tag 0. */
  function ValueFrom(w: seq<byte>, lo: nat, a: nat, k: nat, tag: nat): Option<nat>
    decreases lo + |w| - a - 8 * k
  {
    var t := Word(w, lo, a, k);
    if t == 0 then None else if t == tag then Some(Word(w, lo, a, k + 1)) else ValueFrom(w, lo, a, k + 2, tag)
  }

  /** What `getauxval` finds: past the count and as many arguments, past the environment, pair by pair. */
  function AuxValue(w: seq<byte>, lo: nat, rsp: nat, tag: nat): Option<nat> {
    var args := 1 + Word(w, lo, rsp, 0) + 1;
    ValueFrom(w, lo, rsp, ListEnd(w, lo, rsp, args) + 1, tag)
  }

  function FirstPair(aux: seq<(nat, nat)>, tag: nat): Option<nat> {
    if aux == [] || aux[0].0 == 0 then None else if aux[0].0 == tag then Some(aux[0].1) else FirstPair(aux[1..], tag)
  }

  lemma {:induction false} ListEndIs(w: seq<byte>, lo: nat, a: nat, k: nat, strs: seq<seq<byte>>, i: nat)
    requires PointerList(w, lo, a, k, strs) && i <= |strs|
    ensures ListEnd(w, lo, a, k + i) == k + |strs|
    decreases |strs| - i
  {
    if i < |strs| {
      assert Pointer(w, lo, a, k, i) != 0;
      ListEndIs(w, lo, a, k, strs, i + 1);
    } else {
      assert Pointer(w, lo, a, k, i) == 0;
    }
  }

  lemma {:induction false} ValueFromIs(w: seq<byte>, lo: nat, a: nat, k: nat, aux: seq<(nat, nat)>, i: nat, tag: nat)
    requires AuxList(w, lo, a, k, aux) && i < |aux|
    ensures ValueFrom(w, lo, a, k + 2 * i, tag) == FirstPair(aux[i..], tag)
    decreases |aux| - i
  {
    assert (aux[i].0, aux[i].1) == (Tag(w, lo, a, k, i), Value(w, lo, a, k, i));
    if i < |aux| - 1 {
      ValueFromIs(w, lo, a, k, aux, i + 1, tag);
      assert aux[i..][1..] == aux[i + 1..];
    }
  }

  /** What the lookup finds is the first such pair of the vector that the stack decodes to. */
  lemma LookupIsFirst(w: seq<byte>, lo: nat, rsp: nat, argv: seq<seq<byte>>, envp: seq<seq<byte>>,
                      aux: seq<(nat, nat)>, tag: nat)
    requires Decodes(w, lo, rsp, argv, envp, aux)
    ensures AuxValue(w, lo, rsp, tag) == FirstPair(aux, tag)
  {
    ListEndIs(w, lo, rsp, 2 + |argv|, envp, 0);
    ValueFromIs(w, lo, rsp, 2 + |argv| + |envp| + 1, aux, 0, tag);
    assert aux[0..] == aux;
  }

  /** Pair `i` is the first with its tag. */
  lemma {:induction false} FirstAt(aux: seq<(nat, nat)>, i: nat)
    requires i < |aux| && forall j :: 0 <= j <= i ==> aux[j].0 != 0
    requires forall j :: 0 <= j < i ==> aux[j].0 != aux[i].0
    ensures FirstPair(aux, aux[i].0) == Some(aux[i].1)
  {
    if i > 0 { FirstAt(aux[1..], i - 1); }
  }

  lemma {:induction false} FirstNone(aux: seq<(nat, nat)>, tag: nat)
    requires forall j :: 0 <= j < |aux| ==> aux[j].0 == 0 || aux[j].0 != tag
    ensures FirstPair(aux, tag) == None
  {
    if aux != [] { FirstNone(aux[1..], tag); }
  }

  ghost predicate AllNulFree(strs: seq<seq<byte>>) {
    forall i :: 0 <= i < |strs| ==> NulFree(strs[i])
  }

  lemma PointerListUnique(w: seq<byte>, lo: nat, a: nat, k: nat, s: seq<seq<byte>>, t: seq<seq<byte>>)
    requires PointerList(w, lo, a, k, s) && PointerList(w, lo, a, k, t) && AllNulFree(s) && AllNulFree(t)
    ensures s == t
  {
    assert |s| == |t|;
    forall i | 0 <= i < |s| ensures s[i] == t[i] { StringUnique(w, lo, Pointer(w, lo, a, k, i), s[i], t[i]); }
  }

  lemma AuxListUnique(w: seq<byte>, lo: nat, a: nat, k: nat, s: seq<(nat, nat)>, t: seq<(nat, nat)>)
    requires AuxList(w, lo, a, k, s) && AuxList(w, lo, a, k, t)
    ensures s == t
  {
    assert |s| == |t|;
  }

  /** The stack reads back in one way only. */
  lemma DecodeUnique(w: seq<byte>, lo: nat, rsp: nat, argv: seq<seq<byte>>, envp: seq<seq<byte>>, aux: seq<(nat, nat)>,
                     argv2: seq<seq<byte>>, envp2: seq<seq<byte>>, aux2: seq<(nat, nat)>)
    requires Decodes(w, lo, rsp, argv, envp, aux) && Decodes(w, lo, rsp, argv2, envp2, aux2)
    requires AllNulFree(argv) && AllNulFree(envp) && AllNulFree(argv2) && AllNulFree(envp2)
    ensures argv == argv2 && envp == envp2 && aux == aux2
  {
    PointerListUnique(w, lo, rsp, 1, argv, argv2);
    AfterArgsUnique(w, lo, rsp, 2 + |argv|, envp, aux, envp2, aux2);
  }

  lemma AfterArgsUnique(w: seq<byte>, lo: nat, rsp: nat, k: nat, envp: seq<seq<byte>>, aux: seq<(nat, nat)>,
                        envp2: seq<seq<byte>>, aux2: seq<(nat, nat)>)
    requires AfterArgs(w, lo, rsp, k, envp, aux) && AfterArgs(w, lo, rsp, k, envp2, aux2) && AllNulFree(envp)
    requires AllNulFree(envp2)
    ensures envp == envp2 && aux == aux2
  {
    PointerListUnique(w, lo, rsp, k, envp, envp2);
    AuxListUnique(w, lo, rsp, k + |envp| + 1, aux, aux2);
  }

  // ---------- The words the builder pushes ----------

  function Flat(aux: seq<(nat, nat)>): (r: seq<nat>)
    ensures |r| == 2 * |aux|
  {
    if aux == [] then [] else [aux[0].0, aux[0].1] + Flat(aux[1..])
  }

  lemma {:induction false} FlatAt(aux: seq<(nat, nat)>, i: nat)
    requires i < |aux|
    ensures Flat(aux)[2 * i] == aux[i].0 && Flat(aux)[2 * i + 1] == aux[i].1
  {
    if i > 0 { FlatAt(aux[1..], i - 1); }
  }

  /** Everything from the stack pointer up to the strings. */
  function StackWords(argvPtrs: seq<nat>, envpPtrs: seq<nat>, aux: seq<(nat, nat)>): seq<nat> {
    [|argvPtrs|] + (argvPtrs + ([0] + (envpPtrs + ([0] + Flat(aux)))))
  }

  ghost predicate AllWords(ws: seq<nat>) {
    forall i :: 0 <= i < |ws| ==> IsWord(ws[i])
  }

  /** `part` lies in `ws` from index `k` on. */
  predicate PartAt(ws: seq<nat>, k: nat, part: seq<nat>) {
    k + |part| <= |ws| && forall i :: 0 <= i < |part| ==> ws[k + i] == part[i]
  }

  lemma PointersRead(w: seq<byte>, lo: nat, a: nat, ws: seq<nat>, k: nat, ptrs: seq<nat>, from: nat,
                     strs: seq<seq<byte>>)
    requires Words(w, lo, a, ws) && AllWords(ws) && PartAt(ws, k, ptrs) && PartAt(ws, k + |ptrs|, [0])
    requires Strings(w, lo, from, ptrs, strs) && from > 0
    ensures PointerList(w, lo, a, k, strs)
  {
    forall i | 0 <= i < |strs|
      ensures Pointer(w, lo, a, k, i) != 0 && StringAt(w, lo, Pointer(w, lo, a, k, i), strs[i])
    {
      WordsRead(w, lo, a, ws, k + i);
      assert ws[k + i] == ptrs[i];
    }
    WordsRead(w, lo, a, ws, k + |ptrs|);
    assert ws[k + |ptrs| + 0] == [0][0];
  }

  /** The vector ends with its only pair whose tag is 0. */
  ghost predicate NullEnded(aux: seq<(nat, nat)>) {
    |aux| > 0 && aux[|aux| - 1].0 == 0 && forall i :: 0 <= i < |aux| - 1 ==> aux[i].0 != 0
  }

  lemma AuxRead(w: seq<byte>, lo: nat, a: nat, ws: seq<nat>, k: nat, aux: seq<(nat, nat)>)
    requires Words(w, lo, a, ws) && AllWords(ws) && PartAt(ws, k, Flat(aux)) && NullEnded(aux)
    ensures AuxList(w, lo, a, k, aux)
  {
    forall i | 0 <= i < |aux| ensures aux[i].0 == Tag(w, lo, a, k, i) && aux[i].1 == Value(w, lo, a, k, i) {
      FlatAt(aux, i);
      assert ws[k + 2 * i] == Flat(aux)[2 * i] && ws[k + (2 * i + 1)] == Flat(aux)[2 * i + 1];
      WordsRead(w, lo, a, ws, k + 2 * i);
      WordsRead(w, lo, a, ws, k + 2 * i + 1);
    }
  }

  /** Words laid out this way decode to the strings their pointers lead to. */
  lemma StackDecodes(w: seq<byte>, lo: nat, rsp: nat, from: nat, argvPtrs: seq<nat>, envpPtrs: seq<nat>,
                     argv: seq<seq<byte>>, envp: seq<seq<byte>>, aux: seq<(nat, nat)>)
    requires Words(w, lo, rsp, StackWords(argvPtrs, envpPtrs, aux)) && AllWords(StackWords(argvPtrs, envpPtrs, aux))
    requires from > 0
    requires Strings(w, lo, from, argvPtrs, argv) && Strings(w, lo, from, envpPtrs, envp) && NullEnded(aux)
    ensures Decodes(w, lo, rsp, argv, envp, aux)
  {
    var ws := StackWords(argvPtrs, envpPtrs, aux);
    var n := |argv|;
    StackWordsParts(argvPtrs, envpPtrs, aux);
    PointersRead(w, lo, rsp, ws, 1, argvPtrs, from, argv);
    AfterArgsRead(w, lo, rsp, ws, 2 + n, envpPtrs, from, envp, aux);
    WordsRead(w, lo, rsp, ws, 0);
  }

  lemma AfterArgsRead(w: seq<byte>, lo: nat, a: nat, ws: seq<nat>, k: nat, ptrs: seq<nat>, from: nat,
                      envp: seq<seq<byte>>, aux: seq<(nat, nat)>)
    requires Words(w, lo, a, ws) && AllWords(ws) && PartAt(ws, k, ptrs) && PartAt(ws, k + |ptrs|, [0])
    requires PartAt(ws, k + |ptrs| + 1, Flat(aux))
    requires Strings(w, lo, from, ptrs, envp) && from > 0 && NullEnded(aux)
    ensures AfterArgs(w, lo, a, k, envp, aux)
  {
    PointersRead(w, lo, a, ws, k, ptrs, from, envp);
    AuxRead(w, lo, a, ws, k + |ptrs| + 1, aux);
  }

  lemma StackWordsParts(argvPtrs: seq<nat>, envpPtrs: seq<nat>, aux: seq<(nat, nat)>)
    ensures var ws, n, k := StackWords(argvPtrs, envpPtrs, aux), |argvPtrs|, |envpPtrs|;
      && |ws| == 3 + n + k + 2 * |aux| && ws[0] == n && PartAt(ws, 1, argvPtrs) && PartAt(ws, 1 + n, [0])
      && PartAt(ws, 2 + n, envpPtrs) && PartAt(ws, 2 + n + k, [0]) && PartAt(ws, 3 + n + k, Flat(aux))
  {
  }
}
