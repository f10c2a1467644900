/** Pipes and descriptor tables: the two end counters of a pipe count the descriptors that hold its ends. */
module Pipes {
  import Bits
  import opened PhysMem
  import opened BuddyAllocator

  const FD_MAX: nat := 16

  /** The buffer and end counters that all descriptors of a pipe share. */
  class Pipe {
    var buf: seq<byte>
    var writeEnds: nat
    var readEnds: nat
    ghost var written: seq<byte>
    ghost var read: seq<byte>

    constructor ()
      ensures buf == [] && writeEnds == 1 && readEnds == 1 && written == [] && read == []
    {
      buf, writeEnds, readEnds := [], 1, 1;
      written, read := [], [];
    }
  }

  /** An open file: only pipes carry shared counters. */
  datatype OpenFile = OpenFile(readable: bool, writable: bool, pipe: Option<Pipe>)

  /** The descriptors of one process. */
  type Table = seq<Option<OpenFile>>

  // ---------- Counting ends ----------

  /** 1 if the descriptor holds the write end (or the read end) of `p`, and 0 otherwise. */
  function End(f: Option<OpenFile>, p: Pipe, w: bool): nat {
    if f.Some? && f.value.pipe == Some(p) && (if w then f.value.writable else f.value.readable) then 1 else 0
  }

  ghost function EndsIn(t: Table, p: Pipe, w: bool): nat {
    if t == [] then 0 else End(t[0], p, w) + EndsIn(t[1..], p, w)
  }

  ghost function EndsOf(ts: seq<Table>, p: Pipe, w: bool): nat {
    if ts == [] then 0 else EndsIn(ts[0], p, w) + EndsOf(ts[1..], p, w)
  }

  lemma {:induction false} SetSlot(t: Table, j: nat, x: Option<OpenFile>, p: Pipe, w: bool)
    requires j < |t|
    ensures EndsIn(t[j := x], p, w) == EndsIn(t, p, w) - End(t[j], p, w) + End(x, p, w)
  {
    if j == 0 {
      assert t[0 := x][1..] == t[1..];
    } else {
      assert t[j := x][1..] == t[1..][j - 1 := x];
      SetSlot(t[1..], j - 1, x, p, w);
    }
  }

  lemma {:induction false} SetTable(ts: seq<Table>, i: nat, t: Table, p: Pipe, w: bool)
    requires i < |ts|
    ensures EndsOf(ts[i := t], p, w) == EndsOf(ts, p, w) - EndsIn(ts[i], p, w) + EndsIn(t, p, w)
  {
    if i == 0 {
      assert ts[0 := t][1..] == ts[1..];
    } else {
      assert ts[i := t][1..] == ts[1..][i - 1 := t];
      SetTable(ts[1..], i - 1, t, p, w);
    }
  }

  lemma {:induction false} AddTable(ts: seq<Table>, t: Table, p: Pipe, w: bool)
    ensures EndsOf(ts + [t], p, w) == EndsOf(ts, p, w) + EndsIn(t, p, w)
  {
    if ts == [] {
      assert ts + [t] == [t];
    } else {
      assert (ts + [t])[1..] == ts[1..] + [t];
      AddTable(ts[1..], t, p, w);
    }
  }

  lemma {:induction false} NoPipes(t: Table, p: Pipe, w: bool)
    requires forall j :: 0 <= j < |t| && t[j].Some? ==> t[j].value.pipe.None?
    ensures EndsIn(t, p, w) == 0
  {
    if t != [] { NoPipes(t[1..], p, w); }
  }

  /** Descriptor `j` of table `i` holds this end of `p`. */
  predicate HoldsEnd(ts: seq<Table>, i: int, j: int, p: Pipe, w: bool) {
    0 <= i < |ts| && 0 <= j < |ts[i]| && End(ts[i][j], p, w) == 1
  }

  lemma {:induction false} SlotCounted(t: Table, j: nat, p: Pipe, w: bool)
    requires j < |t|
    ensures End(t[j], p, w) <= EndsIn(t, p, w)
  {
    if j > 0 { SlotCounted(t[1..], j - 1, p, w); }
  }

  lemma {:induction false} TableCounted(ts: seq<Table>, i: nat, p: Pipe, w: bool)
    requires i < |ts|
    ensures EndsIn(ts[i], p, w) <= EndsOf(ts, p, w)
  {
    if i > 0 { TableCounted(ts[1..], i - 1, p, w); }
  }

  lemma {:induction false} SomeSlot(t: Table, p: Pipe, w: bool) returns (j: nat)
    requires EndsIn(t, p, w) > 0
    ensures j < |t| && End(t[j], p, w) == 1
  {
    if End(t[0], p, w) == 1 {
      j := 0;
    } else {
      j := SomeSlot(t[1..], p, w);
      j := j + 1;
    }
  }

  lemma {:induction false} SomeTable(ts: seq<Table>, p: Pipe, w: bool) returns (i: nat)
    requires EndsOf(ts, p, w) > 0
    ensures i < |ts| && EndsIn(ts[i], p, w) > 0
  {
    if EndsIn(ts[0], p, w) > 0 {
      i := 0;
    } else {
      i := SomeTable(ts[1..], p, w);
      i := i + 1;
    }
  }

  /** The count is zero exactly when no descriptor holds the end. */
  lemma NoEnds(ts: seq<Table>, p: Pipe, w: bool)
    ensures EndsOf(ts, p, w) == 0 <==> forall i, j :: !HoldsEnd(ts, i, j, p, w)
  {
    if EndsOf(ts, p, w) > 0 {
      var i := SomeTable(ts, p, w);
      var j := SomeSlot(ts[i], p, w);
      assert HoldsEnd(ts, i, j, p, w);
    } else {
      forall i, j ensures !HoldsEnd(ts, i, j, p, w) {
        if HoldsEnd(ts, i, j, p, w) {
          SlotCounted(ts[i], j, p, w);
          TableCounted(ts, i, p, w);
        }
      }
    }
  }

  /** Putting `x` into descriptor `j` of table `i`. */
  function Place(ts: seq<Table>, i: nat, j: nat, x: Option<OpenFile>): seq<Table>
    requires i < |ts| && j < |ts[i]|
  {
    ts[i := ts[i][j := x]]
  }

  lemma PlaceTwice(ts: seq<Table>, i: nat, j: nat, x: Option<OpenFile>, y: Option<OpenFile>)
    requires i < |ts| && j < |ts[i]|
    ensures Place(Place(ts, i, j, x), i, j, y) == Place(ts, i, j, y)
    ensures Place(ts, i, j, ts[i][j]) == ts
  {
    assert ts[i][j := x][j := y] == ts[i][j := y];
    assert ts[i][j := ts[i][j]] == ts[i];
  }

  /** The two lowest descriptors that were not open, `rfd` and `wfd`, hold the read end and the write end of `p`. */
  ghost predicate PipeOpened(ts: seq<Table>, i: nat, rfd: nat, wfd: nat, p: Pipe, next: seq<Table>) {
    && i < |ts| && LowestFree(ts[i], 0, rfd) && LowestFree(ts[i], rfd + 1, wfd)
    && var mid := Place(ts, i, rfd, Some(OpenFile(true, false, Some(p))));
       next == Place(mid, i, wfd, Some(OpenFile(false, true, Some(p))))
  }

  lemma PlaceCounts(ts: seq<Table>, i: nat, j: nat, x: Option<OpenFile>, p: Pipe, w: bool)
    requires i < |ts| && j < |ts[i]|
    ensures EndsOf(Place(ts, i, j, x), p, w) == EndsOf(ts, p, w) - End(ts[i][j], p, w) + End(x, p, w)
  {
    SetSlot(ts[i], j, x, p, w);
    SetTable(ts, i, ts[i][j := x], p, w);
  }

  function SaturatingDec(n: nat): nat {
    if n > 0 then n - 1 else 0
  }

  lemma {:induction false} TakeSlot(t: Table, k: nat, p: Pipe, w: bool)
    requires k < |t|
    ensures EndsIn(t[..k + 1], p, w) == EndsIn(t[..k], p, w) + End(t[k], p, w)
  {
    if k == 0 {
      assert t[..1] == [t[0]];
    } else {
      assert t[..k + 1][1..] == t[1..][..k] && t[..k][1..] == t[1..][..k - 1];
      TakeSlot(t[1..], k - 1, p, w);
    }
  }

  // ---------- Free descriptors ----------

  /** `fd` is the lowest descriptor from `minfd` on that is not open. */
  predicate LowestFree(t: Table, minfd: nat, fd: nat) {
    minfd <= fd < |t| && t[fd].None? && forall j :: minfd <= j < fd ==> t[j].Some?
  }

  predicate FreeFrom(t: Table, minfd: nat) {
    exists j :: minfd <= j < |t| && t[j].None?
  }

  /** Two descriptors are not open. */
  predicate TwoFree(t: Table) {
    exists j, k :: 0 <= j < k < |t| && t[j].None? && t[k].None?
  }

  predicate IsOpen(t: Table, fd: nat) {
    fd < |t| && t[fd].Some?
  }

  /** Once the lowest free descriptor is taken, the next lowest is the second free one. */
  lemma SecondFree(t: Table, rfd: nat, x: Option<OpenFile>)
    requires LowestFree(t, 0, rfd) && x.Some?
    ensures FreeFrom(t[rfd := x], 0) <==> TwoFree(t)
    ensures var u := t[rfd := x]; forall wfd: nat :: LowestFree(u, 0, wfd) ==> LowestFree(t, rfd + 1, wfd)
  {
    var u := t[rfd := x];
    if j, k :| 0 <= j < k < |t| && t[j].None? && t[k].None? { assert u[k].None?; }
    if k :| 0 <= k < |u| && u[k].None? { assert rfd < k && t[k].None?; }
    forall wfd: nat | LowestFree(u, 0, wfd) ensures LowestFree(t, rfd + 1, wfd) {
      assert forall j :: rfd < j < wfd ==> u[j] == t[j];
    }
  }

  // ---------- The system of tables and pipes ----------

  ghost predicate WellFormed(ts: seq<Table>, pipes: set<Pipe>) {
    forall i, j :: 0 <= i < |ts| && 0 <= j < |ts[i]| && ts[i][j].Some? && ts[i][j].value.pipe.Some? ==>
      ts[i][j].value.pipe.value in pipes
  }

  /** The counters of every pipe count the descriptors that hold its ends. */
  ghost predicate Counted(ts: seq<Table>, pipes: set<Pipe>)
    reads pipes
  {
    forall p :: p in pipes ==> p.writeEnds == EndsOf(ts, p, true) && p.readEnds == EndsOf(ts, p, false)
  }

  /** What has been read, followed by what is buffered, is what has been written. */
  ghost predicate Conserved(pipes: set<Pipe>)
    reads pipes
  {
    forall p :: p in pipes ==> p.read + p.buf == p.written
  }

  datatype ReadResult = Data(bytes: seq<byte>) | Eof | Block
  datatype WriteResult = Written(n: nat) | BrokenPipe

  /** What a read or write call finds at a descriptor: nothing asked for, no such open file, no pipe, or a pipe. */
  datatype Access = Nothing | Bad | Other | Ends(pipe: Pipe)

  function Accesses(t: Table, fd: nat, n: nat, w: bool): Access {
    if n == 0 then Nothing
    else if !IsOpen(t, fd) || !(if w then t[fd].value.writable else t[fd].value.readable) then Bad
    else if t[fd].value.pipe.None? then Other
    else Ends(t[fd].value.pipe.value)
  }

  /** Of the two descriptors of a new pipe, one only reads it and the other only writes it. */
  lemma NewPipeEnds(ts: seq<Table>, i: nat, rfd: nat, wfd: nat, p: Pipe, next: seq<Table>, n: nat)
    requires PipeOpened(ts, i, rfd, wfd, p, next) && n > 0
    ensures i < |next|
    ensures Accesses(next[i], rfd, n, false) == Ends(p) && Accesses(next[i], rfd, n, true) == Bad
    ensures Accesses(next[i], wfd, n, true) == Ends(p) && Accesses(next[i], wfd, n, false) == Bad
  {
    assert next[i][rfd] == Some(OpenFile(true, false, Some(p)));
    assert next[i][wfd] == Some(OpenFile(false, true, Some(p)));
  }

  class Descriptors {
    var tables: seq<Table>
    ghost var pipes: set<Pipe>

    ghost predicate Valid()
      reads this, pipes
    {
      && (forall i :: 0 <= i < |tables| ==> |tables[i]| == FD_MAX)
      && WellFormed(tables, pipes) && Counted(tables, pipes) && Conserved(pipes)
    }

    constructor ()
      ensures Valid() && tables == [] && pipes == {}
    {
      tables := [];
      pipes := {};
    }

    /** The pipes' contents are as before. */
    twostate predicate SameContents()
      reads this, pipes
    {
      forall p :: p in old(pipes) && p in pipes ==>
        p.buf == old(p.buf) && p.written == old(p.written) && p.read == old(p.read)
    }

    /** Counts the ends of a descriptor up. */
    method CountUp(f: OpenFile)
      requires f.pipe.Some? ==> f.pipe.value in pipes
      modifies if f.pipe.Some? then {f.pipe.value} else {}
      ensures forall p :: p in pipes ==> p.writeEnds == old(p.writeEnds) + End(Some(f), p, true)
      ensures forall p :: p in pipes ==> p.readEnds == old(p.readEnds) + End(Some(f), p, false)
      ensures SameContents()
    {
      if f.pipe.Some? {
        var inner := f.pipe.value;
        if f.writable { inner.writeEnds := inner.writeEnds + 1; }
        if f.readable { inner.readEnds := inner.readEnds + 1; }
      }
    }

    /** Counts the ends of a descriptor down; the counters never run below zero. */
    method CountDown(f: OpenFile)
      requires f.pipe.Some? ==> f.pipe.value in pipes
      requires forall p :: p in pipes ==> End(Some(f), p, true) <= p.writeEnds && End(Some(f), p, false) <= p.readEnds
      modifies if f.pipe.Some? then {f.pipe.value} else {}
      ensures forall p :: p in pipes ==> p.writeEnds == old(p.writeEnds) - End(Some(f), p, true)
      ensures forall p :: p in pipes ==> p.readEnds == old(p.readEnds) - End(Some(f), p, false)
      ensures SameContents()
    {
      if f.pipe.Some? {
        var inner := f.pipe.value;
        if f.writable { inner.writeEnds := SaturatingDec(inner.writeEnds); }
        if f.readable { inner.readEnds := SaturatingDec(inner.readEnds); }
      }
    }

    /** Closes a descriptor; false if it was not open. */
    method Close(i: nat, fd: nat) returns (ok: bool)
      requires Valid() && i < |tables|
      modifies this`tables, pipes
      ensures Valid() && SameContents()
      ensures ok <==> fd < FD_MAX && old(tables)[i][fd].Some?
      ensures tables == if ok then Place(old(tables), i, fd, None) else old(tables)
    {
      if fd >= FD_MAX || tables[i][fd].None? { return false; }
      var entry := tables[i][fd].value;
      forall p | p in pipes
        ensures End(Some(entry), p, true) <= p.writeEnds && End(Some(entry), p, false) <= p.readEnds
      {
        SlotCounted(tables[i], fd, p, true);
        TableCounted(tables, i, p, true);
        SlotCounted(tables[i], fd, p, false);
        TableCounted(tables, i, p, false);
      }
      forall p: Pipe, w: bool | p in pipes
        ensures EndsOf(Place(tables, i, fd, None), p, w) == EndsOf(tables, p, w) - End(Some(entry), p, w)
      {
        PlaceCounts(tables, i, fd, None, p, w);
      }
      CountDown(entry);
      tables := Place(tables, i, fd, None);
      return true;
    }

    /** Gives a first process its table: three descriptors for the serial line. */
    method NewStdio() returns (c: nat)
      requires Valid()
      modifies this`tables
      ensures Valid() && c == |old(tables)| && |tables| == c + 1 && tables[..c] == old(tables)
      ensures forall j :: 0 <= j < FD_MAX ==> tables[c][j] == if j < 3 then Some(OpenFile(true, true, None)) else None
    {
      var serial := Some(OpenFile(true, true, None));
      var t := seq(FD_MAX, j => if j < 3 then serial else None);
      forall p: Pipe, w: bool | p in pipes ensures EndsOf(tables + [t], p, w) == EndsOf(tables, p, w) {
        AddTable(tables, t, p, w);
        NoPipes(t, p, w);
      }
      c := |tables|;
      tables := tables + [t];
    }

    /** The lowest descriptor from `minfd` on that is not open. */
    method FirstFree(i: nat, minfd: nat) returns (r: Option<nat>)
      requires i < |tables|
      ensures r.Some? <==> FreeFrom(tables[i], minfd)
      ensures r.Some? ==> LowestFree(tables[i], minfd, r.value)
    {
      var j := minfd;
      while j < |tables[i]|
        invariant minfd <= j && forall k :: minfd <= k < j && k < |tables[i]| ==> tables[i][k].Some?
      {
        if tables[i][j].None? { return Some(j); }
        j := j + 1;
      }
      return None;
    }

    /** Opens `f` at descriptor `fd`, which is not open. */
    method Put(i: nat, fd: nat, f: OpenFile)
      requires Valid() && i < |tables| && fd < FD_MAX && tables[i][fd].None?
      requires f.pipe.Some? ==> f.pipe.value in pipes
      modifies this`tables, pipes
      ensures Valid() && SameContents() && tables == Place(old(tables), i, fd, Some(f))
    {
      forall p: Pipe, w: bool | p in pipes
        ensures EndsOf(Place(tables, i, fd, Some(f)), p, w) == EndsOf(tables, p, w) + End(Some(f), p, w)
      {
        PlaceCounts(tables, i, fd, Some(f), p, w);
      }
      CountUp(f);
      tables := Place(tables, i, fd, Some(f));
    }

    /** Opens another descriptor for the file of `fd`, the lowest one that is free. */
    method Dup(i: nat, fd: nat) returns (r: Option<nat>)
      requires Valid() && i < |tables|
      modifies this`tables, pipes
      ensures Valid() && SameContents()
      ensures r.Some? <==> old(IsOpen(tables[i], fd) && FreeFrom(tables[i], 0))
      ensures r.Some? ==>
        LowestFree(old(tables)[i], 0, r.value) && tables == Place(old(tables), i, r.value, old(tables)[i][fd])
      ensures r.None? ==> tables == old(tables)
    {
      if fd >= FD_MAX || tables[i][fd].None? { return None; }
      var entry := tables[i][fd].value;
      r := FirstFree(i, 0);
      if r.Some? { Put(i, r.value, entry); }
    }

    /** Makes `newfd` a descriptor for the file of `fd`, closing it first if it is open. */
    method Dup2(i: nat, fd: nat, newfd: nat) returns (ok: bool)
      requires Valid() && i < |tables|
      modifies this`tables, pipes
      ensures Valid() && SameContents()
      ensures ok <==> fd < FD_MAX && newfd < FD_MAX && old(tables)[i][fd].Some?
      ensures tables == if ok then Place(old(tables), i, newfd, old(tables)[i][fd]) else old(tables)
    {
      if newfd >= FD_MAX || fd >= FD_MAX || tables[i][fd].None? { return false; }
      var entry := tables[i][fd].value;
      if fd == newfd {
        PlaceTwice(tables, i, newfd, None, tables[i][fd]);
        return true;
      }
      var closed := Close(i, newfd);
      PlaceTwice(old(tables), i, newfd, None, old(tables)[i][fd]);
      Put(i, newfd, entry);
      return true;
    }

    /** Gives a forked child a copy of the table, counting every end in it once more. */
    method ForkClone(i: nat) returns (c: nat)
      requires Valid() && i < |tables|
      modifies this`tables, pipes
      ensures Valid() && SameContents()
      ensures c == |old(tables)| && tables == old(tables) + [old(tables)[i]]
    {
      var t := tables[i];
      for k := 0 to |t|
        invariant tables == old(tables) && SameContents() && Conserved(pipes)
        invariant forall p: Pipe :: p in pipes ==> p.writeEnds == EndsOf(tables, p, true) + EndsIn(t[..k], p, true)
        invariant forall p: Pipe :: p in pipes ==> p.readEnds == EndsOf(tables, p, false) + EndsIn(t[..k], p, false)
      {
        forall p: Pipe, w: bool | p in pipes
          ensures EndsIn(t[..k + 1], p, w) == EndsIn(t[..k], p, w) + End(t[k], p, w)
        {
          TakeSlot(t, k, p, w);
        }
        if t[k].Some? { CountUp(t[k].value); }
      }
      assert t[..|t|] == t;
      forall p: Pipe, w: bool | p in pipes
        ensures EndsOf(tables + [t], p, w) == EndsOf(tables, p, w) + EndsIn(t, p, w)
      {
        AddTable(tables, t, p, w);
      }
      c := |tables|;
      tables := tables + [t];
    }

    /** What every death of a process does: closes all its descriptors. */
    method CloseAll(i: nat)
      requires Valid() && i < |tables|
      modifies this`tables, pipes
      ensures Valid() && SameContents()
      ensures |tables| == |old(tables)| && tables == old(tables)[i := tables[i]]
      ensures forall j :: 0 <= j < FD_MAX ==> tables[i][j].None?
    {
      for fd := 0 to FD_MAX
        invariant Valid() && SameContents() && |tables| == |old(tables)| && tables == old(tables)[i := tables[i]]
        invariant forall j :: 0 <= j < fd ==> tables[i][j].None?
      {
        var closed := Close(i, fd);
      }
    }

    /** Opens both ends of a new pipe, at the two lowest free descriptors. */
    method MakePipe(i: nat) returns (r: Option<(nat, nat)>, ghost p: Pipe)
      requires Valid() && i < |tables|
      modifies this
      ensures Valid() && SameContents() && fresh(p) && (r.Some? <==> old(TwoFree(tables[i])))
      ensures r.None? ==> tables == old(tables) && pipes == old(pipes)
      ensures r.Some? ==> pipes == old(pipes) + {p} && p.buf == p.read == p.written == []
      ensures r.Some? ==> PipeOpened(old(tables), i, r.value.0, r.value.1, p, tables)
    {
      var inner := new Pipe();
      p := inner;
      r := OpenEnds(i, inner);
      if r.Some? {
        NewPipeCounted(old(tables), i, r.value.0, r.value.1, inner, pipes, tables);
        pipes := pipes + {inner};
      }
    }

    /** Opens the two ends of `inner`, or neither; on failure the pipe is dropped, so its counters no longer matter. */
    method OpenEnds(i: nat, inner: Pipe) returns (r: Option<(nat, nat)>)
      requires i < |tables|
      modifies this`tables, inner`readEnds
      ensures r.Some? <==> old(TwoFree(tables[i]))
      ensures r.None? ==> tables == old(tables)
      ensures r.Some? ==>
        PipeOpened(old(tables), i, r.value.0, r.value.1, inner, tables) && inner.readEnds == old(inner.readEnds)
    {
      var rfd := FirstFree(i, 0);
      if rfd.None? { return None; }
      SecondFree(tables[i], rfd.value, Some(OpenFile(true, false, Some(inner))));
      tables := Place(tables, i, rfd.value, Some(OpenFile(true, false, Some(inner))));
      var wfd := FirstFree(i, 0);
      if wfd.None? {
        PlaceTwice(old(tables), i, rfd.value, Some(OpenFile(true, false, Some(inner))), None);
        tables := Place(tables, i, rfd.value, None);
        inner.readEnds := SaturatingDec(inner.readEnds);
        return None;
      }
      tables := Place(tables, i, wfd.value, Some(OpenFile(false, true, Some(inner))));
      return Some((rfd.value, wfd.value));
    }

    /** Reads up to `count` buffered bytes, or finds the pipe at its end, or has to wait. */
    method PipeRead(p: Pipe, count: nat) returns (r: ReadResult)
      requires Valid() && p in pipes
      modifies p`buf, p`read
      ensures Valid()
      ensures r.Data? <==> old(p.buf) != []
      ensures r.Data? ==> |r.bytes| == (if count < |old(p.buf)| then count else |old(p.buf)|)
      ensures r.Data? ==> r.bytes + p.buf == old(p.buf) && p.read == old(p.read) + r.bytes
      ensures !r.Data? ==> p.buf == old(p.buf) && p.read == old(p.read)
      ensures r.Eof? <==> old(p.buf) == [] && forall i, j :: !HoldsEnd(tables, i, j, p, true)
    {
      NoEnds(tables, p, true);
      if p.buf != [] {
        var n := if |p.buf| < count then |p.buf| else count;
        var bytes := [];
        while |bytes| < n
          invariant |bytes| <= n && |p.buf| == |old(p.buf)| - |bytes| && bytes + p.buf == old(p.buf)
          invariant p.read == old(p.read) + bytes
        {
          bytes := bytes + [p.buf[0]];
          p.read := p.read + [p.buf[0]];
          p.buf := p.buf[1..];
        }
        return Data(bytes);
      }
      if p.writeEnds == 0 { return Eof; }
      return Block;
    }

    /** Appends `data` to the pipe, or finds that nobody can read it. */
    method PipeWrite(p: Pipe, data: seq<byte>) returns (r: WriteResult)
      requires Valid() && p in pipes
      modifies p`buf, p`written
      ensures Valid()
      ensures r.BrokenPipe? <==> forall i, j :: !HoldsEnd(tables, i, j, p, false)
      ensures r.Written? ==> r.n == |data| && p.buf == old(p.buf) + data && p.written == old(p.written) + data
      ensures r.BrokenPipe? ==> p.buf == old(p.buf) && p.written == old(p.written)
    {
      NoEnds(tables, p, false);
      if p.readEnds == 0 { return BrokenPipe; }
      for k := 0 to |data|
        invariant p.buf == old(p.buf) + data[..k] && p.written == old(p.written) + data[..k]
        invariant p.readEnds == old(p.readEnds) && p.writeEnds == old(p.writeEnds)
      {
        assert data[..k + 1] == data[..k] + [data[k]];
        p.buf := p.buf + [data[k]];
        p.written := p.written + [data[k]];
      }
      assert data[..|data|] == data;
      return Written(|data|);
    }

    /** The read call on descriptor `fd` of process `i`; `r` is what a pipe gives. */
    method ReadFd(i: nat, fd: nat, count: nat) returns (a: Access, r: ReadResult)
      requires Valid() && i < |tables|
      modifies pipes
      ensures Valid() && a == Accesses(tables[i], fd, count, false)
      ensures !a.Ends? ==> unchanged(pipes)
      ensures a.Ends? ==> a.pipe in pipes && (r.Data? <==> old(a.pipe.buf) != [])
      ensures a.Ends? ==> (r.Eof? <==> old(a.pipe.buf) == [] && forall k, j :: !HoldsEnd(tables, k, j, a.pipe, true))
      ensures a.Ends? && r.Data? ==>
        r.bytes + a.pipe.buf == old(a.pipe.buf) && |r.bytes| == Bits.Min(count, |old(a.pipe.buf)|)
      ensures a.Ends? && !r.Data? ==> a.pipe.buf == old(a.pipe.buf)
      ensures forall p :: p in pipes && a != Ends(p) ==> p.buf == old(p.buf)
    {
      r := Block;
      if count == 0 { return Nothing, r; }
      if fd >= FD_MAX || tables[i][fd].None? || !tables[i][fd].value.readable { return Bad, r; }
      if tables[i][fd].value.pipe.None? { return Other, r; }
      a := Ends(tables[i][fd].value.pipe.value);
      r := PipeRead(a.pipe, count);
    }

    /** The write call on descriptor `fd` of process `i`; `r` is what a pipe answers. */
    method WriteFd(i: nat, fd: nat, data: seq<byte>) returns (a: Access, r: WriteResult)
      requires Valid() && i < |tables|
      modifies pipes
      ensures Valid() && a == Accesses(tables[i], fd, |data|, true)
      ensures !a.Ends? ==> unchanged(pipes)
      ensures a.Ends? ==> a.pipe in pipes && (r.BrokenPipe? <==> forall k, j :: !HoldsEnd(tables, k, j, a.pipe, false))
      ensures a.Ends? ==> a.pipe.buf == if r.BrokenPipe? then old(a.pipe.buf) else old(a.pipe.buf) + data
      ensures a.Ends? && r.Written? ==> r.n == |data|
      ensures forall p :: p in pipes && a != Ends(p) ==> p.buf == old(p.buf)
    {
      r := BrokenPipe;
      if data == [] { return Nothing, r; }
      if fd >= FD_MAX || tables[i][fd].None? || !tables[i][fd].value.writable { return Bad, r; }
      if tables[i][fd].value.pipe.None? { return Other, r; }
      a := Ends(tables[i][fd].value.pipe.value);
      r := PipeWrite(a.pipe, data);
    }

    /** `F_DUPFD`: opens the file of `fd` at the lowest free descriptor from `minfd` on, and counts nothing. */
    method AllocFrom(i: nat, fd: nat, minfd: nat) returns (r: Option<nat>)
      requires Valid() && i < |tables|
      modifies this`tables
      ensures r.Some? <==> old(IsOpen(tables[i], fd) && FreeFrom(tables[i], minfd))
      ensures r.Some? ==>
        LowestFree(old(tables)[i], minfd, r.value) && tables == Place(old(tables), i, r.value, old(tables)[i][fd])
      ensures r.None? ==> tables == old(tables)
      ensures r.Some? && IsEnd(old(tables)[i][fd].value) ==> !Counted(tables, pipes)
      ensures !(r.Some? && IsEnd(old(tables)[i][fd].value)) ==> Valid()
    {
      if fd >= FD_MAX || tables[i][fd].None? { return None; }
      var entry := tables[i][fd];
      r := FirstFree(i, minfd);
      if r.Some? {
        DupFdCounts(tables, i, r.value, entry.value, pipes);
        tables := Place(tables, i, r.value, entry);
      }
    }
  }

  /** The file is an end of a pipe. */
  predicate IsEnd(f: OpenFile) {
    f.pipe.Some? && (f.readable || f.writable)
  }

  /** An end that is opened once more without being counted puts the counters wrong; any other file does not. */
  lemma DupFdCounts(ts: seq<Table>, i: nat, j: nat, f: OpenFile, pipes: set<Pipe>)
    requires i < |ts| && j < |ts[i]| && ts[i][j].None? && Counted(ts, pipes) && (f.pipe.Some? ==> f.pipe.value in pipes)
    ensures Counted(Place(ts, i, j, Some(f)), pipes) <==> !IsEnd(f)
  {
    forall p: Pipe, w: bool | p in pipes
      ensures EndsOf(Place(ts, i, j, Some(f)), p, w) == EndsOf(ts, p, w) + End(Some(f), p, w)
    {
      PlaceCounts(ts, i, j, Some(f), p, w);
    }
    if IsEnd(f) {
      var p := f.pipe.value;
      assert End(Some(f), p, true) == 1 || End(Some(f), p, false) == 1;
      assert EndsOf(Place(ts, i, j, Some(f)), p, true) == EndsOf(ts, p, true) + End(Some(f), p, true);
      assert EndsOf(Place(ts, i, j, Some(f)), p, false) == EndsOf(ts, p, false) + End(Some(f), p, false);
    }
  }

  /** A pipe that no descriptor held has one of each end after both are opened, and no other count changes. */
  lemma NewPipeCounted(ts: seq<Table>, i: nat, rfd: nat, wfd: nat, p: Pipe, pipes: set<Pipe>, next: seq<Table>)
    requires WellFormed(ts, pipes) && p !in pipes && PipeOpened(ts, i, rfd, wfd, p, next)
    ensures EndsOf(next, p, true) == 1 && EndsOf(next, p, false) == 1
    ensures forall q, w :: q in pipes ==> EndsOf(next, q, w) == EndsOf(ts, q, w)
    ensures WellFormed(next, pipes + {p})
  {
    var rf, wf := Some(OpenFile(true, false, Some(p))), Some(OpenFile(false, true, Some(p)));
    var mid := Place(ts, i, rfd, rf);
    forall q, w ensures EndsOf(next, q, w) == EndsOf(ts, q, w) + End(rf, q, w) + End(wf, q, w) {
      PlaceCounts(ts, i, rfd, rf, q, w);
      PlaceCounts(mid, i, wfd, wf, q, w);
    }
    NoEnds(ts, p, true);
    NoEnds(ts, p, false);
  }
}
