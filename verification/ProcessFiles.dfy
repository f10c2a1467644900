/** Processes and their descriptor tables together: descriptors belong to live processes only. */
module ProcessFiles {
  import Bits
  import opened PhysMem
  import opened BuddyAllocator
  import opened Processes
  import opened Scheduling
  import opened Pipes

  /** Slot `k` holds process number `d`, and it is not dead. */
  predicate LiveAt(slots: Slots, k: int, d: nat) {
    Has(slots, k) && slots[k].value.id == d && slots[k].value.state != Dead
  }

  /** Process number `d` is in the table and not dead. */
  ghost predicate LiveId(slots: Slots, d: nat) {
    exists k :: LiveAt(slots, k, d)
  }

  predicate AllClosed(t: Table) {
    forall j :: 0 <= j < |t| ==> t[j].None?
  }

  /**
   * Process number `d` has descriptor table `d - 1`, one for every process ever made, and the table of a process that
   * is dead or gone is empty.
   */
  ghost predicate Linked(slots: Slots, ts: seq<Table>, births: nat) {
    && |ts| + 1 == births
    && (forall k :: Has(slots, k) ==> 1 <= slots[k].value.id < births)
    && (forall i :: 0 <= i < |ts| && !LiveId(slots, i + 1) ==> AllClosed(ts[i]))
  }

  /** Slot `k` holds a live process whose descriptor `j` holds this end of `p`. */
  predicate HolderAt(slots: Slots, ts: seq<Table>, k: int, j: int, p: Pipe, w: bool) {
    Has(slots, k) && slots[k].value.state != Dead && HoldsEnd(ts, slots[k].value.id - 1, j, p, w)
  }

  /** A live process holds this end of `p`. */
  ghost predicate LiveHolds(slots: Slots, ts: seq<Table>, p: Pipe, w: bool) {
    exists k, j :: HolderAt(slots, ts, k, j, p, w)
  }

  /** Whoever holds an end is alive. */
  lemma HolderLives(slots: Slots, ts: seq<Table>, births: nat, p: Pipe, w: bool)
    requires Linked(slots, ts, births)
    ensures (exists i, j :: HoldsEnd(ts, i, j, p, w)) <==> LiveHolds(slots, ts, p, w)
  {
    if i, j :| HoldsEnd(ts, i, j, p, w) {
      assert !AllClosed(ts[i]);
      var k :| LiveAt(slots, k, i + 1);
      assert LiveAt(slots, k, i + 1);
      assert HolderAt(slots, ts, k, j, p, w);
    }
    if k, j :| HolderAt(slots, ts, k, j, p, w) { assert HoldsEnd(ts, slots[k].value.id - 1, j, p, w); }
  }

  // ---------- Steps ----------

  /** Who was alive is alive in the same slot, except perhaps the process in slot `k`. */
  ghost predicate LiveBut(slots: Slots, next: Slots, k: int) {
    && (forall j :: Has(next, j) ==> Has(slots, j) && next[j].value.id == slots[j].value.id)
    && (forall j, d: nat :: LiveAt(slots, j, d) && j != k ==> LiveAt(next, j, d))
  }

  /** A step in which nobody but the process in slot `k` dies, whose table is empty then. */
  lemma LinkedAfter(slots: Slots, ts: seq<Table>, births: nat, next: Slots, us: seq<Table>, k: int)
    requires Linked(slots, ts, births) && |us| == |ts| && LiveBut(slots, next, k)
    requires forall i :: 0 <= i < |ts| ==> us[i] == ts[i] || AllClosed(us[i])
    requires Has(slots, k) && slots[k].value.state != Dead ==> AllClosed(us[slots[k].value.id - 1])
    ensures Linked(next, us, births)
  {
    forall i | 0 <= i < |us| && !LiveId(next, i + 1) ensures AllClosed(us[i]) {
      if LiveId(slots, i + 1) {
        var j :| LiveAt(slots, j, i + 1);
        assert j == k;
      }
    }
  }

  /** A live process changes its own descriptors. */
  lemma LinkedOwn(slots: Slots, ts: seq<Table>, births: nat, us: seq<Table>, k: int)
    requires Linked(slots, ts, births) && |us| == |ts| && Has(slots, k) && slots[k].value.state != Dead
    requires forall i :: 0 <= i < |ts| && i != slots[k].value.id - 1 ==> us[i] == ts[i]
    ensures Linked(slots, us, births)
  {
    assert LiveAt(slots, k, slots[k].value.id);
  }

  /** A new process takes a new table. */
  lemma LinkedFork(slots: Slots, ts: seq<Table>, births: nat, next: Slots, p: Process, i: nat, t: Table)
    requires Linked(slots, ts, births) && Inserted(slots, next, p, i) && p.id == births && p.state == Ready
    ensures Linked(next, ts + [t], births + 1)
  {
    InsertedAt(slots, next, p, i);
    var us := ts + [t];
    assert LiveAt(next, i, births);
    forall q | 0 <= q < |us| && !LiveId(next, q + 1) ensures AllClosed(us[q]) {
      if LiveId(slots, q + 1) {
        var k :| LiveAt(slots, k, q + 1);
        assert LiveAt(next, k, q + 1);
      }
    }
  }

  /** `schedule` kills nobody. */
  lemma ScheduleLive(slots: Slots, current: nat, r: Outcome, next: Slots, now: nat, started: bool)
    requires ScheduleMeans(slots, current, true, r, next, now, started)
    ensures LiveBut(slots, next, -1)
  {
    var was := Yielded(slots, current, true);
    assert forall j :: Has(was, j) <==> Has(slots, j);
    forall j, d: nat | LiveAt(slots, j, d) ensures LiveAt(next, j, d) { assert LiveAt(was, j, d); }
  }

  lemma ExitLive(slots: Slots, current: nat, code: int, r: Outcome, next: Slots, now: nat, started: bool)
    requires ExitMeans(slots, current, code, r, next, now, started)
    ensures LiveBut(slots, next, current)
  {
    var mid: Slots :| Exited(slots, mid, current, code) && ScheduleMeans(mid, current, true, r, next, now, started);
    ScheduleLive(mid, current, r, next, now, started);
    forall j, d: nat | LiveAt(slots, j, d) && j != current ensures LiveAt(next, j, d) { assert LiveAt(mid, j, d); }
    forall j | Has(next, j) ensures Has(slots, j) && next[j].value.id == slots[j].value.id { assert Has(mid, j); }
  }

  lemma WaitLive(slots: Slots, current: nat, log: seq<Reaping>, target: int, nohang: bool, r: WaitResult, next: Slots,
                 now: nat, entries: seq<Reaping>)
    requires WaitMeans(slots, current, log, target, nohang, r, next, now, entries)
    ensures LiveBut(slots, next, -1)
  {
    if r.Reaped? {
      var k: nat :| ReapedAt(slots, current, target, next, k, r.pid, r.status) &&
                    entries == log + [Reaping(slots[current].value.id, slots[k].value)];
      assert ReapedAt(slots, current, target, next, k, r.pid, r.status);
      assert next == slots[k := None] && InState(slots, k, Dead);
    } else if r.Slept? {
      SleepLive(slots, current, target, next, r.to);
    }
  }

  lemma SleepLive(slots: Slots, current: nat, target: int, next: Slots, to: nat)
    requires Has(slots, current) && SwitchedTo(SleepIn(slots, current, target), current, true, next, to)
    ensures LiveBut(slots, next, -1)
  {
    var asleep := SleepIn(slots, current, target);
    assert forall j :: Has(asleep, j) <==> Has(slots, j);
    forall j, d: nat | LiveAt(slots, j, d) ensures LiveAt(next, j, d) { assert LiveAt(asleep, j, d); }
  }

  // ---------- Calls, and what they do ----------

  /** The process table, the descriptor tables and what each pipe holds, between two calls. */
  datatype Snapshot = Snapshot(now: Moment, tables: seq<Table>, bufs: map<Pipe, seq<byte>>)

  /** A call and its result. */
  datatype Call =
    | DidFork(pid: nat)
    | DidExit(code: int, outcome: Outcome)
    | DidWait(target: int, nohang: bool, answer: WaitResult)
    | DidTick(outcome: Outcome)
    | DidPipe(rfd: nat, wfd: nat, pipe: Pipe)
    | DidClose(fd: nat)
    | DidDup(fd: nat, newfd: nat)
    | DidRead(fd: nat, count: nat, at: Access, got: ReadResult)
    | DidWrite(fd: nat, data: seq<byte>, at: Access, done: WriteResult)
    | Refused

  /** A live process executes, and it has a descriptor table. */
  ghost predicate Acting(a: Snapshot) {
    && !a.now.idle && Has(a.now.slots, a.now.current) && a.now.slots[a.now.current].value.state != Dead
    && 1 <= a.now.slots[a.now.current].value.id <= |a.tables|
  }

  ghost function MyTable(a: Snapshot): nat
    requires Acting(a)
  {
    a.now.slots[a.now.current].value.id - 1
  }

  ghost predicate Held(a: Snapshot, p: Pipe, w: bool) {
    LiveHolds(a.now.slots, a.tables, p, w)
  }

  /** What a read of up to `count` bytes from `p` gives and leaves. */
  ghost predicate ReadMeans(a: Snapshot, p: Pipe, count: nat, r: ReadResult, bufs: map<Pipe, seq<byte>>) {
    && p in a.bufs
    && match r
       case Data(bytes) =>
         && |bytes| == Bits.Min(count, |a.bufs[p]|) && a.bufs[p] != []
         && p in bufs && bytes + bufs[p] == a.bufs[p] && bufs == a.bufs[p := bufs[p]]
       case Eof => a.bufs[p] == [] && !Held(a, p, true) && bufs == a.bufs
       case Block => a.bufs[p] == [] && Held(a, p, true) && bufs == a.bufs
  }

  /** What a write of `data` to `p` answers and leaves. */
  ghost predicate WriteMeans(a: Snapshot, p: Pipe, data: seq<byte>, r: WriteResult, bufs: map<Pipe, seq<byte>>) {
    && p in a.bufs
    && match r
       case Written(n) => n == |data| && Held(a, p, false) && bufs == a.bufs[p := a.bufs[p] + data]
       case BrokenPipe => !Held(a, p, false) && bufs == a.bufs
  }

  /** The tables after a call that leaves all pipes as they are. */
  ghost predicate TablesAfter(a: Snapshot, c: Call, b: Snapshot)
    requires Acting(a)
  {
    var i, ts := MyTable(a), a.tables;
    match c
    case DidFork(pid) => Forks(a.now, b.now, pid) && b.tables == ts + [ts[i]]
    case DidExit(code, r) =>
      && Exits(a.now, b.now, code, r)
      && |b.tables| == |ts| && AllClosed(b.tables[i]) && b.tables == ts[i := b.tables[i]]
    case DidWait(target, nohang, r) => Waits(a.now, b.now, target, nohang, r) && b.tables == ts
    case DidTick(r) => Ticks(a.now, b.now, r) && b.tables == ts
    case DidClose(fd) => b.now == a.now && fd < |ts[i]| && b.tables == Place(ts, i, fd, None)
    case DidDup(fd, newfd) =>
      b.now == a.now && fd < |ts[i]| && newfd < |ts[i]| && b.tables == Place(ts, i, newfd, ts[i][fd])
    case _ => b.now == a.now && b.tables == ts
  }

  /** The executing process makes call `c`. */
  ghost predicate Steps(a: Snapshot, c: Call, b: Snapshot) {
    && Acting(a)
    && match c
       case DidPipe(rfd, wfd, p) =>
         && b.now == a.now && PipeOpened(a.tables, MyTable(a), rfd, wfd, p, b.tables)
         && p !in a.bufs && b.bufs == a.bufs[p := []]
       case DidRead(fd, count, f, r) =>
         && b.now == a.now && b.tables == a.tables && f == Accesses(a.tables[MyTable(a)], fd, count, false)
         && if f.Ends? then ReadMeans(a, f.pipe, count, r, b.bufs) else b.bufs == a.bufs
       case DidWrite(fd, data, f, r) =>
         && b.now == a.now && b.tables == a.tables && f == Accesses(a.tables[MyTable(a)], fd, |data|, true)
         && if f.Ends? then WriteMeans(a, f.pipe, data, r, b.bufs) else b.bufs == a.bufs
       case _ => b.bufs == a.bufs && TablesAfter(a, c, b)
  }

  lemma ReadSteps(a: Snapshot, fd: nat, count: nat, f: Access, r: ReadResult, b: Snapshot)
    requires Acting(a) && b.now == a.now && b.tables == a.tables
    requires f == Accesses(a.tables[MyTable(a)], fd, count, false)
    requires !f.Ends? ==> b.bufs == a.bufs
    requires f.Ends? ==> f.pipe in a.bufs && f.pipe in b.bufs && b.bufs == a.bufs[f.pipe := b.bufs[f.pipe]]
    requires f.Ends? ==> (r.Data? <==> a.bufs[f.pipe] != []) && (r.Eof? <==> !r.Data? && !Held(a, f.pipe, true))
    requires f.Ends? && r.Data? ==>
      r.bytes + b.bufs[f.pipe] == a.bufs[f.pipe] && |r.bytes| == Bits.Min(count, |a.bufs[f.pipe]|)
    requires f.Ends? && !r.Data? ==> b.bufs[f.pipe] == a.bufs[f.pipe]
    ensures Steps(a, DidRead(fd, count, f, r), b)
  {
    if f.Ends? && !r.Data? { assert b.bufs == a.bufs; }
  }

  lemma WriteSteps(a: Snapshot, fd: nat, data: seq<byte>, f: Access, r: WriteResult, b: Snapshot)
    requires Acting(a) && b.now == a.now && b.tables == a.tables
    requires f == Accesses(a.tables[MyTable(a)], fd, |data|, true)
    requires !f.Ends? ==> b.bufs == a.bufs
    requires f.Ends? ==> f.pipe in a.bufs && f.pipe in b.bufs && b.bufs == a.bufs[f.pipe := b.bufs[f.pipe]]
    requires f.Ends? ==> (r.BrokenPipe? <==> !Held(a, f.pipe, false)) && (r.Written? ==> r.n == |data|)
    requires f.Ends? ==> b.bufs[f.pipe] == if r.BrokenPipe? then a.bufs[f.pipe] else a.bufs[f.pipe] + data
    ensures Steps(a, DidWrite(fd, data, f, r), b)
  {
    if f.Ends? && r.BrokenPipe? { assert b.bufs == a.bufs; }
  }

  // ---------- Whole runs ----------

  /** Every invariant of the process table holds, and pipe ends are held by live processes and known pipes only. */
  ghost predicate GoodSnapshot(a: Snapshot) {
    && GoodMoment(a.now) && Linked(a.now.slots, a.tables, a.now.births) && WellFormed(a.tables, a.bufs.Keys)
  }

  ghost predicate IsCallRun(run: seq<Snapshot>, calls: seq<Call>) {
    |run| == |calls| + 1 && forall k :: 0 <= k < |calls| ==> Steps(run[k], calls[k], run[k + 1])
  }

  /** What `p` holds; nothing before it is opened. */
  ghost function Buffer(a: Snapshot, p: Pipe): seq<byte> {
    if p in a.bufs then a.bufs[p] else []
  }

  /** The bytes that a write call gave to `p`. */
  ghost function Given(c: Call, p: Pipe): seq<byte> {
    if c.DidWrite? && c.at == Ends(p) && c.done.Written? then c.data else []
  }

  /** The bytes that a read call returned from `p`. */
  ghost function Returned(c: Call, p: Pipe): seq<byte> {
    if c.DidRead? && c.at == Ends(p) && c.got.Data? then c.got.bytes else []
  }

  ghost function AllGiven(calls: seq<Call>, p: Pipe): seq<byte> {
    if calls == [] then [] else AllGiven(calls[..|calls| - 1], p) + Given(calls[|calls| - 1], p)
  }

  ghost function AllReturned(calls: seq<Call>, p: Pipe): seq<byte> {
    if calls == [] then [] else AllReturned(calls[..|calls| - 1], p) + Returned(calls[|calls| - 1], p)
  }

  lemma StepConserves(a: Snapshot, c: Call, b: Snapshot, p: Pipe)
    requires Steps(a, c, b)
    ensures Buffer(a, p) + Given(c, p) == Returned(c, p) + Buffer(b, p)
  {
    match c
    case DidRead(fd, count, f, r) =>
    case DidWrite(fd, data, f, r) =>
    case _ =>
  }

  /**
   * In every run, for every pipe: what it held, followed by all that write calls gave it, is all that read calls
   * returned from it, followed by what it holds. No call loses a byte, makes one up, or changes their order.
   */
  lemma {:induction false} PipesConserve(run: seq<Snapshot>, calls: seq<Call>, p: Pipe, n: nat)
    requires IsCallRun(run, calls) && n <= |calls|
    ensures Buffer(run[0], p) + AllGiven(calls[..n], p) == AllReturned(calls[..n], p) + Buffer(run[n], p)
  {
    if n > 0 {
      var k := n - 1;
      PipesConserve(run, calls, p, k);
      StepOfRun(run, calls, k, n);
      StepConserves(run[k], calls[k], run[n], p);
      OneMoreCall(calls, k, n, p);
      Chained(Buffer(run[0], p), AllGiven(calls[..k], p), AllReturned(calls[..k], p), Buffer(run[k], p),
              Given(calls[k], p), Returned(calls[k], p), Buffer(run[n], p));
    }
  }

  lemma StepOfRun(run: seq<Snapshot>, calls: seq<Call>, k: nat, next: nat)
    requires IsCallRun(run, calls) && k < |calls| && next == k + 1
    ensures Steps(run[k], calls[k], run[next])
  {
    assert Steps(run[k], calls[k], run[k + 1]);
  }

  lemma OneMoreCall(calls: seq<Call>, k: nat, next: nat, p: Pipe)
    requires next == k + 1 <= |calls|
    ensures AllGiven(calls[..next], p) == AllGiven(calls[..k], p) + Given(calls[k], p)
    ensures AllReturned(calls[..next], p) == AllReturned(calls[..k], p) + Returned(calls[k], p)
  {
    assert calls[..next][..k] == calls[..k];
  }

  lemma Chained(first: seq<byte>, given: seq<byte>, returned: seq<byte>, held: seq<byte>, more: seq<byte>,
                out: seq<byte>, last: seq<byte>)
    requires first + given == returned + held && held + more == out + last
    ensures first + (given + more) == (returned + out) + last
  {
    assert first + (given + more) == (first + given) + more;
    assert (returned + held) + more == returned + (held + more);
    assert returned + (out + last) == (returned + out) + last;
  }

  lemma StepGood(a: Snapshot, c: Call, b: Snapshot)
    requires GoodSnapshot(a) && Steps(a, c, b)
    ensures GoodSnapshot(b)
  {
    StepMoment(a, c, b);
    StepLinked(a, c, b);
    StepFormed(a, c, b);
  }

  lemma StepMoment(a: Snapshot, c: Call, b: Snapshot)
    requires GoodMoment(a.now) && Steps(a, c, b)
    ensures GoodMoment(b.now)
  {
    match c
    case DidFork(pid) => ForksGood(a.now, b.now, pid);
    case DidExit(code, r) => ExitsGood(a.now, b.now, code, r);
    case DidWait(target, nohang, r) => WaitsGood(a.now, b.now, target, nohang, r);
    case DidTick(r) => TicksGood(a.now, b.now, r);
    case _ =>
  }

  lemma StepLinked(a: Snapshot, c: Call, b: Snapshot)
    requires Linked(a.now.slots, a.tables, a.now.births) && Steps(a, c, b)
    ensures Linked(b.now.slots, b.tables, b.now.births)
  {
    var s, k, ts := a.now.slots, a.now.current, a.tables;
    match c
    case DidFork(pid) =>
      var p := Process(pid, s[k].value.pid, Ready, 0, a.now.births, s[k].value.id, 0);
      var i: nat :| Inserted(s, b.now.slots, p, i) && FirstEmpty(s, i);
      LinkedFork(s, ts, a.now.births, b.now.slots, p, i, ts[MyTable(a)]);
    case DidExit(code, r) =>
      ExitLive(s, k, code, r, b.now.slots, b.now.current, true);
      LinkedAfter(s, ts, a.now.births, b.now.slots, b.tables, k);
    case DidWait(target, nohang, r) =>
      WaitLive(s, k, a.now.log, target, nohang, r, b.now.slots, b.now.current, b.now.log);
      LinkedAfter(s, ts, a.now.births, b.now.slots, ts, -1);
    case DidTick(r) =>
      ScheduleLive(s, k, r, b.now.slots, b.now.current, true);
      LinkedAfter(s, ts, a.now.births, b.now.slots, ts, -1);
    case _ =>
      LinkedOwn(s, ts, a.now.births, b.tables, k);
  }

  /** A call that leaves the pipes alone is a step, and descriptors still belong to live processes only. */
  lemma PlainCall(a: Snapshot, c: Call, b: Snapshot)
    requires Acting(a) && b.bufs == a.bufs && TablesAfter(a, c, b) && !c.DidPipe? && !c.DidRead? && !c.DidWrite?
    requires Linked(a.now.slots, a.tables, a.now.births)
    ensures Steps(a, c, b) && Linked(b.now.slots, b.tables, b.now.births)
  {
    StepLinked(a, c, b);
  }

  lemma StepFormed(a: Snapshot, c: Call, b: Snapshot)
    requires WellFormed(a.tables, a.bufs.Keys) && Steps(a, c, b)
    ensures WellFormed(b.tables, b.bufs.Keys) && a.bufs.Keys <= b.bufs.Keys
  {
  }

  /** The first process runs, with descriptors for the serial line only; there is no pipe. */
  ghost predicate Started(a: Snapshot) {
    && Booted(a.now) && a.bufs == map[] && |a.tables| == 1
    && forall j :: 0 <= j < |a.tables[0]| && a.tables[0][j].Some? ==> a.tables[0][j].value.pipe.None?
  }

  lemma StartGood(a: Snapshot)
    requires Started(a)
    ensures GoodSnapshot(a)
  {
    BootGood(a.now);
    assert forall k :: Has(a.now.slots, k) ==> k == 0 && LiveAt(a.now.slots, 0, 1);
    assert LiveAt(a.now.slots, 0, 1);
  }

  /** At every moment of every run, descriptors belong to live processes only. */
  lemma {:induction false} CallRunsStayGood(run: seq<Snapshot>, calls: seq<Call>, k: nat)
    requires IsCallRun(run, calls) && GoodSnapshot(run[0]) && k <= |calls|
    ensures GoodSnapshot(run[k])
  {
    if k > 0 {
      CallRunsStayGood(run, calls, k - 1);
      StepOfRun(run, calls, k - 1, k);
      StepGood(run[k - 1], calls[k - 1], run[k]);
    }
  }

  /** The pipe has been opened, and no live process can write to it any more. */
  ghost predicate Finished(a: Snapshot, p: Pipe) {
    p in a.bufs && !Held(a, p, true)
  }

  /** Once no live process can write to a pipe, none ever can again. */
  lemma EndStaysClosed(a: Snapshot, c: Call, b: Snapshot, p: Pipe)
    requires GoodSnapshot(a) && Steps(a, c, b) && Finished(a, p)
    ensures Finished(b, p) && Given(c, p) == []
  {
    StepGood(a, c, b);
    StepFormed(a, c, b);
    HolderLives(a.now.slots, a.tables, a.now.births, p, true);
    HolderLives(b.now.slots, b.tables, b.now.births, p, true);
    if c.DidWrite? && c.at == Ends(p) { assert HoldsEnd(a.tables, MyTable(a), c.fd, p, true); }
    if i, j :| HoldsEnd(b.tables, i, j, p, true) { HeldBefore(a, c, b, p, i, j); }
  }

  /** An end that a descriptor holds was held before, unless the pipe is new. */
  lemma HeldBefore(a: Snapshot, c: Call, b: Snapshot, p: Pipe, i: int, j: int)
    requires Steps(a, c, b) && p in a.bufs && HoldsEnd(b.tables, i, j, p, true)
    ensures exists k, l :: HoldsEnd(a.tables, k, l, p, true)
  {
    var me := MyTable(a);
    if c.DidFork? && i == |a.tables| {
      assert HoldsEnd(a.tables, me, j, p, true);
    } else if c.DidDup? && i == me && j == c.newfd {
      assert HoldsEnd(a.tables, me, c.fd, p, true);
    } else {
      assert HoldsEnd(a.tables, i, j, p, true);
    }
  }

  lemma {:induction false} NoMoreGiven(run: seq<Snapshot>, calls: seq<Call>, p: Pipe, k: nat, n: nat)
    requires IsCallRun(run, calls) && GoodSnapshot(run[0]) && k <= n <= |calls|
    requires Finished(run[k], p)
    ensures Finished(run[n], p) && AllGiven(calls[..n], p) == AllGiven(calls[..k], p)
    decreases n
  {
    if k < n {
      var l := n - 1;
      NoMoreGiven(run, calls, p, k, l);
      CallRunsStayGood(run, calls, l);
      StepOfRun(run, calls, l, n);
      EndStaysClosed(run[l], calls[l], run[n], p);
      OneMoreCall(calls, l, n, p);
    }
  }

  /**
   * A read answers that a pipe is at its end only when reads have returned every byte that writes ever gave it, in this
   * run before or after.
   */
  lemma EofIsFinal(run: seq<Snapshot>, calls: seq<Call>, k: nat, p: Pipe)
    requires IsCallRun(run, calls) && GoodSnapshot(run[0]) && k < |calls|
    requires calls[k].DidRead? && calls[k].at == Ends(p) && calls[k].got == Eof
    ensures Buffer(run[0], p) + AllGiven(calls, p) == AllReturned(calls[..k], p)
  {
    assert Steps(run[k], calls[k], run[k + 1]);
    NoMoreGiven(run, calls, p, k, |calls|);
    PipesConserve(run, calls, p, k);
    assert calls[..|calls|] == calls;
    assert AllReturned(calls[..k], p) + [] == AllReturned(calls[..k], p);
  }

  /** What is written at the one descriptor of a new pipe is read at the other. */
  lemma PipeCarries(a: Snapshot, rfd: nat, wfd: nat, p: Pipe, b: Snapshot, data: seq<byte>, f: Access, w: WriteResult,
                    c: Snapshot, count: nat, g: Access, r: ReadResult, d: Snapshot)
    requires Steps(a, DidPipe(rfd, wfd, p), b) && Steps(b, DidWrite(wfd, data, f, w), c)
    requires Steps(c, DidRead(rfd, count, g, r), d) && data != [] && count > 0
    ensures f == g == Ends(p) && w == Written(|data|) && r == Data(data[..Bits.Min(count, |data|)])
    ensures d.bufs[p] == data[Bits.Min(count, |data|)..]
  {
    NewPipeEnds(a.tables, MyTable(a), rfd, wfd, p, b.tables, |data|);
    NewPipeEnds(a.tables, MyTable(a), rfd, wfd, p, b.tables, count);
    assert HolderAt(b.now.slots, b.tables, b.now.current, rfd, p, false);
    assert c.bufs[p] == data;
    assert r.bytes == (r.bytes + d.bufs[p])[..|r.bytes|] && d.bufs[p] == (r.bytes + d.bufs[p])[|r.bytes|..];
  }

  // ---------- The kernel's view of a process ----------

  class Kernel {
    const sched: Scheduler
    const files: Descriptors

    ghost predicate Valid()
      reads this, sched, files, files.pipes
    {
      sched.Valid() && files.Valid() && Linked(sched.processes, files.tables, sched.births)
    }

    ghost predicate Executing()
      reads this, sched, files, files.pipes
    {
      Valid() && sched.Executing()
    }

    /** The state between two calls. */
    ghost function Snap(): Snapshot
      reads this, sched, files, files.pipes
    {
      Snapshot(sched.Now(), files.tables, map p | p in files.pipes :: p.buf)
    }

    /** Between calls the state is a good one. */
    lemma SnapGood()
      requires Executing()
      ensures GoodSnapshot(Snap()) && Acting(Snap())
    {
      assert Snap().bufs.Keys == files.pipes;
    }

    twostate lemma SameBufs()
      requires files.pipes == old(files.pipes) && forall p :: p in files.pipes ==> p.buf == old(p.buf)
      ensures Snap().bufs == old(Snap()).bufs
    {
    }

    twostate lemma OneBuf(p: Pipe)
      requires files.pipes == old(files.pipes) && p in files.pipes
      requires forall q :: q in files.pipes && q != p ==> q.buf == old(q.buf)
      ensures Snap().bufs == old(Snap()).bufs[p := p.buf]
    {
    }

    /** The first process, with its standard descriptors. */
    constructor ()
      ensures Valid() && sched.processes == [Some(FIRST_PROCESS)] && !sched.initialized
    {
      var s := new Scheduler();
      var f := new Descriptors();
      s.RegisterInit();
      var c := f.NewStdio();
      sched, files := s, f;
      new;
      assert LiveAt(s.processes, 0, 1);
      assert forall k :: Has(s.processes, k) ==> k == 0;
    }

    /** The position of the current process's descriptor table. */
    function Mine(): (i: nat)
      requires Executing()
      reads this, sched, files, files.pipes
      ensures i < |files.tables|
    {
      assert Has(sched.processes, sched.currentIdx);
      sched.processes[sched.currentIdx].value.id - 1
    }

    /** Forks the current process; the child's descriptors are a copy of its own. */
    method Fork(copied: bool) returns (pid: Option<nat>)
      requires Executing()
      modifies sched`processes, sched`births, files`tables, files.pipes
      ensures Executing() && (pid.Some? <==> copied)
      ensures pid.Some? ==> Forks(old(sched.Now()), sched.Now(), pid.value)
      ensures pid.Some? ==> files.tables == old(files.tables) + [old(files.tables[Mine()])]
      ensures pid.None? ==> sched.Now() == old(sched.Now()) && files.tables == old(files.tables)
      ensures files.SameContents()
      ensures Steps(old(Snap()), if pid.Some? then DidFork(pid.value) else Refused, Snap())
    {
      ghost var before := Snap();
      var me := Mine();
      pid := ForkBoth(copied, me);
      SameBufs();
      PlainCall(before, if pid.Some? then DidFork(pid.value) else Refused, Snap());
    }

    /** Adds the child to the process table, and a copy of table `me` to the descriptor tables. */
    method ForkBoth(copied: bool, me: nat) returns (pid: Option<nat>)
      requires sched.Executing() && files.Valid() && me < |files.tables|
      modifies sched`processes, sched`births, files`tables, files.pipes
      ensures sched.Executing() && files.Valid() && files.SameContents() && (pid.Some? <==> copied)
      ensures pid.Some? ==> Forks(old(sched.Now()), sched.Now(), pid.value)
      ensures pid.Some? ==> files.tables == old(files.tables) + [old(files.tables[me])]
      ensures pid.None? ==> sched.Now() == old(sched.Now()) && files.tables == old(files.tables)
    {
      pid := sched.ForkProcess(copied);
      if pid.Some? {
        var c := files.ForkClone(me);
      }
    }

    /** Ends the current process: in one step its descriptors are closed and it is marked dead. */
    method Exit(code: int) returns (r: Outcome)
      requires Executing()
      modifies sched`processes, sched`currentIdx, sched`initialized, files`tables, files.pipes
      ensures Valid() && (r.Switched? ==> Executing()) && !r.Stayed? && (r.Idle? ==> AllDead(sched.processes))
      ensures Exits(old(sched.Now()), sched.Now().(idle := r.Idle?), code, r)
      ensures |files.tables| == |old(files.tables)| && AllClosed(files.tables[old(Mine())])
      ensures files.tables == old(files.tables)[old(Mine()) := files.tables[old(Mine())]]
      ensures files.SameContents()
      ensures Steps(old(Snap()), DidExit(code, r), Snap().(now := sched.Now().(idle := r.Idle?)))
    {
      ghost var before := Snap();
      var me := Mine();
      files.CloseAll(me);
      r := sched.Exit(code);
      SameBufs();
      PlainCall(before, DidExit(code, r), Snap().(now := sched.Now().(idle := r.Idle?)));
    }

    method Wait4(target: int, nohang: bool) returns (r: WaitResult)
      requires Executing()
      modifies sched`processes, sched`currentIdx, sched`initialized, sched`log
      ensures Executing() && Waits(old(sched.Now()), sched.Now(), target, nohang, r)
      ensures files.SameContents()
      ensures Steps(old(Snap()), DidWait(target, nohang, r), Snap())
    {
      ghost var before := Snap();
      r := sched.Wait4(target, nohang);
      SameBufs();
      assert Snap() == Snapshot(sched.Now(), before.tables, before.bufs);
      PlainCall(before, DidWait(target, nohang, r), Snap());
    }

    method Tick() returns (r: Outcome)
      requires Executing()
      modifies sched`processes, sched`currentIdx, sched`initialized
      ensures Executing() && Ticks(old(sched.Now()), sched.Now(), r)
      ensures files.SameContents()
      ensures Steps(old(Snap()), DidTick(r), Snap())
    {
      ghost var before := Snap();
      r := sched.Tick();
      SameBufs();
      PlainCall(before, DidTick(r), Snap());
    }

    /** Opens a pipe for the current process. */
    method MakePipe() returns (r: Option<(nat, nat)>, ghost p: Pipe)
      requires Executing()
      modifies files
      ensures Executing() && sched.Now() == old(sched.Now()) && (r.Some? <==> old(TwoFree(files.tables[Mine()])))
      ensures r.Some? ==> PipeOpened(old(files.tables), Mine(), r.value.0, r.value.1, p, files.tables)
      ensures r.Some? ==> p in files.pipes && LiveHolds(sched.processes, files.tables, p, true) &&
                          LiveHolds(sched.processes, files.tables, p, false)
      ensures files.SameContents() && (r.Some? ==> files.pipes == old(files.pipes) + {p} && p.buf == [])
      ensures Steps(old(Snap()), if r.Some? then DidPipe(r.value.0, r.value.1, p) else Refused, Snap())
    {
      ghost var ts, k := files.tables, sched.currentIdx;
      var me := Mine();
      r, p := files.MakePipe(me);
      LinkedOwn(sched.processes, ts, sched.births, files.tables, k);
      if r.Some? {
        assert HolderAt(sched.processes, files.tables, k, r.value.0, p, false);
        assert HolderAt(sched.processes, files.tables, k, r.value.1, p, true);
        assert Snap().bufs == old(Snap()).bufs[p := []];
      } else {
        SameBufs();
      }
    }

    /** Closes a descriptor of the current process. */
    method Close(fd: nat) returns (ok: bool)
      requires Executing()
      modifies files`tables, files.pipes
      ensures Executing() && sched.Now() == old(sched.Now())
      ensures ok <==> fd < FD_MAX && old(files.tables[Mine()][fd].Some?)
      ensures files.tables == if ok then Place(old(files.tables), old(Mine()), fd, None) else old(files.tables)
      ensures files.SameContents()
      ensures Steps(old(Snap()), if ok then DidClose(fd) else Refused, Snap())
    {
      ghost var ts, k := files.tables, sched.currentIdx;
      var me := Mine();
      ok := files.Close(me, fd);
      LinkedOwn(sched.processes, ts, sched.births, files.tables, k);
      SameBufs();
    }

    /** Opens the lowest free descriptor of the current process for the file at `fd`. */
    method Dup(fd: nat) returns (r: Option<nat>)
      requires Executing()
      modifies files`tables, files.pipes
      ensures Executing() && sched.Now() == old(sched.Now())
      ensures r.Some? <==> old(IsOpen(files.tables[Mine()], fd) && FreeFrom(files.tables[Mine()], 0))
      ensures r.Some? ==>
        && LowestFree(old(files.tables[Mine()]), 0, r.value)
        && files.tables == Place(old(files.tables), old(Mine()), r.value, old(files.tables[Mine()][fd]))
      ensures r.None? ==> files.tables == old(files.tables)
      ensures files.SameContents()
      ensures Steps(old(Snap()), if r.Some? then DidDup(fd, r.value) else Refused, Snap())
    {
      ghost var ts, k := files.tables, sched.currentIdx;
      var me := Mine();
      r := files.Dup(me, fd);
      LinkedOwn(sched.processes, ts, sched.births, files.tables, k);
      SameBufs();
    }

    /** Makes `newfd` a descriptor for the file of `fd`. */
    method Dup2(fd: nat, newfd: nat) returns (ok: bool)
      requires Executing()
      modifies files`tables, files.pipes
      ensures Executing() && sched.Now() == old(sched.Now())
      ensures ok <==> fd < FD_MAX && newfd < FD_MAX && old(files.tables[Mine()][fd].Some?)
      ensures ok ==> files.tables == Place(old(files.tables), old(Mine()), newfd, old(files.tables[Mine()][fd]))
      ensures !ok ==> files.tables == old(files.tables)
      ensures files.SameContents()
      ensures Steps(old(Snap()), if ok then DidDup(fd, newfd) else Refused, Snap())
    {
      ghost var ts, k := files.tables, sched.currentIdx;
      var me := Mine();
      ok := files.Dup2(me, fd, newfd);
      LinkedOwn(sched.processes, ts, sched.births, files.tables, k);
      SameBufs();
    }

    /**
     * Reads from a descriptor of the current process; a pipe is at its end exactly when no live process can write to
     * it.
     */
    method Read(fd: nat, count: nat) returns (a: Access, r: ReadResult)
      requires Executing()
      modifies files.pipes
      ensures Executing()
      ensures a == Accesses(files.tables[Mine()], fd, count, false)
      ensures a.Ends? ==> (r.Data? <==> old(a.pipe.buf) != [])
      ensures a.Ends? ==> (r.Eof? <==> old(a.pipe.buf) == [] && !LiveHolds(sched.processes, files.tables, a.pipe, true))
      ensures a.Ends? && r.Data? ==>
        r.bytes + a.pipe.buf == old(a.pipe.buf) && |r.bytes| == Bits.Min(count, |old(a.pipe.buf)|)
      ensures a.Ends? && !r.Data? ==> a.pipe.buf == old(a.pipe.buf)
      ensures forall p :: p in files.pipes && a != Ends(p) ==> p.buf == old(p.buf)
      ensures Steps(old(Snap()), DidRead(fd, count, a, r), Snap())
    {
      ghost var before := Snap();
      var me := Mine();
      a, r := files.ReadFd(me, fd, count);
      if a.Ends? {
        HolderLives(sched.processes, files.tables, sched.births, a.pipe, true);
        OneBuf(a.pipe);
      } else {
        SameBufs();
      }
      ReadSteps(before, fd, count, a, r, Snap());
    }

    /**
     * Writes to a descriptor of the current process; a pipe is broken exactly when no live process can read from it.
     */
    method Write(fd: nat, data: seq<byte>) returns (a: Access, r: WriteResult)
      requires Executing()
      modifies files.pipes
      ensures Executing()
      ensures a == Accesses(files.tables[Mine()], fd, |data|, true)
      ensures a.Ends? ==> (r.BrokenPipe? <==> !LiveHolds(sched.processes, files.tables, a.pipe, false))
      ensures a.Ends? ==> a.pipe.buf == if r.BrokenPipe? then old(a.pipe.buf) else old(a.pipe.buf) + data
      ensures a.Ends? && r.Written? ==> r.n == |data|
      ensures forall p :: p in files.pipes && a != Ends(p) ==> p.buf == old(p.buf)
      ensures Steps(old(Snap()), DidWrite(fd, data, a, r), Snap())
    {
      ghost var before := Snap();
      var me := Mine();
      a, r := files.WriteFd(me, fd, data);
      if a.Ends? {
        HolderLives(sched.processes, files.tables, sched.births, a.pipe, false);
        OneBuf(a.pipe);
      } else {
        SameBufs();
      }
      WriteSteps(before, fd, data, a, r, Snap());
    }
  }
}
