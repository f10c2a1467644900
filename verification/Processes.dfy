/** The process table: a run of slots, the parent relation between processes, and who waits for whom. */
module Processes {
  import opened BuddyAllocator

  datatype State = Ready | Running | Blocked | Dead | Waiting

  /**
   * `id` and `parentId` number processes in the order they were created, whatever pids are reused; `target` is the
   * argument of the `wait4` that a `Waiting` process is in.
   */
  datatype Process = Process(pid: nat, parent: nat, state: State, exitCode: int, id: nat, parentId: nat, target: int)

  type Slots = seq<Option<Process>>

  predicate Has(slots: Slots, i: int) {
    0 <= i < |slots| && slots[i].Some?
  }

  predicate InState(slots: Slots, i: int, s: State) {
    Has(slots, i) && slots[i].value.state == s
  }

  /** Process `q` is a child of `p` that a wait of `p` for `target` accepts. */
  predicate Accepts(p: Process, target: int, q: Process) {
    q.parent == p.pid && (target <= 0 || q.pid == target)
  }

  // ---------- Invariants ----------

  /** Pids are distinct and larger than the parent's; a pid names the parent's own process, never a later one. */
  ghost predicate Forest(slots: Slots, births: nat) {
    && (forall i :: Has(slots, i) ==> slots[i].value.parent < slots[i].value.pid && slots[i].value.id < births)
    && (forall i, j :: Has(slots, i) && Has(slots, j) && i != j ==>
          slots[i].value.pid != slots[j].value.pid && slots[i].value.id != slots[j].value.id)
    && (forall i, j :: Has(slots, i) && Has(slots, j) && slots[i].value.parent == slots[j].value.pid ==>
          slots[i].value.parentId == slots[j].value.id)
  }

  /** At most one process is Running, and it is the current one. */
  ghost predicate OneRunning(slots: Slots, current: nat) {
    forall i :: Has(slots, i) && slots[i].value.state == Running ==> i == current
  }

  ghost predicate NoneBlocked(slots: Slots) {
    forall i :: Has(slots, i) ==> slots[i].value.state != Blocked
  }

  /** Slot `j` holds a child that the wait of slot `i` accepts. */
  predicate Awaits(slots: Slots, i: int, j: int) {
    InState(slots, i, Waiting) && Has(slots, j) && Accepts(slots[i].value, slots[i].value.target, slots[j].value)
  }

  /** No process waits while a dead child matches. */
  ghost predicate NoLostWakeup(slots: Slots) {
    forall i, j :: Awaits(slots, i, j) ==> slots[j].value.state != Dead
  }

  /** Every waiting process has a matching child. */
  ghost predicate Expecting(slots: Slots) {
    forall i :: InState(slots, i, Waiting) ==> exists j :: Awaits(slots, i, j)
  }

  ghost predicate Sound(slots: Slots, births: nat, current: nat) {
    Forest(slots, births) && OneRunning(slots, current) && NoneBlocked(slots) && NoLostWakeup(slots) && Expecting(slots)
  }

  ghost predicate AllDead(slots: Slots) {
    forall i :: Has(slots, i) ==> slots[i].value.state == Dead
  }

  /** A bound on the pids in use. */
  ghost predicate PidsBelow(slots: Slots, n: nat) {
    forall i :: Has(slots, i) ==> slots[i].value.pid < n
  }

  /** From a waiting process, going to a matching child again and again ends at one that can run. */
  lemma {:induction false} SomeoneCanRun(slots: Slots, births: nat, current: nat, i: nat, n: nat) returns (j: nat)
    requires Sound(slots, births, current) && InState(slots, i, Waiting) && PidsBelow(slots, n)
    ensures InState(slots, j, Ready) || InState(slots, j, Running)
    ensures slots[i].value.pid < slots[j].value.pid
    decreases n - slots[i].value.pid
  {
    var c :| Awaits(slots, i, c);
    assert Awaits(slots, i, c);
    assert slots[c].value.parent < slots[c].value.pid;
    j := c;
    if InState(slots, c, Waiting) {
      j := SomeoneCanRun(slots, births, current, c, n);
    }
  }

  lemma {:induction false} SomeBound(slots: Slots) returns (n: nat)
    ensures PidsBelow(slots, n)
  {
    if slots == [] {
      n := 0;
    } else {
      var k := |slots| - 1;
      n := SomeBound(slots[..k]);
      if slots[k].Some? && n <= slots[k].value.pid { n := slots[k].value.pid + 1; }
      forall i | Has(slots, i) ensures slots[i].value.pid < n { assert i < k ==> Has(slots[..k], i); }
    }
  }

  /** Without a Ready or Running process, nobody is waiting: what is left is dead. */
  lemma NobodyLeft(slots: Slots, births: nat, current: nat)
    requires Sound(slots, births, current)
    requires forall i :: !InState(slots, i, Ready) && !InState(slots, i, Running)
    ensures AllDead(slots)
  {
    forall i | Has(slots, i) ensures slots[i].value.state == Dead {
      assert !InState(slots, i, Ready) && !InState(slots, i, Running);
      if InState(slots, i, Waiting) {
        var n := SomeBound(slots);
        var j := SomeoneCanRun(slots, births, current, i, n);
      }
    }
  }

  // ---------- Steps ----------

  /** Slot `i` takes process `p`: an empty slot, or a new one at the end. */
  ghost predicate Inserted(slots: Slots, next: Slots, p: Process, i: nat) {
    (i < |slots| && slots[i].None? && next == slots[i := Some(p)]) || (i == |slots| && next == slots + [Some(p)])
  }

  lemma InsertedAt(slots: Slots, next: Slots, p: Process, i: nat)
    requires Inserted(slots, next, p, i)
    ensures Has(next, i) && next[i].value == p
    ensures forall j :: Has(next, j) <==> j == i || Has(slots, j)
    ensures forall j :: Has(slots, j) ==> j != i && next[j] == slots[j]
  {
  }

  /** A forked child with a pid above all others keeps everything, and nobody takes it for its own. */
  lemma ForkSound(slots: Slots, births: nat, current: nat, next: Slots, p: Process, i: nat, k: nat)
    requires Sound(slots, births, current) && Inserted(slots, next, p, i) && Has(slots, k)
    requires PidsBelow(slots, p.pid)
    requires p.parent == slots[k].value.pid && p.parentId == slots[k].value.id && p.id == births && p.state == Ready
    ensures Sound(next, births + 1, current)
  {
    InsertedAt(slots, next, p, i);
    ForkForest(slots, births, next, p, i, k);
    ForkWaits(slots, next, p, i);
  }

  lemma ForkForest(slots: Slots, births: nat, next: Slots, p: Process, i: nat, k: nat)
    requires Forest(slots, births) && Inserted(slots, next, p, i) && Has(slots, k) && PidsBelow(slots, p.pid)
    requires p.parent == slots[k].value.pid && p.parentId == slots[k].value.id && p.id == births
    ensures Forest(next, births + 1)
  {
    InsertedAt(slots, next, p, i);
  }

  lemma ForkWaits(slots: Slots, next: Slots, p: Process, i: nat)
    requires Inserted(slots, next, p, i) && NoLostWakeup(slots) && Expecting(slots) && p.state == Ready
    ensures NoLostWakeup(next) && Expecting(next)
  {
    InsertedAt(slots, next, p, i);
    forall j | InState(next, j, Waiting) ensures exists c :: Awaits(next, j, c) {
      assert InState(slots, j, Waiting);
      var c :| Awaits(slots, j, c);
      assert Awaits(next, j, c);
    }
    forall j, c | Awaits(next, j, c) ensures next[c].value.state != Dead {
      assert c != i ==> Awaits(slots, j, c);
    }
  }

  /** Removing a dead process keeps everything. */
  lemma ReapSound(slots: Slots, births: nat, current: nat, k: nat)
    requires Sound(slots, births, current) && InState(slots, k, Dead)
    ensures Sound(slots[k := None], births, current)
  {
    var next := slots[k := None];
    assert forall j :: Has(next, j) <==> j != k && Has(slots, j);
    ReapWaits(slots, k);
  }

  lemma ReapWaits(slots: Slots, k: nat)
    requires NoLostWakeup(slots) && Expecting(slots) && InState(slots, k, Dead)
    ensures NoLostWakeup(slots[k := None]) && Expecting(slots[k := None])
  {
    var next := slots[k := None];
    forall j | InState(next, j, Waiting) ensures exists c :: Awaits(next, j, c) {
      assert InState(slots, j, Waiting);
      var c :| Awaits(slots, j, c);
      assert Awaits(slots, j, c);
      assert Awaits(next, j, c);
    }
    forall j, c | Awaits(next, j, c) ensures next[c].value.state != Dead {
      assert Awaits(slots, j, c);
    }
  }

  /** Changing only the state of one process. */
  function SetState(slots: Slots, k: nat, s: State): Slots
    requires Has(slots, k)
  {
    slots[k := Some(slots[k].value.(state := s))]
  }

  lemma SetStateForest(slots: Slots, births: nat, k: nat, s: State)
    requires Forest(slots, births) && Has(slots, k)
    ensures Forest(SetState(slots, k, s), births)
  {
    var next := SetState(slots, k, s);
    assert forall j :: Has(next, j) <==> Has(slots, j);
  }

  /** Moving a process among Ready and Running, or waking it, keeps all waits. */
  lemma ShuffleWaits(slots: Slots, k: nat, s: State)
    requires Has(slots, k) && slots[k].value.state != Dead && (s == Ready || s == Running)
    requires NoLostWakeup(slots) && Expecting(slots) && NoneBlocked(slots)
    ensures NoLostWakeup(SetState(slots, k, s)) && Expecting(SetState(slots, k, s))
    ensures NoneBlocked(SetState(slots, k, s))
  {
    var next := SetState(slots, k, s);
    forall j | InState(next, j, Waiting) ensures exists c :: Awaits(next, j, c) {
      assert InState(slots, j, Waiting);
      var c :| Awaits(slots, j, c);
      assert Awaits(next, j, c);
    }
    forall j, c | Awaits(next, j, c) ensures next[c].value.state != Dead {
      assert Awaits(slots, j, c);
    }
  }

  /** The current process begins to wait: it has a matching child, and none that is dead. */
  lemma WaitSound(slots: Slots, births: nat, current: nat, target: int, c: nat)
    requires Sound(slots, births, current) && Has(slots, current) && Has(slots, c)
    requires slots[current].value.state == Ready || slots[current].value.state == Running
    requires Accepts(slots[current].value, target, slots[c].value)
    requires forall j :: InState(slots, j, Dead) ==> !Accepts(slots[current].value, target, slots[j].value)
    ensures Sound(slots[current := Some(slots[current].value.(state := Waiting, target := target))], births, current)
  {
    var next := slots[current := Some(slots[current].value.(state := Waiting, target := target))];
    assert forall j :: Has(next, j) <==> Has(slots, j);
    WaitWaits(slots, current, target, c);
  }

  lemma WaitWaits(slots: Slots, current: nat, target: int, c: nat)
    requires NoLostWakeup(slots) && Expecting(slots) && Has(slots, current) && Has(slots, c)
    requires Accepts(slots[current].value, target, slots[c].value)
    requires slots[current].value.state == Ready || slots[current].value.state == Running
    requires forall j :: InState(slots, j, Dead) ==> !Accepts(slots[current].value, target, slots[j].value)
    ensures var next := slots[current := Some(slots[current].value.(state := Waiting, target := target))];
      NoLostWakeup(next) && Expecting(next)
  {
    var next := slots[current := Some(slots[current].value.(state := Waiting, target := target))];
    forall j | InState(next, j, Waiting) ensures exists d :: Awaits(next, j, d) {
      if j == current {
        assert Awaits(next, j, c);
      } else {
        assert InState(slots, j, Waiting);
        var d :| Awaits(slots, j, d);
        assert Awaits(next, j, d);
      }
    }
    forall j, d | Awaits(next, j, d) ensures next[d].value.state != Dead {
      assert j != current ==> Awaits(slots, j, d);
    }
  }

  /** Slot `j` holds the parent of slot `k`, and it is waiting. */
  predicate WaitingParent(slots: Slots, j: int, k: int) {
    InState(slots, j, Waiting) && Has(slots, k) && slots[j].value.pid == slots[k].value.parent
  }

  /** Whoever waits for a process is its parent. */
  lemma AwaitsIsParent(slots: Slots, j: int, k: int)
    requires Awaits(slots, j, k)
    ensures WaitingParent(slots, j, k)
  {
  }

  /** The current process is dead in `next` and its parent, if it was waiting, is ready; all else is as in `slots`. */
  ghost predicate Exited(slots: Slots, next: Slots, current: nat, code: int)
    requires Has(slots, current)
  {
    && |next| == |slots|
    && next[current] == Some(slots[current].value.(state := Dead, exitCode := code))
    && forall j :: 0 <= j < |slots| && j != current ==>
         next[j] == if WaitingParent(slots, j, current) then Some(slots[j].value.(state := Ready)) else slots[j]
  }

  /** After an exit nobody is left waiting for the dead. */
  lemma ExitSound(slots: Slots, births: nat, current: nat, next: Slots, code: int)
    requires Sound(slots, births, current) && Has(slots, current) && !InState(slots, current, Waiting)
    requires Exited(slots, next, current, code)
    ensures Sound(next, births, current)
  {
    assert forall j :: Has(next, j) <==> Has(slots, j);
    ExitForest(slots, births, current, next, code);
    ExitWaits(slots, current, next, code);
  }

  lemma ExitForest(slots: Slots, births: nat, current: nat, next: Slots, code: int)
    requires Forest(slots, births) && Has(slots, current) && Exited(slots, next, current, code)
    ensures Forest(next, births)
  {
    assert forall j :: Has(next, j) <==> Has(slots, j);
    assert forall j :: Has(slots, j) ==>
      next[j].value.(state := Dead, exitCode := 0) == slots[j].value.(state := Dead, exitCode := 0);
  }

  lemma ExitWaits(slots: Slots, current: nat, next: Slots, code: int)
    requires NoLostWakeup(slots) && Expecting(slots) && Has(slots, current) && !InState(slots, current, Waiting)
    requires Exited(slots, next, current, code)
    ensures NoLostWakeup(next) && Expecting(next)
  {
    assert forall j :: Has(next, j) <==> Has(slots, j);
    forall j, c | Awaits(next, j, c) ensures next[c].value.state != Dead {
      assert Awaits(slots, j, c);
      if c == current { AwaitsIsParent(slots, j, c); }
    }
    forall j | InState(next, j, Waiting) ensures exists c :: Awaits(next, j, c) {
      assert InState(slots, j, Waiting);
      var c :| Awaits(slots, j, c);
      assert Awaits(next, j, c);
    }
  }

  // ---------- Kills that wake nobody ----------

  /** A process marked Dead with nobody woken, as a page-fault kill or `tgkill` does. */
  function Killed(slots: Slots, k: nat): Slots
    requires Has(slots, k)
  {
    SetState(slots, k, Dead)
  }

  /** Such a kill keeps the invariants exactly when nobody was waiting for the victim. */
  lemma KillLosesWakeup(slots: Slots, births: nat, current: nat, k: nat)
    requires Sound(slots, births, current) && Has(slots, k)
    ensures Sound(Killed(slots, k), births, current) <==> !exists i :: i != k && Awaits(slots, i, k)
  {
    var next := Killed(slots, k);
    assert forall j :: Has(next, j) <==> Has(slots, j);
    SetStateForest(slots, births, k, Dead);
    if i :| i != k && Awaits(slots, i, k) {
      assert Awaits(next, i, k);
    } else {
      KillKeepsWaits(slots, k);
    }
  }

  lemma KillKeepsWaits(slots: Slots, k: nat)
    requires NoLostWakeup(slots) && Expecting(slots) && Has(slots, k) && !exists i :: i != k && Awaits(slots, i, k)
    ensures NoLostWakeup(Killed(slots, k)) && Expecting(Killed(slots, k))
  {
    var next := Killed(slots, k);
    assert forall j :: Has(next, j) <==> Has(slots, j);
    forall i, j | Awaits(next, i, j) ensures next[j].value.state != Dead { assert Awaits(slots, i, j); }
    forall i | InState(next, i, Waiting) ensures exists c :: Awaits(next, i, c) {
      assert InState(slots, i, Waiting);
      var c :| Awaits(slots, i, c);
      assert Awaits(next, i, c);
    }
  }
}
