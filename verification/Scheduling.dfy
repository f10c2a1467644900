/** The scheduler: round robin over the slots, and the steps of fork, wait4 and exit up to their call of `schedule`. */
module Scheduling {
  import opened Division
  import opened BuddyAllocator
  import opened Processes

  // ---------- Round robin ----------

  /** How many slots lie strictly between `cur` and `j`, going up and around a table of `len` slots. */
  function Distance(cur: nat, j: nat, len: nat): nat
    requires cur < len && j < len
  {
    if cur < j then j - cur - 1 else j + len - cur - 1
  }

  /** The slot that comes `i` slots after the one following `cur`. */
  function Around(cur: nat, i: nat, len: nat): nat
    requires cur < len && i < len
  {
    if cur + 1 + i < len then cur + 1 + i else cur + 1 + i - len
  }

  lemma ModOnce(x: nat, len: nat)
    requires 0 < len && x < 2 * len
    ensures x % len == if x < len then x else x - len
  {
    QuotientUnique(x, len, if x < len then 0 else 1);
  }

  /** The index arithmetic of the search visits the slots in that order. */
  lemma AroundIs(cur: nat, i: nat, len: nat)
    requires cur < len && i < len
    ensures ((cur + 1) % len + i) % len == Around(cur, i, len) < len && Distance(cur, Around(cur, i, len), len) == i
  {
    ModOnce(cur + 1, len);
    ModOnce((cur + 1) % len + i, len);
  }

  /** `j` is the Ready slot that comes first after `cur`. */
  ghost predicate IsNext(slots: Slots, cur: nat, j: nat)
    requires cur < |slots|
  {
    && InState(slots, j, Ready)
    && forall k :: InState(slots, k, Ready) ==> Distance(cur, j, |slots|) <= Distance(cur, k, |slots|)
  }

  /** Dispatching someone else brings a Ready slot strictly closer. */
  lemma CloserWhilePassed(slots: Slots, cur: nat, next: nat, j: nat)
    requires cur < |slots| && IsNext(slots, cur, next) && InState(slots, j, Ready) && j != next
    ensures Distance(next, j, |slots|) < Distance(cur, j, |slots|)
  {
  }

  // ---------- One call of schedule ----------

  /** Where a call of `schedule` goes: to another context, back to the caller, or to the idle context. */
  datatype Outcome = Switched(to: nat) | Stayed | Idle

  ghost predicate AnyReady(slots: Slots) {
    exists i :: InState(slots, i, Ready)
  }

  /** The table after the current process, if it was Running, has been put back among the Ready. */
  function Yielded(slots: Slots, current: nat, initialized: bool): Slots {
    if initialized && InState(slots, current, Running) then SetState(slots, current, Ready) else slots
  }

  /** The slot after which the search begins. */
  function Before(slots: Slots, current: nat, initialized: bool): nat
    requires |slots| > 0
  {
    if initialized then current else |slots| - 1
  }

  /**
   * What `schedule` requires of the table: a process that has run is still there, and before the first run none is
   * Running.
   */
  ghost predicate Scheduled(slots: Slots, births: nat, current: nat, initialized: bool) {
    && Sound(slots, births, current)
    && (initialized ==> Has(slots, current))
    && (!initialized ==> forall i :: !InState(slots, i, Running))
  }

  lemma YieldSound(slots: Slots, births: nat, current: nat, initialized: bool)
    requires Scheduled(slots, births, current, initialized)
    ensures var next := Yielded(slots, current, initialized);
      && Sound(next, births, current) && |next| == |slots| && (forall i :: !InState(next, i, Running))
      && (AnyReady(slots) ==> AnyReady(next))
  {
    var next := Yielded(slots, current, initialized);
    if initialized && InState(slots, current, Running) {
      SetStateForest(slots, births, current, Ready);
      ShuffleWaits(slots, current, Ready);
      assert forall j :: Has(next, j) <==> Has(slots, j);
    }
    if i :| InState(slots, i, Ready) { assert InState(next, i, Ready); }
  }

  lemma DispatchSound(slots: Slots, births: nat, current: nat, to: nat)
    requires Sound(slots, births, current) && InState(slots, to, Ready) && forall i :: !InState(slots, i, Running)
    ensures Sound(SetState(slots, to, Running), births, to)
  {
    SetStateForest(slots, births, to, Running);
    ShuffleWaits(slots, to, Running);
    var next := SetState(slots, to, Running);
    forall i | Has(next, i) && next[i].value.state == Running ensures i == to {
      assert !InState(slots, i, Running);
    }
  }

  /** With nothing Ready, a current process that is not dead was Running: a waiting one always finds another to run. */
  lemma StaysRunning(slots: Slots, births: nat, current: nat)
    requires Sound(slots, births, current) && Has(slots, current) && !AnyReady(slots)
    ensures slots[current].value.state == Running || AllDead(slots)
  {
    forall i ensures !InState(slots, i, Ready) {}
    if !InState(slots, current, Running) {
      forall i ensures !InState(slots, i, Running) {}
      NobodyLeft(slots, births, current);
    }
  }

  /** The current process has yielded and `to` is the next Ready slot after it, now Running. */
  ghost predicate SwitchedTo(slots: Slots, current: nat, initialized: bool, next: Slots, to: nat) {
    var was := Yielded(slots, current, initialized);
    && |was| > 0
    && Before(was, current, initialized) < |was|
    && IsNext(was, Before(was, current, initialized), to)
    && next == SetState(was, to, Running)
  }

  /** Everything a call of `schedule` does: where it goes, and the table and current slot afterwards. */
  ghost predicate ScheduleMeans(slots: Slots, current: nat, initialized: bool, r: Outcome, next: Slots, now: nat,
                                started: bool)
  {
    match r
    case Switched(to) => AnyReady(slots) && SwitchedTo(slots, current, initialized, next, to) && now == to && started
    case Stayed => !AnyReady(slots) && !(initialized && InState(slots, current, Dead)) &&
      next == Yielded(slots, current, initialized) && now == current && started == initialized
    case Idle =>
      !AnyReady(slots) && initialized && InState(slots, current, Dead) && next == slots && now == current && started
  }

  /** The current process has exited, its parent was woken, and `schedule` was called. */
  ghost predicate ExitMeans(slots: Slots, current: nat, code: int, r: Outcome, next: Slots, now: nat, started: bool) {
    && Has(slots, current)
    && exists mid :: Exited(slots, mid, current, code) && ScheduleMeans(mid, current, true, r, next, now, started)
  }

  /** The table with the current process asleep in a wait for `target`. */
  function SleepIn(slots: Slots, current: nat, target: int): Slots
    requires Has(slots, current)
  {
    slots[current := Some(slots[current].value.(state := Waiting, target := target))]
  }

  /** Same processes in the same slots. */
  ghost predicate SameProcesses(slots: Slots, next: Slots) {
    && |next| == |slots|
    && forall i :: (Has(next, i) <==> Has(slots, i)) && (Has(slots, i) ==> next[i].value.id == slots[i].value.id)
  }

  // ---------- Reaping ----------

  datatype Reaping = Reaping(reaper: nat, child: Process)

  /** Every reaped process was reaped by its own parent, once, and is gone for good. */
  ghost predicate Logged(log: seq<Reaping>, slots: Slots, births: nat) {
    && (forall k :: 0 <= k < |log| ==> log[k].child.parentId == log[k].reaper && log[k].child.id < births)
    && (forall k, l :: 0 <= k < l < |log| ==> log[k].child.id != log[l].child.id)
    && (forall k, i :: 0 <= k < |log| && Has(slots, i) ==> slots[i].value.id != log[k].child.id)
  }

  lemma LoggedSame(log: seq<Reaping>, slots: Slots, next: Slots, births: nat)
    requires Logged(log, slots, births) && SameProcesses(slots, next)
    ensures Logged(log, next, births)
  {
  }

  lemma LoggedFork(log: seq<Reaping>, slots: Slots, births: nat, next: Slots, p: Process, i: nat)
    requires Logged(log, slots, births) && Inserted(slots, next, p, i) && p.id == births
    ensures Logged(log, next, births + 1)
  {
    InsertedAt(slots, next, p, i);
  }

  lemma LoggedReap(log: seq<Reaping>, slots: Slots, births: nat, current: nat, k: nat)
    requires Logged(log, slots, births) && Forest(slots, births) && Has(slots, k) && Has(slots, current) && k != current
    requires slots[k].value.parent == slots[current].value.pid
    ensures Logged(log + [Reaping(slots[current].value.id, slots[k].value)], slots[k := None], births)
  {
    var next := slots[k := None];
    assert forall j :: Has(next, j) <==> j != k && Has(slots, j);
  }

  datatype WaitResult = Reaped(pid: nat, status: int) | NoChild | NotYet | Slept(to: nat)

  /** A dead child of the current process that the wait accepts. */
  predicate Zombie(slots: Slots, current: nat, target: int, i: int)
    requires Has(slots, current)
  {
    InState(slots, i, Dead) && Accepts(slots[current].value, target, slots[i].value)
  }

  predicate Child(slots: Slots, current: nat, target: int, i: int)
    requires Has(slots, current)
  {
    Has(slots, i) && Accepts(slots[current].value, target, slots[i].value)
  }

  /** The pid is above every pid and every parent's pid in the table. */
  ghost predicate NewPid(slots: Slots, pid: nat) {
    forall i :: Has(slots, i) ==> slots[i].value.pid < pid && slots[i].value.parent < pid
  }

  predicate FirstEmpty(slots: Slots, i: nat) {
    forall j :: 0 <= j < i && j < |slots| ==> slots[j].Some?
  }

  /** One new process, a Ready child of the current one with pid `pid`, in the first empty slot or at the end. */
  ghost predicate ChildAdded(slots: Slots, current: nat, births: nat, next: Slots, pid: nat) {
    Has(slots, current) &&
    var me := slots[current].value;
    exists i: nat :: Inserted(slots, next, Process(pid, me.pid, Ready, 0, births, me.id, 0), i) && FirstEmpty(slots, i)
  }

  ghost predicate ReapedAt(slots: Slots, current: nat, target: int, next: Slots, k: nat, pid: nat, status: int) {
    && Has(slots, current) && Zombie(slots, current, target, k)
    && (forall j :: 0 <= j < k ==> !Zombie(slots, current, target, j))
    && next == slots[k := None] && pid == slots[k].value.pid && status == slots[k].value.exitCode % 256 * 256
  }

  /** The wait accepts some child, and no dead one. */
  ghost predicate StillAlive(slots: Slots, current: nat, target: int) {
    && Has(slots, current)
    && (exists c :: Child(slots, current, target, c))
    && forall j :: !Zombie(slots, current, target, j)
  }

  predicate Asleep(slots: Slots, i: nat, target: int) {
    InState(slots, i, Waiting) && slots[i].value.target == target
  }

  /** The first matching dead child is gone from the table and appears in the log under the caller. */
  ghost predicate ReapMeans(slots: Slots, current: nat, log: seq<Reaping>, target: int, pid: nat, status: int,
                            next: Slots, entries: seq<Reaping>)
  {
    exists k: nat ::
      && ReapedAt(slots, current, target, next, k, pid, status)
      && entries == log + [Reaping(slots[current].value.id, slots[k].value)]
  }

  /** Slot `j` holds a child of the process with pid `parent`, and the one with pid `target` if that is positive. */
  predicate Wanted(slots: Slots, parent: nat, target: int, j: int) {
    && 0 <= j < |slots| && slots[j].Some?
    && slots[j].value.parent == parent
    && (target > 0 ==> slots[j].value.pid == target)
  }

  /**
   * What the process with pid `me` learns from each result: the pid and exit code of the first of its dead children
   * that it asked for, that it has no child that it asked for, or that it has one and all such are alive.
   */
  ghost predicate Answers(slots: Slots, me: nat, target: int, r: WaitResult, next: Slots) {
    match r
    case Reaped(pid, status) =>
      exists k: nat :: Wanted(slots, me, target, k) && slots[k].value.state == Dead && next == slots[k := None] &&
        pid == slots[k].value.pid && status % 256 == 0 && status / 256 == slots[k].value.exitCode % 256 &&
        forall j :: 0 <= j < k && Wanted(slots, me, target, j) ==> slots[j].value.state != Dead
    case NoChild => forall j :: !Wanted(slots, me, target, j)
    case NotYet => WantedAlive(slots, me, target)
    case Slept(_) => WantedAlive(slots, me, target)
  }

  ghost predicate WantedAlive(slots: Slots, me: nat, target: int) {
    && (exists j :: Wanted(slots, me, target, j))
    && (forall j :: Wanted(slots, me, target, j) ==> slots[j].value.state != Dead)
  }

  /** Acceptance, on the fields. */
  lemma AcceptsWanted(slots: Slots, current: nat, target: int, j: int)
    requires Has(slots, current)
    ensures Child(slots, current, target, j) <==> Wanted(slots, slots[current].value.pid, target, j)
    ensures Zombie(slots, current, target, j) <==>
      Wanted(slots, slots[current].value.pid, target, j) && slots[j].value.state == Dead
  {
  }

  lemma MeansAnswers(slots: Slots, current: nat, log: seq<Reaping>, target: int, nohang: bool, r: WaitResult,
                     next: Slots, now: nat, entries: seq<Reaping>)
    requires Has(slots, current) && WaitMeans(slots, current, log, target, nohang, r, next, now, entries)
    ensures Answers(slots, slots[current].value.pid, target, r, next)
  {
    var me := slots[current].value.pid;
    forall j
      ensures Child(slots, current, target, j) <==> Wanted(slots, me, target, j)
      ensures Zombie(slots, current, target, j) <==> Wanted(slots, me, target, j) && slots[j].value.state == Dead
    {
      AcceptsWanted(slots, current, target, j);
    }
    match r
    case Reaped(pid, status) =>
      var k: nat :| ReapedAt(slots, current, target, next, k, pid, status) &&
                    entries == log + [Reaping(slots[current].value.id, slots[k].value)];
      assert ReapedAt(slots, current, target, next, k, pid, status);
      assert Zombie(slots, current, target, k);
      assert Wanted(slots, me, target, k);
    case NoChild =>
    case NotYet =>
      var c :| Child(slots, current, target, c);
      assert Wanted(slots, me, target, c);
    case Slept(_) =>
      var c :| Child(slots, current, target, c);
      assert Wanted(slots, me, target, c);
  }

  /** What each result of `wait4` says about the table before and after. */
  ghost predicate WaitMeans(slots: Slots, current: nat, log: seq<Reaping>, target: int, nohang: bool, r: WaitResult,
                            next: Slots, now: nat, entries: seq<Reaping>)
  {
    match r
    case Reaped(pid, status) => ReapMeans(slots, current, log, target, pid, status, next, entries) && now == current
    case NoChild => next == slots && entries == log && now == current && NoChildAt(slots, current, target)
    case NotYet => next == slots && entries == log && now == current && nohang && StillAlive(slots, current, target)
    case Slept(to) =>
      && entries == log && !nohang && StillAlive(slots, current, target) && now == to != current
      && Asleep(next, current, target) && SwitchedTo(SleepIn(slots, current, target), current, true, next, to)
  }

  ghost predicate NoChildAt(slots: Slots, current: nat, target: int) {
    Has(slots, current) && forall j :: !Child(slots, current, target, j)
  }

  /** A process that waits leaves somebody Ready. */
  lemma WaiterYields(slots: Slots, births: nat, current: nat)
    requires Sound(slots, births, current) && InState(slots, current, Waiting)
    ensures AnyReady(slots)
  {
    if !AnyReady(slots) { StaysRunning(slots, births, current); }
  }

  lemma SwitchKeeps(slots: Slots, current: nat, next: Slots, to: nat)
    requires Has(slots, current) && slots[current].value.state != Running && SwitchedTo(slots, current, true, next, to)
    ensures SameProcesses(slots, next) && InState(next, to, Running)
    ensures slots[current].value.state != Ready ==> next[current] == slots[current] && to != current
    ensures forall j :: Has(slots, j) && j != to ==> next[j] == slots[j]
  {
  }

  lemma TickSame(slots: Slots, current: nat, next: Slots, to: nat, r: Outcome)
    requires Has(slots, current) && slots[current].value.state != Dead
    requires r.Switched? ==> SwitchedTo(slots, current, true, next, to)
    requires r.Stayed? ==> next == Yielded(slots, current, true)
    requires r.Idle? ==> next == slots && AllDead(slots)
    ensures SameProcesses(slots, next) && !r.Idle? && (r.Switched? ==> InState(next, to, Running))
  {
  }

  /**
   * After an exit and the dispatch that follows, the dead process stays as it was left and its parent is not waiting.
   */
  lemma ExitScheduled(slots: Slots, current: nat, exited: Slots, code: int, next: Slots, to: nat, r: Outcome)
    requires Has(slots, current) && Exited(slots, exited, current, code)
    requires r.Switched? ==> SwitchedTo(exited, current, true, next, to)
    requires !r.Switched? ==> next == exited
    ensures SameProcesses(slots, next)
    ensures Has(next, current) && next[current] == exited[current]
    ensures forall j :: !WaitingParent(next, j, current)
  {
    if r.Switched? { SwitchKeeps(exited, current, next, to); }
    assert forall j :: Has(exited, j) <==> Has(slots, j);
    forall j ensures !WaitingParent(next, j, current) {
      assert !WaitingParent(exited, j, current);
    }
  }

  // ---------- Whole runs ----------

  /**
   * One call of `schedule` keeps every invariant, returns only to a live caller, and goes idle only when all are dead.
   */
  lemma ScheduleSound(slots: Slots, births: nat, current: nat, initialized: bool, r: Outcome, next: Slots, now: nat,
                      started: bool)
    requires Scheduled(slots, births, current, initialized)
    requires ScheduleMeans(slots, current, initialized, r, next, now, started)
    ensures Scheduled(next, births, now, started) && SameProcesses(slots, next)
    ensures r.Switched? ==> InState(next, now, Running)
    ensures r.Stayed? && initialized ==> InState(next, now, Ready)
    ensures r.Idle? ==> AllDead(next)
  {
    YieldSound(slots, births, current, initialized);
    if initialized && !AnyReady(slots) { StaysRunning(slots, births, current); }
    if r.Switched? {
      DispatchSound(Yielded(slots, current, initialized), births, current, r.to);
      assert InState(next, now, Running);
    }
  }

  /** The process table at one moment of a run, between two steps. */
  datatype Moment = Moment(slots: Slots, current: nat, births: nat, log: seq<Reaping>, idle: bool)

  /** All invariants hold, and either a live process executes or every process is dead. */
  ghost predicate GoodMoment(a: Moment) {
    && Scheduled(a.slots, a.births, a.current, true) && Logged(a.log, a.slots, a.births)
    && (if a.idle then AllDead(a.slots) else InState(a.slots, a.current, Running) || InState(a.slots, a.current, Ready))
  }

  ghost predicate Forks(a: Moment, b: Moment, pid: nat) {
    && NewPid(a.slots, pid) && ChildAdded(a.slots, a.current, a.births, b.slots, pid)
    && b == Moment(b.slots, a.current, a.births + 1, a.log, false)
  }

  ghost predicate Waits(a: Moment, b: Moment, target: int, nohang: bool, r: WaitResult) {
    && WaitMeans(a.slots, a.current, a.log, target, nohang, r, b.slots, b.current, b.log)
    && Has(a.slots, a.current) && Answers(a.slots, a.slots[a.current].value.pid, target, r, b.slots)
    && b == Moment(b.slots, b.current, a.births, b.log, false)
  }

  ghost predicate Exits(a: Moment, b: Moment, code: int, r: Outcome) {
    && ExitMeans(a.slots, a.current, code, r, b.slots, b.current, true)
    && b == Moment(b.slots, b.current, a.births, a.log, r.Idle?)
  }

  ghost predicate Ticks(a: Moment, b: Moment, r: Outcome) {
    && ScheduleMeans(a.slots, a.current, true, r, b.slots, b.current, true)
    && b == Moment(b.slots, b.current, a.births, a.log, false)
  }

  /** The answer, in terms of the pid asked for. */
  lemma AnswerMeans(a: Moment, target: int, nohang: bool, r: WaitResult, b: Moment)
    requires Has(a.slots, a.current)
    requires WaitMeans(a.slots, a.current, a.log, target, nohang, r, b.slots, b.current, b.log)
    ensures var me := a.slots[a.current].value.pid;
      && Answers(a.slots, me, target, r, b.slots)
      && (r.Reaped? && target > 0 ==> r.pid == target)
      && (r.NoChild? <==> Childless(a.slots, me, target))
      && (r.Slept? && target > 0 ==> LiveChild(b.slots, me, target))
  {
    var me := a.slots[a.current].value.pid;
    MeansAnswers(a.slots, a.current, a.log, target, nohang, r, b.slots, b.current, b.log);
    forall j
      ensures Wanted(a.slots, me, target, j) <==>
        Has(a.slots, j) && a.slots[j].value.parent == me && (target <= 0 || a.slots[j].value.pid == target)
    {
    }
    if r.Slept? && target > 0 {
      var j :| Wanted(a.slots, me, target, j);
      SwitchKeeps(SleepIn(a.slots, a.current, target), a.current, b.slots, r.to);
      assert b.slots[j].value.pid == target;
    }
  }

  /** The process with pid `parent` has no child, or none with pid `target` if that is positive. */
  ghost predicate Childless(slots: Slots, parent: nat, target: int) {
    forall j :: Has(slots, j) ==> !(slots[j].value.parent == parent && (target <= 0 || slots[j].value.pid == target))
  }

  /** The process with pid `parent` has a child with pid `pid` that is not dead. */
  ghost predicate LiveChild(slots: Slots, parent: nat, pid: int) {
    exists j :: Has(slots, j) && slots[j].value.parent == parent && slots[j].value.pid == pid &&
      slots[j].value.state != Dead
  }

  /** A step of the executing process: fork, one pass of wait4, exit, or a timer tick. */
  ghost predicate Follows(a: Moment, b: Moment) {
    !a.idle &&
    ((exists pid :: Forks(a, b, pid)) || (exists target, nohang, r :: Waits(a, b, target, nohang, r)) ||
     (exists code, r :: Exits(a, b, code, r)) || (exists r :: Ticks(a, b, r)))
  }

  lemma ForksGood(a: Moment, b: Moment, pid: nat)
    requires GoodMoment(a) && !a.idle && Forks(a, b, pid)
    ensures GoodMoment(b)
  {
    var p := Process(pid, a.slots[a.current].value.pid, Ready, 0, a.births, a.slots[a.current].value.id, 0);
    var i: nat :| Inserted(a.slots, b.slots, p, i) && FirstEmpty(a.slots, i);
    ForkSound(a.slots, a.births, a.current, b.slots, p, i, a.current);
    LoggedFork(a.log, a.slots, a.births, b.slots, p, i);
    InsertedAt(a.slots, b.slots, p, i);
  }

  lemma WaitsGood(a: Moment, b: Moment, target: int, nohang: bool, r: WaitResult)
    requires GoodMoment(a) && !a.idle && Waits(a, b, target, nohang, r)
    ensures GoodMoment(b)
  {
    match r
    case Reaped(pid, status) =>
      var k: nat :| ReapedAt(a.slots, a.current, target, b.slots, k, pid, status) &&
                    b.log == a.log + [Reaping(a.slots[a.current].value.id, a.slots[k].value)];
      assert ReapedAt(a.slots, a.current, target, b.slots, k, pid, status);
      ReapSound(a.slots, a.births, a.current, k);
      LoggedReap(a.log, a.slots, a.births, a.current, k);
    case NoChild =>
    case NotYet =>
    case Slept(to) =>
      var c :| Child(a.slots, a.current, target, c);
      forall j | InState(a.slots, j, Dead) ensures !Accepts(a.slots[a.current].value, target, a.slots[j].value) {
        assert !Zombie(a.slots, a.current, target, j);
      }
      WaitSound(a.slots, a.births, a.current, target, c);
      SleepGood(a, b, target, to);
  }

  lemma SleepGood(a: Moment, b: Moment, target: int, to: nat)
    requires GoodMoment(a) && Has(a.slots, a.current) && Sound(SleepIn(a.slots, a.current, target), a.births, a.current)
    requires SwitchedTo(SleepIn(a.slots, a.current, target), a.current, true, b.slots, to)
    requires b == Moment(b.slots, to, a.births, a.log, false)
    ensures GoodMoment(b)
  {
    var waiting := SleepIn(a.slots, a.current, target);
    WaiterYields(waiting, a.births, a.current);
    ScheduleSound(waiting, a.births, a.current, true, Switched(to), b.slots, to, true);
    LoggedSame(a.log, a.slots, b.slots, a.births);
  }

  lemma ExitsGood(a: Moment, b: Moment, code: int, r: Outcome)
    requires GoodMoment(a) && !a.idle && Exits(a, b, code, r)
    ensures GoodMoment(b)
  {
    var mid: Slots :| Exited(a.slots, mid, a.current, code) &&
                     ScheduleMeans(mid, a.current, true, r, b.slots, b.current, true);
    ExitSound(a.slots, a.births, a.current, mid, code);
    ScheduleSound(mid, a.births, a.current, true, r, b.slots, b.current, true);
    ExitSame(a.slots, mid, a.current, code);
    LoggedSame(a.log, a.slots, mid, a.births);
    LoggedSame(a.log, mid, b.slots, a.births);
    assert mid[a.current].value.state == Dead;
  }

  lemma ExitSame(slots: Slots, mid: Slots, current: nat, code: int)
    requires Has(slots, current) && Exited(slots, mid, current, code)
    ensures SameProcesses(slots, mid)
  {
  }

  lemma TicksGood(a: Moment, b: Moment, r: Outcome)
    requires GoodMoment(a) && !a.idle && Ticks(a, b, r)
    ensures GoodMoment(b)
  {
    ScheduleSound(a.slots, a.births, a.current, true, r, b.slots, b.current, true);
    LoggedSame(a.log, a.slots, b.slots, a.births);
  }

  lemma FollowsGood(a: Moment, b: Moment)
    requires GoodMoment(a) && Follows(a, b)
    ensures GoodMoment(b)
  {
    if pid :| Forks(a, b, pid) {
      ForksGood(a, b, pid);
    } else if target, nohang, r :| Waits(a, b, target, nohang, r) {
      WaitsGood(a, b, target, nohang, r);
    } else if code, r :| Exits(a, b, code, r) {
      ExitsGood(a, b, code, r);
    } else {
      var r :| Ticks(a, b, r);
      TicksGood(a, b, r);
    }
  }

  ghost predicate IsRun(run: seq<Moment>) {
    |run| > 0 && forall k :: 0 <= k < |run| - 1 ==> Follows(run[k], run[k + 1])
  }

  /**
   * In every run of forks, waits, exits and ticks, at every moment: pids form a forest, each process was reaped at most
   * once and by its own parent, nobody waits for the dead, whoever waits has a live child of larger pid that matches,
   * and the CPU is idle only when every process is dead.
   */
  lemma {:induction false} RunsStayGood(run: seq<Moment>, k: nat)
    requires IsRun(run) && GoodMoment(run[0]) && k < |run|
    ensures GoodMoment(run[k])
  {
    if k > 0 {
      RunsStayGood(run, k - 1);
      assert Follows(run[k - 1], run[k - 1 + 1]);
      FollowsGood(run[k - 1], run[k]);
    }
  }

  /** The first process is registered alone, and the first call of `schedule` has gone to it. */
  ghost predicate Booted(a: Moment) {
    && ScheduleMeans([Some(FIRST_PROCESS)], 0, false, Switched(a.current), a.slots, a.current, true)
    && a == Moment(a.slots, a.current, 2, [], false)
  }

  const FIRST_PROCESS: Process := Process(1, 0, Ready, 0, 1, 0, 0)

  lemma BootGood(a: Moment)
    requires Booted(a)
    ensures GoodMoment(a)
  {
    var slots := [Some(FIRST_PROCESS)];
    assert forall i :: Has(slots, i) ==> i == 0;
    ScheduleSound(slots, 2, 0, false, Switched(a.current), a.slots, a.current, true);
  }

  /** So much holds at every moment after boot, however long the run. */
  lemma RunsFromBoot(run: seq<Moment>, k: nat)
    requires IsRun(run) && Booted(run[0]) && k < |run|
    ensures GoodMoment(run[k])
  {
    BootGood(run[0]);
    RunsStayGood(run, k);
  }

  /**
   * At every moment after boot, whoever waits has a child that is not dead and no dead one that it waits for: of
   * exactly the pid it asked for, if it asked for one.
   */
  lemma WaitersAreOwed(run: seq<Moment>, k: nat, i: nat)
    requires IsRun(run) && Booted(run[0]) && k < |run| && InState(run[k].slots, i, Waiting)
    ensures WantedAlive(run[k].slots, run[k].slots[i].value.pid, run[k].slots[i].value.target)
  {
    RunsFromBoot(run, k);
    var slots := run[k].slots;
    var p := slots[i].value;
    forall j ensures Awaits(slots, i, j) <==> Wanted(slots, p.pid, p.target, j) {
      AcceptsWanted(slots, i, p.target, j);
    }
    var c :| Awaits(slots, i, c);
    assert Wanted(slots, p.pid, p.target, c);
    forall j | Wanted(slots, p.pid, p.target, j) ensures slots[j].value.state != Dead { assert Awaits(slots, i, j); }
  }

  // ---------- Nobody is passed over for long ----------

  /** The step called `schedule`: a tick, an exit, or a wait that put the caller to sleep. */
  ghost predicate Dispatching(a: Moment, b: Moment) {
    (exists r :: Ticks(a, b, r)) || (exists code, r :: Exits(a, b, code, r)) ||
    exists target, nohang, to :: Waits(a, b, target, nohang, Slept(to))
  }

  /** How many of the first `n` steps of a run called `schedule`. */
  ghost function Dispatches(run: seq<Moment>, n: nat): nat
    requires n < |run|
  {
    if n == 0 then 0 else Dispatches(run, n - 1) + (if Dispatching(run[n - 1], run[n]) then 1 else 0)
  }

  /** A switch that passes over a slot which is still Ready afterwards brings that slot closer. */
  lemma SwitchCloser(slots: Slots, current: nat, next: Slots, to: nat, j: nat)
    requires SwitchedTo(slots, current, true, next, to) && InState(next, j, Ready) && current < |slots|
    ensures |next| == |slots| && Distance(to, j, |next|) < Distance(current, j, |slots|)
  {
    var was := Yielded(slots, current, true);
    assert InState(was, j, Ready) && j != to;
    CloserWhilePassed(was, current, to, j);
  }

  lemma DispatchCloser(a: Moment, b: Moment, j: nat)
    requires GoodMoment(a) && Dispatching(a, b) && InState(a.slots, j, Ready) && InState(b.slots, j, Ready)
    ensures |b.slots| == |a.slots| && b.current < |b.slots| && a.current < |a.slots|
    ensures Distance(b.current, j, |b.slots|) < Distance(a.current, j, |a.slots|)
  {
    if r :| Ticks(a, b, r) {
      assert AnyReady(a.slots);
      SwitchCloser(a.slots, a.current, b.slots, b.current, j);
    } else if code, r :| Exits(a, b, code, r) {
      var mid: Slots :| Exited(a.slots, mid, a.current, code) &&
                       ScheduleMeans(mid, a.current, true, r, b.slots, b.current, true);
      assert InState(mid, a.current, Dead);
      ExitGoesOn(mid, a.current, r, b.slots, b.current, j);
      SwitchCloser(mid, a.current, b.slots, b.current, j);
    } else {
      var target, nohang, to :| Waits(a, b, target, nohang, Slept(to));
      SwitchCloser(SleepIn(a.slots, a.current, target), a.current, b.slots, to, j);
    }
  }

  /** After an exit, `schedule` switches if a slot is Ready afterwards. */
  lemma ExitGoesOn(slots: Slots, current: nat, r: Outcome, next: Slots, now: nat, j: nat)
    requires InState(slots, current, Dead) && ScheduleMeans(slots, current, true, r, next, now, true)
    requires InState(next, j, Ready)
    ensures r.Switched?
  {
    assert !r.Switched? ==> InState(slots, j, Ready);
  }

  /** Any other step leaves the current slot alone and makes the table at most one slot longer. */
  lemma OtherStep(a: Moment, b: Moment, j: nat)
    requires GoodMoment(a) && Follows(a, b) && !Dispatching(a, b) && InState(a.slots, j, Ready)
    requires InState(b.slots, j, Ready)
    ensures |a.slots| <= |b.slots| && b.current < |b.slots| && a.current < |a.slots|
    ensures Distance(b.current, j, |b.slots|) <= Distance(a.current, j, |a.slots|) + |b.slots| - |a.slots|
  {
    if pid :| Forks(a, b, pid) {
      assert b.current == a.current;
    } else if target, nohang, r :| Waits(a, b, target, nohang, r) {
      assert !r.Slept?;
      assert b.current == a.current && |b.slots| == |a.slots|;
    }
  }

  lemma {:induction false} PassedOver(run: seq<Moment>, n: nat, j: nat)
    requires IsRun(run) && GoodMoment(run[0]) && n < |run|
    requires forall k :: 0 <= k <= n ==> InState(run[k].slots, j, Ready)
    ensures InState(run[n].slots, j, Ready) && InState(run[0].slots, j, Ready)
    ensures run[n].current < |run[n].slots| && run[0].current < |run[0].slots|
    ensures Dispatches(run, n) + Distance(run[n].current, j, |run[n].slots|) <=
      Distance(run[0].current, j, |run[0].slots|) + |run[n].slots| - |run[0].slots|
  {
    if n > 0 {
      PassedOver(run, n - 1, j);
      RunsStayGood(run, n - 1);
      assert Follows(run[n - 1], run[n - 1 + 1]);
      assert InState(run[n - 1].slots, j, Ready) && InState(run[n].slots, j, Ready);
      if Dispatching(run[n - 1], run[n]) {
        DispatchCloser(run[n - 1], run[n], j);
      } else {
        OtherStep(run[n - 1], run[n], j);
      }
    }
  }

  /**
   * While a slot stays Ready, `schedule` is called fewer times than the table has slots: then the slot is dispatched.
   */
  lemma BoundedBypass(run: seq<Moment>, n: nat, j: nat)
    requires IsRun(run) && GoodMoment(run[0]) && n < |run|
    requires forall k :: 0 <= k <= n ==> InState(run[k].slots, j, Ready)
    ensures Dispatches(run, n) < |run[n].slots|
  {
    PassedOver(run, n, j);
    assert InState(run[0].slots, j, Ready);
  }

  // ---------- A kill after boot ----------

  /** The first process forks and waits for its child: a run after which killing the child strands the parent. */
  lemma KillStrandsParent() returns (run: seq<Moment>)
    ensures IsRun(run) && Booted(run[0]) && Has(run[|run| - 1].slots, run[|run| - 1].current)
    ensures var last := run[|run| - 1]; var after := Killed(last.slots, last.current);
      && !NoLostWakeup(after) && !AllDead(after)
      && forall i :: !InState(after, i, Ready) && !InState(after, i, Running)
  {
    var first, child := FIRST_PROCESS, Process(2, 1, Ready, 0, 2, 1, 0);
    var boot := Moment([Some(first.(state := Running))], 0, 2, [], false);
    var forked := Moment([Some(first.(state := Running)), Some(child)], 0, 3, [], false);
    var asleep := [Some(first.(state := Waiting, target := -1)), Some(child)];
    var slept := Moment([asleep[0], Some(child.(state := Running))], 1, 3, [], false);
    BootsTo(boot);
    ForksTo(boot, forked, child);
    SleepsTo(forked, slept, asleep, child);
    run := [boot, forked, slept];
    var after := Killed(slept.slots, 1);
    assert after == [asleep[0], Some(child.(state := Dead))];
    assert Awaits(after, 0, 1) && InState(after, 0, Waiting);
    assert forall i :: Has(after, i) ==> i == 0 || i == 1;
  }

  lemma BootsTo(a: Moment)
    requires a == Moment([Some(FIRST_PROCESS.(state := Running))], 0, 2, [], false)
    ensures Booted(a)
  {
    var slots := [Some(FIRST_PROCESS)];
    assert InState(slots, 0, Ready) && forall i :: Has(slots, i) ==> i == 0;
  }

  lemma ForksTo(a: Moment, b: Moment, child: Process)
    requires a == Moment([Some(FIRST_PROCESS.(state := Running))], 0, 2, [], false)
    requires child == Process(2, 1, Ready, 0, 2, 1, 0)
    requires b == Moment([a.slots[0], Some(child)], 0, 3, [], false)
    ensures Follows(a, b)
  {
    assert forall i :: Has(a.slots, i) ==> i == 0;
    assert Inserted(a.slots, b.slots, child, 1) && FirstEmpty(a.slots, 1);
    assert Forks(a, b, 2);
  }

  lemma SleepsTo(a: Moment, b: Moment, asleep: Slots, child: Process)
    requires child == Process(2, 1, Ready, 0, 2, 1, 0)
    requires a == Moment([Some(FIRST_PROCESS.(state := Running)), Some(child)], 0, 3, [], false)
    requires asleep == [Some(FIRST_PROCESS.(state := Waiting, target := -1)), Some(child)]
    requires b == Moment([asleep[0], Some(child.(state := Running))], 1, 3, [], false)
    ensures Follows(a, b)
  {
    assert asleep == SleepIn(a.slots, 0, -1);
    assert forall i :: Has(a.slots, i) || Has(asleep, i) ==> i == 0 || i == 1;
    assert Child(a.slots, 0, -1, 1);
    assert SwitchedTo(asleep, 0, true, b.slots, 1);
    AnswerMeans(a, -1, false, Slept(1), b);
    assert Waits(a, b, -1, false, Slept(1));
  }

  class Scheduler {
    var processes: seq<Option<Process>>
    var currentIdx: nat
    var initialized: bool
    var births: nat
    ghost var log: seq<Reaping>

    constructor ()
      ensures processes == [] && !initialized && births == 1 && log == [] && Valid()
    {
      processes := [];
      currentIdx := 0;
      initialized := false;
      births := 1;
      log := [];
    }

    ghost predicate Valid()
      reads this
    {
      Scheduled(processes, births, currentIdx, initialized) && Logged(log, processes, births)
    }

    /** The current process is the one that executes: it may be marked Ready, but it neither waits nor is dead. */
    ghost predicate Executing()
      reads this
    {
      Valid() && initialized && (InState(processes, currentIdx, Running) || InState(processes, currentIdx, Ready))
    }

    ghost function Now(): Moment
      reads this
    {
      Moment(processes, currentIdx, births, log, false)
    }

    /** Puts a process into the first empty slot, or into a new one. */
    method AddProcess(p: Process) returns (i: nat)
      modifies this`processes
      ensures Inserted(old(processes), processes, p, i)
      ensures FirstEmpty(old(processes), i)
    {
      i := 0;
      while i < |processes|
        invariant i <= |processes| && forall j :: 0 <= j < i ==> processes[j].Some?
      {
        if processes[i].None? {
          processes := processes[i := Some(p)];
          return;
        }
        i := i + 1;
      }
      processes := processes + [Some(p)];
    }

    /** One more than the largest pid in use. */
    method AllocPid() returns (pid: nat)
      ensures pid > 0 && PidsBelow(processes, pid)
      ensures pid == 1 || exists i :: Has(processes, i) && processes[i].value.pid == pid - 1
    {
      var max: nat := 0;
      for i := 0 to |processes|
        invariant forall j :: 0 <= j < i && processes[j].Some? ==> processes[j].value.pid <= max
        invariant max == 0 || exists j :: Has(processes, j) && processes[j].value.pid == max
      {
        if processes[i].Some? && processes[i].value.pid > max {
          max := processes[i].value.pid;
          assert Has(processes, i);
        }
      }
      return max + 1;
    }

    method HasReady() returns (b: bool)
      ensures b <==> AnyReady(processes)
    {
      for i := 0 to |processes|
        invariant forall j :: 0 <= j < i ==> !InState(processes, j, Ready)
      {
        if processes[i].Some? && processes[i].value.state == Ready {
          assert InState(processes, i, Ready);
          return true;
        }
      }
      return false;
    }

    /** The slot that the search looks at in its `i`-th step. */
    method SearchSlot(i: nat) returns (idx: nat)
      requires i < |processes| && (initialized ==> currentIdx < |processes|)
      ensures idx == Around(Before(processes, currentIdx, initialized), i, |processes|)
    {
      var len := |processes|;
      AroundIs(Before(processes, currentIdx, initialized), i, len);
      ModOnce(len, len);
      var start := if initialized then (currentIdx + 1) % len else 0;
      return (start + i) % len;
    }

    /** Makes the next Ready slot in cyclic order the current one. */
    method NextProcess() returns (r: Option<nat>)
      requires initialized ==> currentIdx < |processes|
      modifies this`currentIdx, this`initialized
      ensures r.None? <==> !AnyReady(processes)
      ensures r.None? ==> currentIdx == old(currentIdx) && initialized == old(initialized)
      ensures r.Some? ==> currentIdx == r.value && initialized && |processes| > 0
      ensures r.Some? ==> IsNext(processes, Before(processes, old(currentIdx), old(initialized)), r.value)
    {
      var len := |processes|;
      if len == 0 { return None; }
      ghost var cur := Before(processes, currentIdx, initialized);
      for i := 0 to len
        invariant forall k :: InState(processes, k, Ready) ==> i <= Distance(cur, k, len)
        invariant currentIdx == old(currentIdx) && initialized == old(initialized)
      {
        var idx := SearchSlot(i);
        if processes[idx].Some? && processes[idx].value.state == Ready {
          assert InState(processes, idx, Ready);
          currentIdx, initialized := idx, true;
          return Some(idx);
        }
        forall k | InState(processes, k, Ready) ensures i + 1 <= Distance(cur, k, len) {
          assert Distance(cur, k, len) == i ==> k == idx;
        }
      }
      return None;
    }

    /** The second half of `Schedule`: nobody is Running, and somebody is Ready. */
    method Dispatch() returns (to: nat)
      requires Scheduled(processes, births, currentIdx, initialized) && AnyReady(processes)
      requires forall i :: !InState(processes, i, Running)
      modifies this`processes, this`currentIdx, this`initialized
      ensures |old(processes)| > 0
      ensures IsNext(old(processes), Before(old(processes), old(currentIdx), old(initialized)), to)
      ensures processes == SetState(old(processes), to, Running) && currentIdx == to && initialized
      ensures Scheduled(processes, births, currentIdx, initialized)
    {
      ghost var yielded := processes;
      var next := NextProcess();
      to := next.value;
      DispatchSound(yielded, births, old(currentIdx), to);
      processes := SetState(processes, to, Running);
    }

    /** The first half of `Schedule`: a Running process becomes Ready. */
    method Yield()
      requires Scheduled(processes, births, currentIdx, initialized)
      modifies this`processes
      ensures processes == Yielded(old(processes), currentIdx, initialized)
      ensures Scheduled(processes, births, currentIdx, initialized) && forall i :: !InState(processes, i, Running)
      ensures old(AnyReady(processes)) ==> AnyReady(processes)
    {
      YieldSound(processes, births, currentIdx, initialized);
      if initialized && processes[currentIdx].value.state == Running {
        processes := SetState(processes, currentIdx, Ready);
      }
    }

    /**
     * Picks the next process to run. With nothing Ready it returns to a live caller, which was Running, and goes idle
     * only when every process left is dead.
     */
    method Schedule() returns (r: Outcome)
      requires Scheduled(processes, births, currentIdx, initialized)
      modifies this`processes, this`currentIdx, this`initialized
      ensures Scheduled(processes, births, currentIdx, initialized)
      ensures ScheduleMeans(old(processes), old(currentIdx), old(initialized), r, processes, currentIdx, initialized)
      ensures r.Stayed? && initialized ==> InState(processes, currentIdx, Ready)
      ensures r.Idle? ==> AllDead(processes)
    {
      var ready := HasReady();
      if initialized && !ready { StaysRunning(processes, births, currentIdx); }
      Yield();
      if !ready {
        if initialized && processes[currentIdx].value.state == Dead {
          return Idle;
        }
        return Stayed;
      }
      var to := Dispatch();
      return Switched(to);
    }

    /** Forks the current process; `copied` says whether its memory could be copied. */
    method ForkProcess(copied: bool) returns (pid: Option<nat>)
      requires Executing()
      modifies this`processes, this`births
      ensures Executing()
      ensures pid.Some? <==> copied
      ensures pid.None? ==> Now() == old(Now())
      ensures pid.Some? ==> Forks(old(Now()), Now(), pid.value)
    {
      var p := AllocPid();
      if !copied { return None; }
      ghost var before := processes;
      var parent := processes[currentIdx].value;
      var child := Process(p, parent.pid, Ready, 0, births, parent.id, 0);
      var i := AddProcess(child);
      ForkSound(before, births, currentIdx, processes, child, i, currentIdx);
      LoggedFork(log, before, births, processes, child, i);
      InsertedAt(before, processes, child, i);
      births := births + 1;
      return Some(p);
    }

    /** The first dead child that the wait accepts. */
    method FindZombie(target: int) returns (r: Option<nat>)
      requires Has(processes, currentIdx)
      ensures r.Some? ==> Zombie(processes, currentIdx, target, r.value)
      ensures r.Some? ==> forall j :: 0 <= j < r.value ==> !Zombie(processes, currentIdx, target, j)
      ensures r.None? ==> forall j :: !Zombie(processes, currentIdx, target, j)
    {
      var caller := processes[currentIdx].value;
      for i := 0 to |processes|
        invariant forall j :: 0 <= j < i ==> !Zombie(processes, currentIdx, target, j)
      {
        if processes[i].Some? {
          var p := processes[i].value;
          if p.parent == caller.pid && p.state == Dead && (target <= 0 || p.pid == target) { return Some(i); }
        }
      }
      return None;
    }

    method HasChild(target: int) returns (b: bool, ghost c: nat)
      requires Has(processes, currentIdx)
      ensures b ==> Child(processes, currentIdx, target, c)
      ensures !b ==> forall j :: !Child(processes, currentIdx, target, j)
    {
      c := 0;
      var caller := processes[currentIdx].value;
      for i := 0 to |processes|
        invariant forall j :: 0 <= j < i ==> !Child(processes, currentIdx, target, j)
      {
        if processes[i].Some? {
          var p := processes[i].value;
          if p.parent == caller.pid && (target <= 0 || p.pid == target) { return true, i; }
        }
      }
      return false, 0;
    }

    /** Removes a dead child of the current process and returns its pid and wait status. */
    method Reap(k: nat, target: int) returns (pid: nat, status: int)
      requires Executing() && Zombie(processes, currentIdx, target, k)
      modifies this`processes, this`log
      ensures Executing() && processes == old(processes)[k := None]
      ensures log == old(log) + [Reaping(old(processes)[currentIdx].value.id, old(processes)[k].value)]
      ensures pid == old(processes)[k].value.pid && status == old(processes)[k].value.exitCode % 256 * 256
    {
      var zombie := processes[k].value;
      ReapSound(processes, births, currentIdx, k);
      LoggedReap(log, processes, births, currentIdx, k);
      log := log + [Reaping(processes[currentIdx].value.id, zombie)];
      processes := processes[k := None];
      return zombie.pid, zombie.exitCode % 256 * 256;
    }

    /** Marks the current process as waiting; that leaves somebody Ready. */
    method MarkWaiting(target: int, ghost c: nat)
      requires Executing() && Child(processes, currentIdx, target, c)
      requires forall j :: !Zombie(processes, currentIdx, target, j)
      modifies this`processes
      ensures processes == SleepIn(old(processes), currentIdx, target)
      ensures Scheduled(processes, births, currentIdx, initialized) && AnyReady(processes)
    {
      forall j | InState(processes, j, Dead) ensures !Accepts(processes[currentIdx].value, target, processes[j].value) {
        assert !Zombie(processes, currentIdx, target, j);
      }
      WaitSound(processes, births, currentIdx, target, c);
      processes := SleepIn(processes, currentIdx, target);
      WaiterYields(processes, births, currentIdx);
    }

    /** Puts the current process to sleep and hands the CPU on: there is always somebody to take it. */
    method Sleep(target: int, ghost c: nat) returns (to: nat)
      requires Executing() && Child(processes, currentIdx, target, c)
      requires forall j :: !Zombie(processes, currentIdx, target, j)
      modifies this`processes, this`currentIdx, this`initialized
      ensures Executing() && currentIdx == to != old(currentIdx) && SameProcesses(old(processes), processes)
      ensures Asleep(processes, old(currentIdx), target)
      ensures SwitchedTo(SleepIn(old(processes), old(currentIdx), target), old(currentIdx), true, processes, to)
    {
      ghost var before := processes;
      MarkWaiting(target, c);
      ghost var waiting := processes;
      var o := Schedule();
      SwitchKeeps(waiting, old(currentIdx), processes, currentIdx);
      LoggedSame(log, before, processes, births);
      return currentIdx;
    }

    /**
     * One pass of the wait4 loop: reaps the first dead child that matches, reports that there is no child or none yet,
     * or puts the caller to sleep until a child exits.
     */
    method Wait4(target: int, nohang: bool) returns (r: WaitResult)
      requires Executing()
      modifies this`processes, this`currentIdx, this`initialized, this`log
      ensures Executing() && Waits(old(Now()), Now(), target, nohang, r)
      ensures r.Reaped? && target > 0 ==> r.pid == target
      ensures r.NoChild? <==> old(Childless(processes, processes[currentIdx].value.pid, target))
      ensures r.Slept? && target > 0 ==> LiveChild(processes, old(processes[currentIdx].value.pid), target)
    {
      r := WaitPass(target, nohang);
      AnswerMeans(old(Now()), target, nohang, r, Now());
    }

    /** Looks for a dead child, then for any child, then goes to sleep. */
    method WaitPass(target: int, nohang: bool) returns (r: WaitResult)
      requires Executing()
      modifies this`processes, this`currentIdx, this`initialized, this`log
      ensures Executing()
      ensures WaitMeans(old(processes), old(currentIdx), old(log), target, nohang, r, processes, currentIdx, log)
    {
      var zombie := FindZombie(target);
      if zombie.Some? {
        var pid, status := Reap(zombie.value, target);
        assert ReapedAt(old(processes), old(currentIdx), target, processes, zombie.value, pid, status);
        return Reaped(pid, status);
      }
      var hasChild: bool;
      ghost var c: nat;
      hasChild, c := HasChild(target);
      if !hasChild { return NoChild; }
      assert Child(processes, currentIdx, target, c);
      if nohang { return NotYet; }
      var to := Sleep(target, c);
      return Slept(to);
    }

    /** Ends the current process, wakes its parent, and hands the CPU on; idle follows only when nobody is left. */
    method Exit(code: int) returns (r: Outcome)
      requires Executing()
      modifies this`processes, this`currentIdx, this`initialized
      ensures Valid() && SameProcesses(old(processes), processes)
      ensures r.Switched? ==> Executing() && currentIdx == r.to
      ensures !r.Stayed? && (r.Idle? ==> AllDead(processes))
      ensures Has(processes, old(currentIdx))
      ensures processes[old(currentIdx)].value == old(processes[currentIdx].value).(state := Dead, exitCode := code)
      ensures forall j :: !WaitingParent(processes, j, old(currentIdx))
      ensures Exits(old(Now()), Now().(idle := r.Idle?), code, r)
    {
      ghost var before := processes;
      MarkDead(code);
      ghost var exited := processes;
      r := Schedule();
      ExitScheduled(before, old(currentIdx), exited, code, processes, currentIdx, r);
      LoggedSame(log, before, processes, births);
    }

    /** Marks the current process dead and wakes its parent if that is waiting. */
    method MarkDead(code: int)
      requires Executing()
      modifies this`processes
      ensures Exited(old(processes), processes, currentIdx, code)
      ensures Scheduled(processes, births, currentIdx, initialized)
    {
      ghost var slots := processes;
      var p := processes[currentIdx].value;
      processes := processes[currentIdx := Some(p.(state := Dead, exitCode := code))];
      WakeParent(p.parent, slots, code);
      ExitSound(slots, births, currentIdx, processes, code);
    }

    /** Makes the process with pid `parent` Ready if it is waiting. */
    method WakeParent(parent: nat, ghost slots: Slots, ghost code: int)
      requires Has(slots, currentIdx) && Forest(slots, births) && parent == slots[currentIdx].value.parent
      requires processes == slots[currentIdx := Some(slots[currentIdx].value.(state := Dead, exitCode := code))]
      modifies this`processes
      ensures Exited(slots, processes, currentIdx, code)
    {
      ghost var dead := processes;
      assert forall j :: WaitingParent(dead, j, currentIdx) <==> WaitingParent(slots, j, currentIdx) && j != currentIdx;
      for i := 0 to |processes|
        invariant processes == dead && forall j :: 0 <= j < i ==> !WaitingParent(dead, j, currentIdx)
      {
        if processes[i].Some? && processes[i].value.pid == parent && processes[i].value.state == Waiting {
          assert WaitingParent(dead, i, currentIdx);
          assert forall j :: WaitingParent(dead, j, currentIdx) ==> Has(slots, j) && Has(slots, i) && j == i;
          processes := processes[i := Some(processes[i].value.(state := Ready))];
          return;
        }
      }
    }

    /** The first process, pid 1, has no parent in the table. */
    method RegisterInit()
      requires Valid() && processes == [] && births == 1
      modifies this`processes, this`births
      ensures Valid() && births == 2 && processes == [Some(FIRST_PROCESS)]
    {
      var i := AddProcess(FIRST_PROCESS);
      assert forall j :: Has(processes, j) ==> j == 0;
      births := births + 1;
    }

    /** The timer interrupt: somebody live goes on executing. */
    method Tick() returns (r: Outcome)
      requires Executing()
      modifies this`processes, this`currentIdx, this`initialized
      ensures Executing() && SameProcesses(old(processes), processes) && !r.Idle?
      ensures Ticks(old(Now()), Now(), r)
    {
      ghost var before := processes;
      r := Schedule();
      TickSame(before, old(currentIdx), processes, currentIdx, r);
      LoggedSame(log, before, processes, births);
    }
  }
}
