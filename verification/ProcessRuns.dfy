/** Whole runs of the process table: what holds in every reachable state, and what every run brings about. */
module ProcessRuns {
  import opened Wrappers
  import opened ProcessTable
  import opened ProcessSteps

  /** What can happen next.  The current process acts; a wakeup may also come from an interrupt.  `stack` and
      `space` are what the heap and the memory manager have handed out. */
  datatype Step =
    | Yield
    | Sleep(id: nat)
    | Wakeup(ch: Channel)
    | Resume
    | Exit(status: int)
    | Return
    | WaitForChild
    | Reap(k: nat)
    | Fork(n: nat, stack: nat, space: nat)
    | Create(n: nat, files: seq<Option<nat>>, stack: nat, space: nat, asInit: bool)
    | CannotMake(n: nat)
    | SystemCall(files: seq<Option<nat>>, user: bool)

  ghost predicate Ready(t: Table) {
    t.current.Some? && t.current.value < |t.procs| == MAX_PROCESSES
  }

  ghost predicate Takes(t: Table, s: Step, u: Table) {
    |t.procs| == MAX_PROCESSES &&
    match s
    case Yield =>
      if t.current == None then u == Dispatch(t, -1)
      else Ready(t) && u == Dispatch(Parked(t, t.current.value), t.current.value)
    case Sleep(id) => Ready(t) && u == Dispatch(Slept(t, t.current.value, Other(id)), t.current.value)
    case WaitForChild =>
      Ready(t) && KidsOk(t, t.current.value) && u ==
        Dispatch(Slept(t, t.current.value, OfProcess(t.current.value)), t.current.value)
    case Wakeup(ch) => u == Woken(t, ch)
    case Resume => Ready(t) && u == Resumed(t, t.current.value)
    case Exit(status) => Ready(t) && u == Dispatch(Exited(t, t.current.value, status), t.current.value)
    case Return => Ready(t) && MayReturn(t, t.current.value)
    && u == Dispatch(ThreadEnded(t, t.current.value), t.current.value)
    case Reap(k) =>
      && Ready(t) && IsChild(t, t.current.value, k) && P(t, k).state == Zombie
      && k < |t.procs| && t.procs[k].stack.Some? && t.procs[k].pml4.Some? && u == Reaped(t, k)
    case Fork(n, stack, space) =>
      && Ready(t) && n < |t.procs| && !Used(t, n) && stack !in t.stacks && space !in t.spaces
      && u == Born(t, n, t.current, P(t, t.current.value).files, stack, space, P(t, t.current.value).user)
    case Create(n, files, stack, space, asInit) =>
      && n < |t.procs| && !Used(t, n) && |files| == NUM_OPEN_FILES && stack !in t.stacks && space !in t.spaces
      && (asInit ==> t.init == None)
      && u == (if asInit then Born(t, n, None, files, stack, space, false).(init := Some(n))
               else Born(t, n, None, files, stack, space, false))
    case CannotMake(n) => n < |t.procs| && !Used(t, n) && u == NotBorn(t, n)
    case SystemCall(files, user) =>
      Ready(t) && |files| == NUM_OPEN_FILES && u == WithFiles(t, t.current.value, files, user)
  }

  lemma StepKeepsInv(t: Table, s: Step, u: Table)
    requires Inv(t) && Takes(t, s, u)
    ensures Inv(u)
  {
    match s
    case Yield =>
      if t.current == None {
        DispatchKeepsInv(t, -1);
      } else {
        StepBackKeepsInv(t, t.current.value, Parked(t, t.current.value));
        DispatchKeepsInv(Parked(t, t.current.value), t.current.value);
      }
    case Sleep(id) =>
      StepBackKeepsInv(t, t.current.value, Slept(t, t.current.value, Other(id)));
      DispatchKeepsInv(Slept(t, t.current.value, Other(id)), t.current.value);
    case WaitForChild =>
      StepBackKeepsInv(t, t.current.value, Slept(t, t.current.value, OfProcess(t.current.value)));
      DispatchKeepsInv(Slept(t, t.current.value, OfProcess(t.current.value)), t.current.value);
    case Wakeup(ch) => WokenKeepsInv(t, ch);
    case Resume => ResumedKeepsInv(t, t.current.value);
    case Exit(status) =>
      ExitKeepsInv(t, t.current.value, status);
      DispatchKeepsInv(Exited(t, t.current.value, status), t.current.value);
    case Return =>
      ThreadMayReturn(t, t.current.value);
      DispatchKeepsInv(ThreadEnded(t, t.current.value), t.current.value);
    case Reap(k) => ReapedKeepsInv(t, t.current.value, k);
    case Fork(n, stack, space) =>
      assert SlotOk(t, t.current.value);
      BornKeepsInv(t, n, t.current, P(t, t.current.value).files, stack, space, P(t, t.current.value).user);
    case Create(n, files, stack, space, asInit) =>
      BornKeepsInv(t, n, None, files, stack, space, false);
      if asInit { InitChanges(Born(t, n, None, files, stack, space, false), Some(n)); }
    case CannotMake(n) => NotBornKeepsInv(t, n);
    case SystemCall(files, user) => WithFilesKeepsInv(t, t.current.value, files, user);
  }

  // ----- runs

  ghost predicate StepAt(ts: seq<Table>, steps: seq<Step>, i: nat) {
    i < |steps| < |ts| ==> Takes(ts[i], steps[i], ts[i + 1])
  }

  ghost predicate IsRun(ts: seq<Table>, steps: seq<Step>) {
    |ts| == |steps| + 1 && forall i: nat :: StepAt(ts, steps, i)
  }

  /** The table as `initialize` leaves it. */
  function Empty(): Table {
    Table(seq(MAX_PROCESSES, _ => Blank(0)), None, None, 1, None, map[], map[], map[], map[], {}, 0)
  }

  lemma EmptyIsOk()
    ensures Inv(Empty())
  {
    forall p: nat ensures SlotOk(Empty(), p) {
    }
    forall s: nat ensures StackOk(Empty(), s) && SpaceOk(Empty(), s) && LogOk(Empty(), s) {
    }
  }

  /** The invariant holds throughout every run. */
  lemma {:induction false} RunKeepsInv(ts: seq<Table>, steps: seq<Step>, i: nat)
    requires IsRun(ts, steps) && Inv(ts[0]) && i < |ts|
    ensures Inv(ts[i])
  {
    if i > 0 {
      RunKeepsInv(ts, steps, i - 1);
      assert StepAt(ts, steps, i - 1);
      StepKeepsInv(ts[i - 1], steps[i - 1], ts[i]);
    }
  }

  lemma StepOfRun(ts: seq<Table>, steps: seq<Step>, i: nat)
    requires IsRun(ts, steps) && Inv(ts[0]) && i < |steps|
    ensures Inv(ts[i]) && Takes(ts[i], steps[i], ts[i + 1])
  {
    RunKeepsInv(ts, steps, i);
    assert StepAt(ts, steps, i);
  }

  /** No wakeup is lost in any run: whoever sleeps in `wait` has a child, and no child that has ended. */
  lemma NoLostWakeup(ts: seq<Table>, steps: seq<Step>, i: nat, p: nat)
    requires IsRun(ts, steps) && Inv(ts[0]) && i < |ts| && Waiting(ts[i], p)
    ensures exists c: nat :: IsChild(ts[i], p, c)
    ensures forall c: nat | IsChild(ts[i], p, c) :: P(ts[i], c).state != Zombie
  {
    RunKeepsInv(ts, steps, i);
    assert SlotOk(ts[i], p);
    forall c: nat | IsChild(ts[i], p, c) ensures P(ts[i], c).state != Zombie {
      assert ChildAlive(ts[i], p, c);
    }
  }

  /** In no run does a process have a parent that is gone, and a slot taken into use again starts without
      children. */
  lemma LineageIsSafe(ts: seq<Table>, steps: seq<Step>, i: nat, c: nat)
    requires IsRun(ts, steps) && Inv(ts[0]) && i < |ts| && Used(ts[i], c) && P(ts[i], c).parent.Some?
    ensures Used(ts[i], P(ts[i], c).parent.value)
    ensures i < |steps| && (steps[i].Fork? || steps[i].Create?) ==>
              !IsChild(ts[i], steps[i].n, c) && !IsChild(ts[i + 1], steps[i].n, c)
  {
    RunKeepsInv(ts, steps, i);
    assert SlotOk(ts[i], c);
    if i < |steps| && (steps[i].Fork? || steps[i].Create?) {
      assert StepAt(ts, steps, i);
      UnusedHasNoChildren(ts[i], steps[i].n, c);
      if ts[i].current.Some? { assert SlotOk(ts[i], ts[i].current.value); }
    }
  }

  // ----- round robin

  lemma DistanceShrinks(start: int, r: nat, q: nat)
    requires start >= -1 && r < MAX_PROCESSES && q < MAX_PROCESSES && r != q && Distance(start, r) <= Distance(start, q)
    ensures Distance(r, q) + 1 <= Distance(start, q)
  {
    if Distance(start, r) == Distance(start, q) { SameDistance(start, r, q); }
    var a, b := Distance(start, r), Distance(start, q);
    assert (r - start - 1) % 64 == a && (q - start - 1) % 64 == b;
    assert (q - r - 1) % 64 == b - a - 1;
  }

  /** A decision that passes over a runnable process comes closer to it. */
  lemma DecisionComesCloser(t: Table, start: int, q: nat)
    requires |t.procs| == MAX_PROCESSES && start >= -1 && q < MAX_PROCESSES && P(t, q).state == Runnable
    ensures var u := Dispatch(t, start);
      P(u, q).state != Running ==>
        && P(u, q).state == Runnable && u.decisions == t.decisions + 1
        && Distance(StartOf(u.current), q) + 1 <= Distance(start, q)
  {
    NearestIsFound(t.procs, start, 1);
    var r := RunnableFrom(t.procs, start, 1);
    if r.value != q { DistanceShrinks(start, r.value, q); }
  }

  lemma StepComesCloser(t: Table, s: Step, u: Table, q: nat)
    requires StateOk(t, q) && Takes(t, s, u) && q < MAX_PROCESSES && P(t, q).state == Runnable
             && P(u, q).state != Running
    ensures P(u, q).state == Runnable && u.decisions >= t.decisions
    ensures u.decisions - t.decisions + Distance(StartOf(u.current), q) <= Distance(StartOf(t.current), q)
  {
    match s
    case Yield =>
      if t.current == None { DecisionComesCloser(t, -1, q); }
      else { DecisionComesCloser(Parked(t, t.current.value), t.current.value, q); }
    case Sleep(id) => DecisionComesCloser(Slept(t, t.current.value, Other(id)), t.current.value, q);
    case WaitForChild => DecisionComesCloser(Slept(t, t.current.value, OfProcess(t.current.value)), t.current.value, q);
    case Exit(status) =>
      assert P(Exited(t, t.current.value, status), q) == AfterExit(t, t.current.value, status, q);
      DecisionComesCloser(Exited(t, t.current.value, status), t.current.value, q);
    case Return => DecisionComesCloser(ThreadEnded(t, t.current.value), t.current.value, q);
    case _ =>
  }

  /** Round robin: a runnable process that has not been chosen yet has been passed over fewer times than it
      was places away, so it runs within 64 scheduling decisions, whatever happens meanwhile. */
  lemma {:induction false} RunnableRunsSoon(ts: seq<Table>, steps: seq<Step>, q: nat)
    requires IsRun(ts, steps) && Inv(ts[0]) && q < MAX_PROCESSES && P(ts[0], q).state == Runnable
    requires forall i | 0 < i < |ts| :: P(ts[i], q).state != Running
    ensures P(ts[|steps|], q).state == Runnable
    ensures ts[|steps|].decisions - ts[0].decisions
            + Distance(StartOf(ts[|steps|].current), q) <= Distance(StartOf(ts[0].current), q)
    ensures ts[|steps|].decisions - ts[0].decisions < MAX_PROCESSES
    decreases |steps|
  {
    if |steps| > 0 {
      var n := |steps| - 1;
      var before, taken := ts[..n + 1], steps[..n];
      forall i: nat ensures StepAt(before, taken, i) {
        assert StepAt(ts, steps, i);
      }
      RunnableRunsSoon(before, taken, q);
      StepOfRun(ts, steps, n);
      assert SlotOk(ts[n], q);
      StepComesCloser(ts[n], steps[n], ts[n + 1], q);
    }
  }

  // ----- the log

  /** Pids are given out in order, init stays init, how a process has ended never changes, and what has been
      reported stays so. */
  predicate LogGrows(t: Table, u: Table, pid: nat) {
    && t.next_pid <= u.next_pid && (t.init.Some? ==> u.init == t.init)
    && (pid in t.exits ==> pid in u.exits && u.exits[pid] == t.exits[pid])
    && (pid in t.reaped ==> pid in u.reaped)
  }

  lemma LogOnlyGrows(t: Table, s: Step, u: Table, pid: nat)
    requires Inv(t) && Takes(t, s, u)
    ensures LogGrows(t, u, pid)
  {
    if t.current.Some? { assert SlotOk(t, t.current.value); }
  }

  lemma {:induction false} LogOnlyGrowsInRuns(ts: seq<Table>, steps: seq<Step>, i: nat, j: nat, pid: nat)
    requires IsRun(ts, steps) && Inv(ts[0]) && i <= j < |ts|
    ensures LogGrows(ts[i], ts[j], pid)
    decreases j
  {
    if i < j {
      LogOnlyGrowsInRuns(ts, steps, i, j - 1, pid);
      StepOfRun(ts, steps, j - 1);
      LogOnlyGrows(ts[j - 1], steps[j - 1], ts[j], pid);
    }
  }

  // ----- parents

  /** Where a process in slot `k` comes from, and what has become of its parent pointer, in one step. */
  predicate FamilyStep(t: Table, s: Step, u: Table, k: nat) {
    if !Used(t, k) then
      && P(u, k).pid == t.next_pid < u.next_pid
      && P(u, k).parent == if s.Fork? then t.current else None
    else
      && P(u, k).pid == P(t, k).pid
      && P(u, k).parent == if s.Exit? && P(t, k).parent == t.current then t.init else P(t, k).parent
  }

  /** A scheduling decision changes nobody's family. */
  lemma DispatchKeepsFamily(t: Table, start: int, k: nat)
    requires |t.procs| == MAX_PROCESSES && start >= -1
    ensures var u := Dispatch(t, start);
      Used(u, k) == Used(t, k) && P(u, k).pid == P(t, k).pid && P(u, k).parent == P(t, k).parent
  {
    NearestIsFound(t.procs, start, 1);
  }

  predicate Decides(s: Step) {
    s.Yield? || s.Sleep? || s.WaitForChild? || s.Exit? || s.Return?
  }

  /** The steps that end in a scheduling decision. */
  lemma DecisionKeepsFamily(t: Table, s: Step, u: Table, k: nat)
    requires Inv(t) && Takes(t, s, u) && Used(u, k) && Decides(s)
    ensures FamilyStep(t, s, u, k)
  {
    if t.current.Some? { assert SlotOk(t, t.current.value); }
    match s
    case Yield =>
      if t.current == None { DispatchKeepsFamily(t, -1, k); }
      else { DispatchKeepsFamily(Parked(t, t.current.value), t.current.value, k); }
    case Sleep(id) => DispatchKeepsFamily(Slept(t, t.current.value, Other(id)), t.current.value, k);
    case WaitForChild => DispatchKeepsFamily(Slept(t, t.current.value, OfProcess(t.current.value)), t.current.value, k);
    case Exit(status) =>
      DispatchKeepsFamily(Exited(t, t.current.value, status), t.current.value, k);
      assert k < MAX_PROCESSES ==> P(Exited(t, t.current.value, status), k) == AfterExit(t, t.current.value, status, k);
    case Return => DispatchKeepsFamily(ThreadEnded(t, t.current.value), t.current.value, k);
  }

  lemma StepKeepsFamily(t: Table, s: Step, u: Table, k: nat)
    requires Inv(t) && Takes(t, s, u) && Used(u, k)
    ensures FamilyStep(t, s, u, k)
  {
    if Decides(s) {
      DecisionKeepsFamily(t, s, u, k);
    } else {
      assert SlotOk(t, k);
      if t.current.Some? { assert SlotOk(t, t.current.value); }
    }
  }

  /** Step `f` of the run is a call of `fork` that made process `child`, by process `parent`; both are pids. */
  ghost predicate ForkedAt(ts: seq<Table>, steps: seq<Step>, f: nat, child: nat, parent: nat) {
    && f < |steps| < |ts| && steps[f].Fork? && ts[f].current.Some?
    && ts[f].next_pid == child && P(ts[f], ts[f].current.value).pid == parent
  }

  /** A process is forked once, and by one process. */
  lemma ForkedOnce(ts: seq<Table>, steps: seq<Step>, f: nat, g: nat, child: nat, parent: nat, parent': nat)
    requires IsRun(ts, steps) && Inv(ts[0]) && f <= g
    requires ForkedAt(ts, steps, f, child, parent) && ForkedAt(ts, steps, g, child, parent')
    ensures f == g && parent == parent'
  {
    if f < g {
      assert StepAt(ts, steps, f);
      LogOnlyGrowsInRuns(ts, steps, f + 1, g, 0);
    }
  }

  /** Whoever has a pid that was given out before was there before. */
  lemma OldPidInRun(ts: seq<Table>, steps: seq<Step>, i: nat, k: nat)
    requires IsRun(ts, steps) && Inv(ts[0]) && i < |steps| && Used(ts[i + 1], k) && P(ts[i + 1], k).pid < ts[i].next_pid
    ensures Used(ts[i], k) && P(ts[i], k).pid == P(ts[i + 1], k).pid
  {
    StepOfRun(ts, steps, i);
    StepKeepsFamily(ts[i], steps[i], ts[i + 1], k);
  }

  lemma ForkGivesPid(ts: seq<Table>, steps: seq<Step>, f: nat, child: nat, parent: nat)
    requires IsRun(ts, steps) && ForkedAt(ts, steps, f, child, parent)
    ensures child < ts[f + 1].next_pid
  {
    assert StepAt(ts, steps, f);
  }

  /** A child was there already in every state between its birth and now. */
  lemma KnownBefore(ts: seq<Table>, steps: seq<Step>, f: nat, i: nat, k: nat, parent: nat)
    requires IsRun(ts, steps) && Inv(ts[0]) && f + 1 < i < |ts| && Used(ts[i], k)
    requires ForkedAt(ts, steps, f, P(ts[i], k).pid, parent)
    ensures Used(ts[i - 1], k) && P(ts[i - 1], k).pid == P(ts[i], k).pid
    ensures LogGrows(ts[i - 1], ts[i], parent)
  {
    ForkGivesPid(ts, steps, f, P(ts[i], k).pid, parent);
    LogOnlyGrowsInRuns(ts, steps, f + 1, i - 1, 0);
    OldPidInRun(ts, steps, i - 1, k);
    LogOnlyGrowsInRuns(ts, steps, i - 1, i, parent);
  }

  /** For as long as the process that forked it has not ended, that process is the parent. */
  lemma {:induction false} ForkerIsParent(ts: seq<Table>, steps: seq<Step>, f: nat, i: nat, k: nat, parent: nat)
    requires IsRun(ts, steps) && Inv(ts[0]) && f < i < |ts| && Used(ts[i], k)
    requires ForkedAt(ts, steps, f, P(ts[i], k).pid, parent) && parent !in ts[i].exits
    ensures P(ts[i], k).parent.Some? && P(ts[i], P(ts[i], k).parent.value).pid == parent
    decreases i
  {
    if f == i - 1 {
      NewChildInRun(ts, steps, f, k);
    } else {
      KnownBefore(ts, steps, f, i, k, parent);
      ForkerIsParent(ts, steps, f, i - 1, k, parent);
      ParentStaysInRun(ts, steps, i - 1, k);
    }
  }

  lemma NewChild(t: Table, s: Step, u: Table, k: nat)
    requires Inv(t) && Takes(t, s, u) && s.Fork? && Used(u, k) && P(u, k).pid == t.next_pid
    ensures P(u, k).parent == t.current && P(u, t.current.value).pid == P(t, t.current.value).pid
  {
    assert SlotOk(t, k) && SlotOk(t, t.current.value) && LogOk(t, P(t, k).pid);
    StepKeepsFamily(t, s, u, k);
  }

  lemma NewChildInRun(ts: seq<Table>, steps: seq<Step>, i: nat, k: nat)
    requires IsRun(ts, steps) && Inv(ts[0]) && i < |steps| && steps[i].Fork?
    requires Used(ts[i + 1], k) && P(ts[i + 1], k).pid == ts[i].next_pid && ts[i].current.Some?
    ensures P(ts[i + 1], k).parent == ts[i].current
            && P(ts[i + 1], ts[i].current.value).pid == P(ts[i], ts[i].current.value).pid
  {
    StepOfRun(ts, steps, i);
    NewChild(ts[i], steps[i], ts[i + 1], k);
  }

  lemma ParentStaysInRun(ts: seq<Table>, steps: seq<Step>, i: nat, k: nat)
    requires IsRun(ts, steps) && Inv(ts[0]) && i < |steps| && Used(ts[i], k) && Used(ts[i + 1], k)
             && P(ts[i], k).parent.Some?
    ensures var q := P(ts[i], k).parent.value;
      P(ts[i], q).pid !in ts[i + 1].exits ==>
        P(ts[i + 1], k).parent == Some(q) && P(ts[i + 1], q).pid == P(ts[i], q).pid
  {
    StepOfRun(ts, steps, i);
    ParentStays(ts[i], steps[i], ts[i + 1], k);
  }

  /** A parent keeps its pid, and a child its parent, unless the parent ends. */
  lemma ParentStays(t: Table, s: Step, u: Table, k: nat)
    requires Inv(t) && Takes(t, s, u) && Used(t, k) && Used(u, k) && P(t, k).parent.Some?
    ensures var q := P(t, k).parent.value;
      P(t, q).pid !in u.exits ==> P(u, k).parent == Some(q) && P(u, q).pid == P(t, q).pid
  {
    var q := P(t, k).parent.value;
    StepKeepsInv(t, s, u);
    StepKeepsFamily(t, s, u, k);
    assert SlotOk(t, k) && SlotOk(u, k) && SlotOk(t, q);
    if s.Exit? && t.current == Some(q) { assert P(t, q).pid in u.exits; }
    if P(u, k).parent == Some(q) { StepKeepsFamily(t, s, u, q); }
  }

  lemma ParentInStep(t: Table, s: Step, u: Table, k: nat)
    requires Inv(t) && Takes(t, s, u) && Used(u, k) && P(u, k).parent.Some?
    ensures if Used(t, k) then P(t, k).parent.Some? && P(t, k).pid == P(u, k).pid
            else s.Fork? && t.current.Some? && P(u, k).pid == t.next_pid
  {
    StepKeepsFamily(t, s, u, k);
  }

  lemma ParentInRun(ts: seq<Table>, steps: seq<Step>, i: nat, k: nat)
    requires IsRun(ts, steps) && Inv(ts[0]) && i < |steps| && Used(ts[i + 1], k) && P(ts[i + 1], k).parent.Some?
    ensures if Used(ts[i], k) then P(ts[i], k).parent.Some? && P(ts[i], k).pid == P(ts[i + 1], k).pid
            else steps[i].Fork? && ts[i].current.Some? && P(ts[i + 1], k).pid == ts[i].next_pid
  {
    StepOfRun(ts, steps, i);
    ParentInStep(ts[i], steps[i], ts[i + 1], k);
  }

  /** In a run from the start, whoever has a parent was forked: kernel threads have none and get none. */
  lemma {:induction false} ChildWasForked(ts: seq<Table>, steps: seq<Step>, i: nat, k: nat)
    returns (f: nat, parent: nat)
    requires IsRun(ts, steps) && ts[0] == Empty() && i < |ts| && Used(ts[i], k) && P(ts[i], k).parent.Some?
    ensures f < i && ForkedAt(ts, steps, f, P(ts[i], k).pid, parent)
    decreases i
  {
    EmptyIsOk();
    ParentInRun(ts, steps, i - 1, k);
    if Used(ts[i - 1], k) {
      f, parent := ChildWasForked(ts, steps, i - 1, k);
    } else {
      f, parent := i - 1, P(ts[i - 1], ts[i - 1].current.value).pid;
    }
  }

  /** The parent is init, or nobody if there was no init to hand the child to. */
  predicate Adopted(t: Table, k: nat) {
    P(t, k).parent == None || P(t, k).parent == t.init
  }

  /** Once the process that forked it has ended, a child is adopted. */
  lemma {:induction false} OrphanIsAdopted(ts: seq<Table>, steps: seq<Step>, f: nat, i: nat, k: nat, parent: nat)
    requires IsRun(ts, steps) && Inv(ts[0]) && f < i < |ts| && Used(ts[i], k)
    requires ForkedAt(ts, steps, f, P(ts[i], k).pid, parent) && parent in ts[i].exits
    ensures Adopted(ts[i], k)
    decreases i
  {
    if f == i - 1 {
      StepOfRun(ts, steps, f);
      NoExitAtFork(ts[f], steps[f], ts[i]);
    } else {
      KnownBefore(ts, steps, f, i, k, parent);
      if parent in ts[i - 1].exits {
        OrphanIsAdopted(ts, steps, f, i - 1, k, parent);
      } else {
        ForkerIsParent(ts, steps, f, i - 1, k, parent);
      }
      AdoptionInRun(ts, steps, i - 1, k, parent);
    }
  }

  lemma AdoptionStep(t: Table, s: Step, u: Table, k: nat, parent: nat)
    requires Inv(t) && Takes(t, s, u) && Used(t, k) && Used(u, k) && parent in u.exits
    requires if parent in t.exits then Adopted(t, k)
             else P(t, k).parent.Some? && P(t, P(t, k).parent.value).pid == parent
    ensures Adopted(u, k)
  {
    if parent in t.exits {
      StepKeepsFamily(t, s, u, k);
      LogOnlyGrows(t, s, u, 0);
    } else {
      EndedJustNow(t, s, u, k);
    }
  }

  lemma AdoptionInRun(ts: seq<Table>, steps: seq<Step>, i: nat, k: nat, parent: nat)
    requires IsRun(ts, steps) && Inv(ts[0]) && i < |steps| && Used(ts[i], k) && Used(ts[i + 1], k)
             && parent in ts[i + 1].exits
    requires if parent in ts[i].exits then Adopted(ts[i], k)
             else P(ts[i], k).parent.Some? && P(ts[i], P(ts[i], k).parent.value).pid == parent
    ensures Adopted(ts[i + 1], k)
  {
    StepOfRun(ts, steps, i);
    AdoptionStep(ts[i], steps[i], ts[i + 1], k, parent);
  }

  lemma NoExitAtFork(t: Table, s: Step, u: Table)
    requires Inv(t) && Takes(t, s, u) && s.Fork?
    ensures P(t, t.current.value).pid !in u.exits
  {
    assert SlotOk(t, t.current.value);
  }

  /** When the parent ends in this very step, the child is handed over in it, or the parent was init. */
  lemma EndedJustNow(t: Table, s: Step, u: Table, k: nat)
    requires Inv(t) && Takes(t, s, u) && Used(t, k) && Used(u, k) && P(t, k).parent.Some?
    requires P(t, P(t, k).parent.value).pid !in t.exits && P(t, P(t, k).parent.value).pid in u.exits
    ensures P(u, k).parent == u.init
  {
    var q := P(t, k).parent.value;
    assert SlotOk(t, k) && SlotOk(t, q) && SlotOk(t, t.current.value);
    assert t.current == Some(q);
    StepKeepsFamily(t, s, u, k);
    LogOnlyGrows(t, s, u, 0);
    if s.Return? { assert IsChild(t, q, k); }
  }

  // ----- exit statuses

  /** In no run does `wait` report the end of the same process twice. */
  lemma ReportedOnce(ts: seq<Table>, steps: seq<Step>, i: nat, j: nat)
    requires IsRun(ts, steps) && Inv(ts[0]) && i < j < |steps| && steps[i].Reap? && steps[j].Reap?
    ensures P(ts[i], steps[i].k).pid != P(ts[j], steps[j].k).pid
  {
    RunKeepsInv(ts, steps, i);
    RunKeepsInv(ts, steps, j);
    LogOnlyGrowsInRuns(ts, steps, i + 1, j, P(ts[i], steps[i].k).pid);
    assert StepAt(ts, steps, i) && StepAt(ts, steps, j);
    assert P(ts[i], steps[i].k).pid in ts[i + 1].reaped;
    ReapedKeepsInv(ts[j], ts[j].current.value, steps[j].k);
  }

  /** What `wait` reports is what the process passed to `exit`.  It is reported to the process that forked it,
      and to init only if that one has ended before. */
  lemma StatusIsDelivered(ts: seq<Table>, steps: seq<Step>, f: nat, i: nat, j: nat, parent: nat)
    requires IsRun(ts, steps) && Inv(ts[0]) && f < i < j < |steps| && steps[i].Exit? && steps[j].Reap?
    requires ts[i].current.Some? && P(ts[j], steps[j].k).pid == P(ts[i], ts[i].current.value).pid
    requires ForkedAt(ts, steps, f, P(ts[j], steps[j].k).pid, parent)
    ensures P(ts[j], steps[j].k).exit_status == steps[i].status
    ensures ts[j].current.Some?
    ensures if parent in ts[j].exits then ts[j].current == ts[j].init else P(ts[j], ts[j].current.value).pid == parent
  {
    RunKeepsInv(ts, steps, j);
    StatusIsKept(ts, steps, i, j);
    assert StepAt(ts, steps, j);
    if parent in ts[j].exits {
      OrphanIsAdopted(ts, steps, f, j, steps[j].k, parent);
    } else {
      ForkerIsParent(ts, steps, f, j, steps[j].k, parent);
    }
  }

  /** The status that is reported. */
  lemma StatusIsKept(ts: seq<Table>, steps: seq<Step>, i: nat, j: nat)
    requires IsRun(ts, steps) && Inv(ts[0]) && i < j < |steps| && steps[i].Exit? && steps[j].Reap?
    requires ts[i].current.Some? && P(ts[j], steps[j].k).pid == P(ts[i], ts[i].current.value).pid
    ensures P(ts[j], steps[j].k).exit_status == steps[i].status
  {
    var pid := P(ts[i], ts[i].current.value).pid;
    RunKeepsInv(ts, steps, j);
    LogOnlyGrowsInRuns(ts, steps, i + 1, j, pid);
    assert StepAt(ts, steps, i) && StepAt(ts, steps, j);
    assert pid in ts[i + 1].exits;
    ReapedKeepsInv(ts[j], ts[j].current.value, steps[j].k);
  }
}
