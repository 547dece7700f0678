/** What two ways of ending cost for good: a thread that returns while its parent waits, and the end of init. */
module ProcessLosses {
  import opened Wrappers
  import opened ProcessTable
  import opened ProcessSteps
  import opened ProcessRuns

  // ----- a thread that returns while its parent waits

  /** A step, or a thread's return from its entry function in any state. */
  ghost predicate Happens(t: Table, s: Step, u: Table) {
    Takes(t, s, u) || (s.Return? && Ready(t) && u == Dispatch(ThreadEnded(t, t.current.value), t.current.value))
  }

  predicate AllEnded(t: Table, p: nat, c: nat) {
    IsChild(t, p, c) ==> P(t, c).state == Zombie
  }

  /** `p`, not init, sleeps in `wait` although no child of its is alive to wake it. */
  ghost predicate Stuck(t: Table, p: nat) {
    && |t.procs| == MAX_PROCESSES && Waiting(t, p) && t.init != Some(p)
    && (t.current.Some? ==> P(t, t.current.value).state == Running)
    && forall c: nat :: AllEnded(t, p, c)
  }

  lemma StuckAfterDecision(t: Table, start: int, p: nat)
    requires |t.procs| == MAX_PROCESSES && Waiting(t, p) && t.init != Some(p) && start >= -1
    requires forall c: nat :: AllEnded(t, p, c)
    ensures Stuck(Dispatch(t, start), p)
  {
    NearestIsFound(t.procs, start, 1);
    var u := Dispatch(t, start);
    forall c: nat ensures AllEnded(u, p, c) {
      assert AllEnded(t, p, c);
    }
  }

  lemma StuckAfterBlocking(t: Table, s: Step, u: Table, p: nat)
    requires Stuck(t, p) && Happens(t, s, u) && Decides(s)
    ensures Stuck(u, p)
  {
    match s
    case Yield =>
      if t.current == None {
        StuckAfterDecision(t, -1, p);
      } else {
        StuckWithOther(t, Parked(t, t.current.value), p);
        StuckAfterDecision(Parked(t, t.current.value), t.current.value, p);
      }
    case Sleep(id) =>
      StuckWithOther(t, Slept(t, t.current.value, Other(id)), p);
      StuckAfterDecision(Slept(t, t.current.value, Other(id)), t.current.value, p);
    case WaitForChild =>
      StuckWithOther(t, Slept(t, t.current.value, OfProcess(t.current.value)), p);
      StuckAfterDecision(Slept(t, t.current.value, OfProcess(t.current.value)), t.current.value, p);
    case Exit(status) =>
      StuckAfterExit(t, t.current.value, status, p);
      StuckAfterDecision(Exited(t, t.current.value, status), t.current.value, p);
    case Return =>
      StuckWithOther(t, ThreadEnded(t, t.current.value), p);
      StuckAfterDecision(ThreadEnded(t, t.current.value), t.current.value, p);
  }

  /** Whatever happens, short of a wakeup of `p` itself, leaves it stuck. */
  lemma StuckStaysStuck(t: Table, s: Step, u: Table, p: nat)
    requires Stuck(t, p) && Happens(t, s, u) && s != Wakeup(OfProcess(p))
    ensures Stuck(u, p)
  {
    if Decides(s) {
      StuckAfterBlocking(t, s, u, p);
    } else {
      if t.current.Some? { assert AllEnded(t, p, t.current.value); }
      forall c: nat ensures AllEnded(u, p, c) {
        assert AllEnded(t, p, c);
      }
    }
  }

  /** Only a process that is not a child of `p`, and not `p`, has changed its state. */
  lemma StuckWithOther(t: Table, u: Table, p: nat)
    requires Stuck(t, p) && Ready(t) && |u.procs| == MAX_PROCESSES && u.init == t.init
    requires forall q: nat | q < MAX_PROCESSES && t.current != Some(q) :: u.procs[q] == t.procs[q]
    requires P(u, t.current.value).parent == P(t, t.current.value).parent
    ensures Waiting(u, p) && u.init != Some(p) && forall c: nat :: AllEnded(u, p, c)
  {
    assert AllEnded(t, p, t.current.value);
    forall c: nat ensures AllEnded(u, p, c) {
      assert AllEnded(t, p, c);
    }
  }

  lemma StuckAfterExit(t: Table, c: nat, status: int, p: nat)
    requires Stuck(t, p) && Ready(t) && t.current == Some(c)
    ensures var u := Exited(t, c, status);
      Waiting(u, p) && u.init != Some(p) && forall d: nat :: AllEnded(u, p, d)
  {
    var u := Exited(t, c, status);
    assert AllEnded(t, p, c) && P(u, p) == AfterExit(t, c, status, p);
    forall d: nat ensures AllEnded(u, p, d) {
      assert AllEnded(t, p, d) && (d < MAX_PROCESSES ==> P(u, d) == AfterExit(t, c, status, d));
    }
  }

  /** It sleeps for good: in every run that follows, unless somebody wakes this very process.  In the kernel only
      `exit` does that, for the parent and for init. */
  lemma {:induction false} SleepsForGood(ts: seq<Table>, steps: seq<Step>, i: nat, p: nat)
    requires |ts| == |steps| + 1 && (forall j | 0 <= j < |steps| :: Happens(ts[j], steps[j], ts[j + 1]))
    requires Stuck(ts[0], p) && i < |ts| && forall j | 0 <= j < |steps| :: steps[j] != Wakeup(OfProcess(p))
    ensures Stuck(ts[i], p)
  {
    if i > 0 {
      SleepsForGood(ts, steps, i - 1, p);
      StuckStaysStuck(ts[i - 1], steps[i - 1], ts[i], p);
    }
  }

  /** The only child of a process that waits for it returns from its entry function. */
  lemma OnlyChildEnds(t: Table, p: nat, c: nat)
    requires |t.procs| == MAX_PROCESSES && Waiting(t, p) && t.init != Some(p) && IsChild(t, p, c) && c != p
    requires t.current == Some(c) && c < MAX_PROCESSES && forall d: nat | IsChild(t, p, d) :: d == c
    ensures !MayReturn(t, c)
    ensures var u := Dispatch(ThreadEnded(t, c), c); Stuck(u, p) && IsChild(u, p, c) && P(u, c).state == Zombie
  {
    var v := ThreadEnded(t, c);
    assert P(v, c).state == Zombie && P(v, c).parent == Some(p);
    forall d: nat ensures AllEnded(v, p, d) {
      assert IsChild(v, p, d) ==> IsChild(t, p, d);
    }
    StuckAfterDecision(v, c, p);
    DispatchKeepsEnds(v, c, c);
    DispatchKeepsFamily(v, c, c);
  }

  // A run from the start: a process is made, starts, forks, and waits for its child, which now runs.

  ghost function Made(): Table {
    Born(Empty(), 0, None, NoFiles(), 100, 4096, false)
  }

  ghost function Started(): Table {
    Dispatch(Made(), -1)
  }

  ghost function WithChild(): Table {
    Born(Started(), 1, Some(0), P(Started(), 0).files, 200, 8192, P(Started(), 0).user)
  }

  ghost function ParentWaits(): Table {
    Dispatch(Slept(WithChild(), 0, OfProcess(0)), 0)
  }

  ghost function StatesToLoss(): seq<Table> {
    [Empty(), Made(), Started(), WithChild(), ParentWaits()]
  }

  function StepsToLoss(): seq<Step> {
    [Create(0, NoFiles(), 100, 4096, false), Yield, Fork(1, 200, 8192), WaitForChild]
  }

  lemma ParentStarts()
    ensures Started() == Made().(procs := Made().procs[0 := Made().procs[0].(state := Running)], current := Some(0),
                                 loaded := Some(4096), decisions := 1)
  {
    assert Made().procs[0].state == Runnable;
    assert RunnableFrom(Made().procs, -1, 1) == Some(0);
  }

  lemma ChildRuns()
    ensures var t := ParentWaits();
      && t.current == Some(1) && t.init == None && Waiting(t, 0) && IsChild(t, 0, 1) && P(t, 1).state == Running
      && forall c: nat | IsChild(t, 0, c) :: c == 1
    ensures KidsOk(WithChild(), 0)
  {
    ParentStarts();
    var t := WithChild();
    assert IsChild(t, 0, 1);
    forall c: nat ensures ChildAlive(t, 0, c) {
    }
    assert Slept(t, 0, OfProcess(0)).procs[1].state == Runnable;
    assert RunnableFrom(Slept(t, 0, OfProcess(0)).procs, 0, 1) == Some(1);
  }

  lemma ParentIsMade()
    ensures Takes(Empty(), Create(0, NoFiles(), 100, 4096, false), Made()) && Takes(Made(), Yield, Started())
  {
  }

  lemma ChildIsMade()
    ensures Takes(Started(), Fork(1, 200, 8192), WithChild()) && Takes(WithChild(), WaitForChild, ParentWaits())
  {
    ParentStarts();
    ChildRuns();
  }

  lemma StepToLoss(i: nat)
    ensures StepAt(StatesToLoss(), StepsToLoss(), i)
  {
    if i == 0 || i == 1 {
      ParentIsMade();
    } else if i == 2 || i == 3 {
      ChildIsMade();
    }
  }

  lemma LossIsReached()
    ensures IsRun(StatesToLoss(), StepsToLoss())
  {
    forall i: nat ensures StepAt(StatesToLoss(), StepsToLoss(), i) {
      StepToLoss(i);
    }
  }

  /** In a run from the start a parent sleeps in `wait` and its only child runs.  If the child returns from its
      entry function instead of calling `exit`, the parent is stuck. */
  lemma ReturnCanLoseWakeup()
    ensures IsRun(StatesToLoss(), StepsToLoss()) && StatesToLoss()[0] == Empty()
    ensures var t := StatesToLoss()[|StepsToLoss()|]; var u := Dispatch(ThreadEnded(t, 1), 1);
      && Inv(t) && t.current == Some(1) && !MayReturn(t, 1)
      && Stuck(u, 0) && IsChild(u, 0, 1) && P(u, 1).state == Zombie
  {
    LossIsReached();
    ChildRuns();
    EmptyIsOk();
    ProcessRuns.RunKeepsInv(StatesToLoss(), StepsToLoss(), 4);
    OnlyChildEnds(ParentWaits(), 0, 1);
  }

  // ----- the end of init

  /** A child of init, when init has ended. */
  ghost predicate Abandoned(t: Table, k: nat) {
    t.init.Some? && P(t, t.init.value).state == Zombie && IsChild(t, t.init.value, k)
  }

  /** When init calls `exit` it hands its children over to itself; and what any other process leaves behind
      later is handed over to the dead init. */
  lemma ExitAbandons(t: Table, status: int, k: nat)
    requires Inv(t) && t.current.Some? && t.init.Some? && IsChild(t, t.current.value, k)
    requires t.current == t.init || P(t, t.init.value).state == Zombie
    ensures Abandoned(Exited(t, t.current.value, status), k)
  {
    var c := t.current.value;
    var u := Exited(t, c, status);
    assert SlotOk(t, c) && SlotOk(t, k) && SlotOk(t, t.init.value);
    assert P(u, t.init.value) == AfterExit(t, c, status, t.init.value) && P(u, k) == AfterExit(t, c, status, k);
  }

  /** A scheduling decision neither starts nor ends a process. */
  lemma DispatchKeepsEnds(t: Table, start: int, q: nat)
    requires |t.procs| == MAX_PROCESSES && start >= -1
    ensures var u := Dispatch(t, start); Used(u, q) == Used(t, q)
                                         && (P(t, q).state == Zombie <==> P(u, q).state == Zombie)
  {
    NearestIsFound(t.procs, start, 1);
  }

  predicate StaysEnded(t: Table, u: Table, q: nat) {
    Used(u, q) && (P(t, q).state == Zombie ==> P(u, q).state == Zombie)
  }

  lemma DecisionKeepsEnds(t: Table, s: Step, u: Table, q: nat)
    requires Inv(t) && Takes(t, s, u) && Used(t, q) && Decides(s)
    ensures StaysEnded(t, u, q)
  {
    assert SlotOk(t, q);
    match s
    case Yield =>
      if t.current == None { DispatchKeepsEnds(t, -1, q); }
      else { DispatchKeepsEnds(Parked(t, t.current.value), t.current.value, q); }
    case Sleep(id) => DispatchKeepsEnds(Slept(t, t.current.value, Other(id)), t.current.value, q);
    case WaitForChild => DispatchKeepsEnds(Slept(t, t.current.value, OfProcess(t.current.value)), t.current.value, q);
    case Exit(status) =>
      assert P(Exited(t, t.current.value, status), q) == AfterExit(t, t.current.value, status, q);
      DispatchKeepsEnds(Exited(t, t.current.value, status), t.current.value, q);
    case Return => DispatchKeepsEnds(ThreadEnded(t, t.current.value), t.current.value, q);
  }

  /** Who is used stays used until it is reaped, and a zombie stays a zombie. */
  lemma UsedStays(t: Table, s: Step, u: Table, q: nat)
    requires Inv(t) && Takes(t, s, u) && Used(t, q) && s != Reap(q)
    ensures StaysEnded(t, u, q)
  {
    if Decides(s) {
      DecisionKeepsEnds(t, s, u, q);
    } else {
      assert SlotOk(t, q);
    }
  }

  lemma NoReapOfAbandoned(t: Table, s: Step, u: Table, k: nat)
    requires Inv(t) && Takes(t, s, u) && Abandoned(t, k)
    ensures s != Reap(k) && s != Reap(t.init.value) && t.current != t.init
  {
    assert SlotOk(t, t.init.value) && SlotOk(t, k);
  }

  lemma AbandonedStays(t: Table, s: Step, u: Table, k: nat)
    requires Inv(t) && Takes(t, s, u) && Abandoned(t, k)
    ensures Abandoned(u, k) && s != Reap(k)
  {
    NoReapOfAbandoned(t, s, u, k);
    LogOnlyGrows(t, s, u, 0);
    UsedStays(t, s, u, t.init.value);
    UsedStays(t, s, u, k);
    StepKeepsFamily(t, s, u, k);
  }

  lemma AbandonedInRun(ts: seq<Table>, steps: seq<Step>, i: nat, k: nat)
    requires IsRun(ts, steps) && Inv(ts[0]) && i < |steps| && Abandoned(ts[i], k)
    ensures Abandoned(ts[i + 1], k) && steps[i] != Reap(k)
  {
    StepOfRun(ts, steps, i);
    AbandonedStays(ts[i], steps[i], ts[i + 1], k);
  }

  /** From then on no child of init is ever reaped: each keeps its slot, its stack and its address space for
      good. */
  lemma {:induction false} AbandonedForGood(ts: seq<Table>, steps: seq<Step>, i: nat, j: nat, k: nat)
    requires IsRun(ts, steps) && Inv(ts[0]) && i <= j < |ts| && Abandoned(ts[i], k)
    ensures Abandoned(ts[j], k) && (j < |steps| ==> steps[j] != Reap(k))
    decreases j
  {
    if i < j {
      AbandonedForGood(ts, steps, i, j - 1, k);
      AbandonedInRun(ts, steps, j - 1, k);
    }
    if j < |steps| { AbandonedInRun(ts, steps, j, k); }
  }
}
