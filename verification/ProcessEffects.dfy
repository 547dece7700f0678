/** What each step does, slot by slot and field by field, and what that means for a process that gives up the
    processor or is woken. */
module ProcessEffects {
  import opened Wrappers
  import opened ProcessTable
  import opened ProcessSteps
  import opened ProcessRuns

  // ----- the choice

  predicate RunnableAt(procs: seq<Process>, start: int, off: nat) {
    |procs| == MAX_PROCESSES && start >= -1 && procs[(start + off) % MAX_PROCESSES].state == Runnable
  }

  /** The slots after `start` are tried in turn, once around the table: the first that is runnable is chosen, and
      none only if none is. */
  ghost predicate Chooses(procs: seq<Process>, start: int, r: Option<nat>) {
    if r == None then forall q | 0 <= q < |procs| :: procs[q].state != Runnable
    else exists off: nat :: ChosenAt(procs, start, r.value, off)
  }

  ghost predicate ChosenAt(procs: seq<Process>, start: int, k: nat, off: nat) {
    && 1 <= off <= MAX_PROCESSES && k == (start + off) % MAX_PROCESSES && RunnableAt(procs, start, off)
    && forall o: nat | 1 <= o < off :: !RunnableAt(procs, start, o)
  }

  lemma OffsetReaches(start: int, q: nat)
    requires start >= -1 && q < MAX_PROCESSES
    ensures (start + (Distance(start, q) + 1)) % MAX_PROCESSES == q
  {
    var x := q - start - 1;
    assert x == 64 * (x / 64) + x % 64;
    assert start + (Distance(start, q) + 1) == q + 64 * (-(x / 64));
  }

  lemma {:induction false} FirstIsChosen(procs: seq<Process>, start: int, off: nat)
    requires |procs| == MAX_PROCESSES && start >= -1 && 1 <= off <= MAX_PROCESSES + 1
    requires forall o: nat | 1 <= o < off :: !RunnableAt(procs, start, o)
    ensures Chooses(procs, start, RunnableFrom(procs, start, off))
    decreases MAX_PROCESSES + 1 - off
  {
    if off > MAX_PROCESSES {
      forall q | 0 <= q < |procs| ensures procs[q].state != Runnable {
        OffsetReaches(start, q);
        assert !RunnableAt(procs, start, Distance(start, q) + 1);
      }
    } else if RunnableAt(procs, start, off) {
      assert ChosenAt(procs, start, (start + off) % MAX_PROCESSES, off);
    } else {
      FirstIsChosen(procs, start, off + 1);
    }
  }

  // ----- the slots

  /** What slot `q` holds after step `s`, before a decision that the step may end in. */
  ghost predicate Becomes(t: Table, s: Step, q: nat, x: Process) {
    var y, mine := P(t, q), t.current == Some(q);
    match s
    case Yield => x == if mine then y.(state := Runnable) else y
    case Sleep(id) => x == if mine then y.(state := Sleeping, channel := Some(Other(id))) else y
    case WaitForChild => x == if mine then y.(state := Sleeping, channel := Some(OfProcess(q))) else y
    case Wakeup(ch) => x == if AsleepOn(y, ch) then y.(state := Runnable) else y
    case Resume => x == if mine then y.(channel := None) else y
    case Exit(status) =>
      if mine then x == y.(state := Zombie, exit_status := status, files := NoFiles())
      else t.current.Some? && Bereaved(t, t.current.value, y, x)
    case Return => x == if mine then y.(state := Zombie, files := NoFiles()) else y
    case Reap(k) => if q == k then Emptied(y, x) else x == y
    case Fork(n, stack, space) =>
      if q == n then t.current.Some? && IsNew(t, y, x, stack, space) && Resembles(P(t, t.current.value), x)
                     && x.parent == t.current
      else x == y
    case Create(n, files, stack, space, asInit) =>
      if q == n then IsNew(t, y, x, stack, space) && x.parent == None && x.files == files && !x.user else x == y
    case CannotMake(n) => if q == n then Emptied(y.(pid := t.next_pid, user := false), x) else x == y
    case SystemCall(files, user) => x == if mine then y.(files := files, user := user) else y
  }

  ghost predicate AllBecome(t: Table, s: Step, procs: seq<Process>) {
    |procs| == MAX_PROCESSES && forall q | 0 <= q < MAX_PROCESSES :: Becomes(t, s, q, procs[q])
  }

  predicate AsleepOn(x: Process, ch: Channel) {
    x.state == Sleeping && x.channel == Some(ch)
  }

  /** When `c` ends: its parent wakes from `wait`, and so does init if one of the children of `c` has ended before;
      those children are init's from now on.  Else nothing about anybody changes. */
  ghost predicate Bereaved(t: Table, c: nat, y: Process, x: Process) {
    && x.pid == y.pid && x.channel == y.channel && x.exit_status == y.exit_status && x.files == y.files
    && x.stack == y.stack && x.pml4 == y.pml4 && x.user == y.user
    && x.parent == (if y.state != Unused && y.parent == Some(c) then t.init else y.parent)
    && (x.state != y.state ==> y.state == Sleeping && x.state == Runnable)
    && (x.state == Runnable && y.state == Sleeping <==>
          || (P(t, c).parent.Some? && AsleepOn(y, OfProcess(P(t, c).parent.value)))
          || (t.init.Some? && AsleepOn(y, OfProcess(t.init.value))
              && exists q: nat :: IsChild(t, c, q) && P(t, q).state == Zombie))
  }

  /** The slot is free again, and nothing but the last pid is left of what was there. */
  predicate Emptied(y: Process, x: Process) {
    && x.state == Unused && x.pid == y.pid && x.user == y.user
    && x.parent == None && x.channel == None && x.stack == None && x.pml4 == None && x.exit_status == 0
    && |x.files| == NUM_OPEN_FILES && forall fd | 0 <= fd < |x.files| :: x.files[fd] == None
  }

  /** A process with a pid of its own that is ready to run. */
  predicate IsNew(t: Table, y: Process, x: Process, stack: nat, space: nat) {
    && x.pid == t.next_pid && x.state == Runnable && x.channel == None && x.exit_status == y.exit_status
    && x.stack == Some(stack) && x.pml4 == Some(space)
  }

  /** What a child has from its parent. */
  predicate Resembles(parent: Process, child: Process) {
    child.files == parent.files && child.user == parent.user
  }

  // ----- the rest of the table

  /** The pid counter, init, and the history. */
  predicate Books(t: Table, s: Step, u: Table) {
    && u.init == (if s.Create? && s.asInit then Some(s.n) else t.init)
    && u.next_pid == (if s.Fork? || s.Create? || s.CannotMake? then t.next_pid + 1 else t.next_pid)
    && u.slot_of == (if s.Fork? || s.Create? then t.slot_of[t.next_pid := s.n] else t.slot_of)
    && u.stacks == (match s
                    case Fork(n, stack, space) => t.stacks[stack := n]
                    case Create(n, files, stack, space, asInit) => t.stacks[stack := n]
                    case Reap(k) => t.stacks - (if P(t, k).stack.Some? then {P(t, k).stack.value} else {})
                    case _ => t.stacks)
    && u.spaces == (match s
                    case Fork(n, stack, space) => t.spaces[space := n]
                    case Create(n, files, stack, space, asInit) => t.spaces[space := n]
                    case Reap(k) => t.spaces - (if P(t, k).pml4.Some? then {P(t, k).pml4.value} else {})
                    case _ => t.spaces)
    && u.exits == (if t.current == None then t.exits
                   else if s.Exit? then t.exits[P(t, t.current.value).pid := s.status]
                   else if s.Return? then t.exits[P(t, t.current.value).pid := P(t, t.current.value).exit_status]
                   else t.exits)
    && u.reaped == (if s.Reap? then t.reaped + {P(t, s.k).pid} else t.reaped)
  }

  /** The processes just before the decision: whoever runs now was runnable. */
  function BeforeChoice(u: Table): seq<Process> {
    if u.current.Some? && u.current.value < |u.procs|
    then u.procs[u.current.value := u.procs[u.current.value].(state := Runnable)] else u.procs
  }

  /** A step that ends in a decision: after its own effect the first runnable process after the one that ran is
      chosen, and its address space is loaded. */
  ghost predicate Decided(t: Table, s: Step, u: Table) {
    && AllBecome(t, s, BeforeChoice(u))
    && Chooses(BeforeChoice(u), if t.current.Some? then t.current.value else -1, u.current)
    && (u.current.Some? ==> u.current.value < MAX_PROCESSES && P(u, u.current.value).state == Running)
    && u.loaded == (if u.current.Some? then P(u, u.current.value).pml4 else t.loaded)
    && u.decisions == (if u.current.Some? then t.decisions + 1 else t.decisions)
  }

  ghost predicate Undecided(t: Table, s: Step, u: Table) {
    && AllBecome(t, s, u.procs)
    && u.current == t.current && u.loaded == t.loaded && u.decisions == t.decisions
  }

  /** All that step `s` does. */
  ghost predicate Does(t: Table, s: Step, u: Table) {
    Books(t, s, u) && if Decides(s) then Decided(t, s, u) else Undecided(t, s, u)
  }

  /** What a decision on `v` does. */
  lemma DispatchMeans(v: Table, start: int)
    requires |v.procs| == MAX_PROCESSES && v.current == None && start >= -1
    ensures var u := Dispatch(v, start);
      && u == v.(procs := u.procs, current := u.current, loaded := u.loaded, decisions := u.decisions)
      && BeforeChoice(u) == v.procs && Chooses(v.procs, start, u.current)
      && (u.current.Some? ==> u.current.value < MAX_PROCESSES && P(u, u.current.value).state == Running)
      && u.loaded == (if u.current.Some? then P(u, u.current.value).pml4 else v.loaded)
      && u.decisions == (if u.current.Some? then v.decisions + 1 else v.decisions)
  {
    FirstIsChosen(v.procs, start, 1);
    NearestIsFound(v.procs, start, 1);
    var u := Dispatch(v, start);
    assert BeforeChoice(u) == v.procs;
  }

  lemma BooksAfterDecision(t: Table, s: Step, v: Table, u: Table)
    requires Books(t, s, v)
    requires u == v.(procs := u.procs, current := u.current, loaded := u.loaded, decisions := u.decisions)
    ensures Books(t, s, u)
  {
  }

  /** A decision on `v`, which is `t` after the effect of the step. */
  lemma DecisionMeans(t: Table, s: Step, v: Table)
    requires AllBecome(t, s, v.procs) && Books(t, s, v) && Decides(s)
    requires v.current == None && v.loaded == t.loaded && v.decisions == t.decisions
    ensures StartOf(t.current) >= -1 && Does(t, s, Dispatch(v, StartOf(t.current)))
  {
    DispatchMeans(v, StartOf(t.current));
    BooksAfterDecision(t, s, v, Dispatch(v, StartOf(t.current)));
  }

  lemma YieldDoes(t: Table, u: Table)
    requires Inv(t) && Takes(t, Yield, u)
    ensures Does(t, Yield, u)
  {
    if t.current.Some? { assert SlotOk(t, t.current.value); }
    var v := if t.current.Some? then Parked(t, t.current.value) else t;
    assert AllBecome(t, Yield, v.procs);
    DecisionMeans(t, Yield, v);
  }

  lemma SleepDoes(t: Table, id: nat, u: Table)
    requires Takes(t, Sleep(id), u)
    ensures Does(t, Sleep(id), u)
  {
    var v := Slept(t, t.current.value, Other(id));
    assert AllBecome(t, Sleep(id), v.procs);
    DecisionMeans(t, Sleep(id), v);
  }

  lemma WaitDoes(t: Table, u: Table)
    requires Takes(t, WaitForChild, u)
    ensures Does(t, WaitForChild, u)
  {
    var v := Slept(t, t.current.value, OfProcess(t.current.value));
    assert AllBecome(t, WaitForChild, v.procs);
    DecisionMeans(t, WaitForChild, v);
  }

  lemma ReturnDoes(t: Table, u: Table)
    requires Takes(t, Return, u)
    ensures Does(t, Return, u)
  {
    var v := ThreadEnded(t, t.current.value);
    assert AllBecome(t, Return, v.procs);
    DecisionMeans(t, Return, v);
  }

  lemma ExitBereaves(t: Table, c: nat, status: int, q: nat)
    requires Inv(t) && t.current == Some(c) && q < MAX_PROCESSES
    ensures Becomes(t, Exit(status), q, AfterExit(t, c, status, q))
  {
    assert forall d: nat :: IsChild(t, c, d) ==> d < MAX_PROCESSES;
    assert LeavesZombie(t, c, MAX_PROCESSES) <==> exists d: nat :: IsChild(t, c, d) && P(t, d).state == Zombie;
  }

  lemma ExitDoes(t: Table, status: int, u: Table)
    requires Inv(t) && Takes(t, Exit(status), u)
    ensures Does(t, Exit(status), u)
  {
    var v := Exited(t, t.current.value, status);
    forall q | 0 <= q < MAX_PROCESSES ensures Becomes(t, Exit(status), q, v.procs[q]) {
      ExitBereaves(t, t.current.value, status, q);
    }
    DecisionMeans(t, Exit(status), v);
  }

  /** A slot is given back or taken into use. */
  lemma SlotDoes(t: Table, s: Step, u: Table)
    requires Inv(t) && Takes(t, s, u) && (s.Reap? || s.Fork? || s.Create? || s.CannotMake?)
    ensures Does(t, s, u)
  {
    if s.Fork? { assert SlotOk(t, t.current.value); }
    forall q | 0 <= q < MAX_PROCESSES ensures Becomes(t, s, q, u.procs[q]) {
    }
  }

  /** Every step does what is said here, and no more. */
  lemma TakesDoes(t: Table, s: Step, u: Table)
    requires Inv(t) && Takes(t, s, u)
    ensures Does(t, s, u)
  {
    match s
    case Yield => YieldDoes(t, u);
    case Sleep(id) => SleepDoes(t, id, u);
    case WaitForChild => WaitDoes(t, u);
    case Exit(status) => ExitDoes(t, status, u);
    case Return => ReturnDoes(t, u);
    case Wakeup(ch) => assert AllBecome(t, s, u.procs);
    case Resume => assert AllBecome(t, s, u.procs);
    case SystemCall(files, user) => assert AllBecome(t, s, u.procs);
    case _ => SlotDoes(t, s, u);
  }

  // ----- giving up the processor

  /** After a yield the process that yielded is runnable, or has been chosen again; nothing else about it has
      changed, and nobody else has changed but that the chosen one, which was runnable, runs. */
  ghost predicate YieldedTo(t: Table, u: Table, q: nat) {
    var x := if t.current == Some(q) then P(t, q).(state := Runnable) else P(t, q);
    if u.current == Some(q) then x.state == Runnable && P(u, q) == x.(state := Running) else P(u, q) == x
  }

  lemma YieldMeans(t: Table, u: Table, q: nat)
    requires Inv(t) && Takes(t, Yield, u)
    ensures YieldedTo(t, u, q)
  {
    TakesDoes(t, Yield, u);
    if q < MAX_PROCESSES {
      assert Becomes(t, Yield, q, BeforeChoice(u)[q]);
      if u.current == Some(q) {
        var off: nat :| ChosenAt(BeforeChoice(u), if t.current.Some? then t.current.value else -1, q, off);
      }
    }
  }

  lemma LaterRun(ts: seq<Table>, steps: seq<Step>, i: nat, j: nat)
    requires IsRun(ts, steps) && Inv(ts[0]) && i <= j < |ts|
    ensures IsRun(ts[i..j + 1], steps[i..j]) && Inv(ts[i..j + 1][0])
  {
    ProcessRuns.RunKeepsInv(ts, steps, i);
    var us, taken := ts[i..j + 1], steps[i..j];
    forall k: nat ensures StepAt(us, taken, k) {
      if k < j - i { assert StepAt(ts, steps, i + k); }
    }
  }

  /** A runnable process is passed over fewer than 64 times, from anywhere in a run. */
  lemma RunnableRunsSoonFrom(ts: seq<Table>, steps: seq<Step>, i: nat, j: nat, q: nat)
    requires IsRun(ts, steps) && Inv(ts[0]) && i <= j < |ts| && q < MAX_PROCESSES && P(ts[i], q).state == Runnable
    requires forall k | i < k <= j :: P(ts[k], q).state != Running
    ensures P(ts[j], q).state == Runnable
    ensures ts[j].decisions - ts[i].decisions <= Distance(StartOf(ts[i].current), q)
  {
    LaterRun(ts, steps, i, j);
    var us := ts[i..j + 1];
    forall k | 0 < k < |us| ensures P(us[k], q).state != Running {
    }
    RunnableRunsSoon(us, steps[i..j], q);
  }

  /** A yield that passes over the process that yields leaves it runnable, and the search nearer to it. */
  lemma YieldPassesOver(t: Table, u: Table, c: nat)
    requires Inv(t) && Takes(t, Yield, u) && t.current == Some(c) && P(u, c).state != Running
    ensures P(u, c).state == Runnable && c < MAX_PROCESSES
    ensures u.decisions - t.decisions + Distance(StartOf(u.current), c) < MAX_PROCESSES
  {
    assert SlotOk(t, c);
    DecisionComesCloser(Parked(t, c), c, c);
  }

  /** A process that yields stays runnable until it runs again, and that is before 64 decisions have been made,
      the one of the yield among them. */
  lemma YielderRunsAgain(ts: seq<Table>, steps: seq<Step>, i: nat, j: nat, c: nat)
    requires IsRun(ts, steps) && Inv(ts[0]) && i < j < |ts| && steps[i] == Yield && ts[i].current == Some(c)
    requires forall k | i < k <= j :: P(ts[k], c).state != Running
    ensures P(ts[j], c).state == Runnable && ts[j].decisions - ts[i].decisions < MAX_PROCESSES
  {
    StepOfRun(ts, steps, i);
    YieldPassesOver(ts[i], ts[i + 1], c);
    RunnableRunsSoonFrom(ts, steps, i + 1, j, c);
  }

  /** A process that is woken runs before 64 more decisions have been made; whoever sleeps on something else
      sleeps on. */
  lemma WokenRunsSoon(ts: seq<Table>, steps: seq<Step>, i: nat, j: nat, q: nat, ch: Channel)
    requires IsRun(ts, steps) && Inv(ts[0]) && i < j < |ts| && steps[i] == Wakeup(ch) && q < MAX_PROCESSES
    requires P(ts[i], q).state == Sleeping && P(ts[i], q).channel == Some(ch)
    requires forall k | i < k <= j :: P(ts[k], q).state != Running
    ensures P(ts[j], q).state == Runnable && ts[j].decisions - ts[i].decisions < MAX_PROCESSES
  {
    StepOfRun(ts, steps, i);
    TakesDoes(ts[i], steps[i], ts[i + 1]);
    assert Becomes(ts[i], steps[i], q, P(ts[i + 1], q));
    RunnableRunsSoonFrom(ts, steps, i + 1, j, q);
  }

  /** A process goes to sleep on a channel, and sleeps until a step wakes it: a wakeup of that channel, or, asleep
      in `wait`, the end of a child. */
  lemma SleepsUntilWoken(t: Table, s: Step, u: Table, q: nat, ch: Channel)
    requires Inv(t) && Takes(t, s, u) && q < MAX_PROCESSES && AsleepOn(P(t, q), ch)
    ensures if s == Wakeup(ch) then P(u, q) == P(t, q).(state := Runnable)
            else AsleepOn(P(u, q), ch) || (s.Exit? && ch.OfProcess?)
  {
    assert SlotOk(t, q);
    TakesDoes(t, s, u);
    if Decides(s) {
      assert Becomes(t, s, q, BeforeChoice(u)[q]);
      if u.current == Some(q) {
        var off: nat :| ChosenAt(BeforeChoice(u), if t.current.Some? then t.current.value else -1, q, off);
      }
    } else {
      assert Becomes(t, s, q, P(u, q));
    }
  }
}
