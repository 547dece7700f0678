/** The process table as a value: its invariant, and the atomic steps of a kernel with one CPU that gives up
    control only where it says so. */
module ProcessTable {
  import opened Wrappers

  const MAX_PROCESSES := 64
  const NUM_OPEN_FILES := 16

  datatype ProcessState = Unused | Embryo | Runnable | Running | Sleeping | Zombie

  /** What a process sleeps on.  `wait` sleeps on the caller's own entry of the table. */
  datatype Channel = OfProcess(slot: nat) | Other(id: nat)

  /** `Process`.  A pointer to a process is its slot, a pointer to a file its index in the file table; `user`
      tells whether there is a trap frame.  Registers, stack contents, entry point and name are left out. */
  datatype Process = Process(
    pid: nat, state: ProcessState, parent: Option<nat>, channel: Option<Channel>, exit_status: int,
    files: seq<Option<nat>>, stack: Option<nat>, pml4: Option<nat>, user: bool)

  function NoFiles(): (s: seq<Option<nat>>)
    ensures |s| == NUM_OPEN_FILES && forall i | 0 <= i < |s| :: s[i] == None
  {
    seq(NUM_OPEN_FILES, _ => None)
  }

  function Blank(pid: nat): Process {
    Process(pid, Unused, None, None, 0, NoFiles(), None, None, false)
  }

  /** `ptable` and `cpu`, with `loaded` the address space in CR3.  The rest is history: which slot holds which
      kernel stack and address space, which slot each pid was given, which processes have ended and how, which
      have been reaped, and how many scheduling decisions there have been. */
  datatype Table = Table(
    procs: seq<Process>, current: Option<nat>, init: Option<nat>, next_pid: nat, loaded: Option<nat>,
    stacks: map<nat, nat>, spaces: map<nat, nat>, slot_of: map<nat, nat>, exits: map<nat, int>, reaped: set<nat>,
    decisions: nat)

  function P(t: Table, p: nat): Process {
    if p < |t.procs| then t.procs[p] else Blank(0)
  }

  predicate Used(t: Table, p: nat) { P(t, p).state != Unused }

  predicate IsChild(t: Table, p: nat, c: nat) { Used(t, c) && P(t, c).parent == Some(p) }

  // ----- the invariant

  /** Between steps no process is half made; the one that runs is the current one; the dead hold no files. */
  predicate StateOk(t: Table, p: nat) {
    && P(t, p).state != Embryo && |P(t, p).files| == NUM_OPEN_FILES
    && (P(t, p).state == Running <==> t.current == Some(p))
    && (P(t, p).state == Unused || P(t, p).state == Zombie ==> P(t, p).files == NoFiles())
  }

  /** A used slot owns a kernel stack and an address space, an unused one neither. */
  predicate OwnsOk(t: Table, p: nat) {
    var x := P(t, p);
    if Used(t, p) then
      && x.stack.Some? && x.stack.value in t.stacks && t.stacks[x.stack.value] == p
      && x.pml4.Some? && x.pml4.value in t.spaces && t.spaces[x.pml4.value] == p
    else x.stack == None == x.pml4
  }

  /** What is handed out is owned by the slot it was handed to: nothing leaks and nothing is shared. */
  predicate StackOk(t: Table, s: nat) {
    s in t.stacks ==> P(t, t.stacks[s]).stack == Some(s)
  }

  predicate SpaceOk(t: Table, s: nat) {
    s in t.spaces ==> P(t, t.spaces[s]).pml4 == Some(s)
  }

  /** A parent is another used slot, and alive unless it is init. */
  predicate ParentOk(t: Table, p: nat) {
    Used(t, p) && P(t, p).parent.Some? ==>
      var q := P(t, p).parent.value;
      q != p && Used(t, q) && (P(t, q).state == Zombie ==> t.init == Some(q))
  }

  /** Asleep in `wait`. */
  predicate Waiting(t: Table, p: nat) {
    P(t, p).state == Sleeping && P(t, p).channel == Some(OfProcess(p))
  }

  predicate ChildAlive(t: Table, p: nat, c: nat) {
    IsChild(t, p, c) ==> P(t, c).state != Zombie
  }

  /** `p` has a child to wait for, and none that is waiting for `p`. */
  ghost predicate KidsOk(t: Table, p: nat) {
    (exists c: nat :: IsChild(t, p, c)) && forall c: nat :: ChildAlive(t, p, c)
  }

  /** Nobody sleeps in `wait` who should not: no wakeup is ever lost. */
  ghost predicate WaitOk(t: Table, p: nat) {
    Waiting(t, p) ==> KidsOk(t, p)
  }

  /** The pid of a used slot is that slot's; a zombie's end is on record and not yet reported. */
  predicate PidOk(t: Table, p: nat) {
    Used(t, p) ==>
      var x := P(t, p);
      && x.pid in t.slot_of && t.slot_of[x.pid] == p
      && (if x.state == Zombie then x.pid in t.exits && t.exits[x.pid] == x.exit_status && x.pid !in t.reaped
          else x.pid !in t.exits)
  }

  predicate LogOk(t: Table, pid: nat) {
    (pid in t.slot_of || pid in t.exits ==> pid < t.next_pid) && (pid in t.reaped ==> pid in t.exits)
  }

  predicate CpuOk(t: Table) {
    && (t.current.Some? ==> t.current.value < MAX_PROCESSES && t.loaded == P(t, t.current.value).pml4)
    && (t.loaded.Some? ==> t.loaded.value in t.spaces)
    && (t.init.Some? ==> Used(t, t.init.value) && P(t, t.init.value).parent == None)
  }

  ghost predicate SlotOk(t: Table, p: nat) {
    StateOk(t, p) && OwnsOk(t, p) && ParentOk(t, p) && WaitOk(t, p) && PidOk(t, p)
  }

  ghost predicate Inv(t: Table) {
    && |t.procs| == MAX_PROCESSES && CpuOk(t)
    && (forall p: nat :: SlotOk(t, p))
    && (forall s: nat :: StackOk(t, s))
    && (forall s: nat :: SpaceOk(t, s))
    && (forall pid: nat :: LogOk(t, pid))
  }

  // ----- what the invariant means

  lemma AtMostOneRuns(t: Table, p: nat, q: nat)
    requires Inv(t) && P(t, p).state == Running && P(t, q).state == Running
    ensures p == q && t.current == Some(p)
  {
    assert SlotOk(t, p) && SlotOk(t, q);
  }

  lemma PidsAreUnique(t: Table, p: nat, q: nat)
    requires Inv(t) && Used(t, p) && Used(t, q) && P(t, p).pid == P(t, q).pid
    ensures p == q
  {
    assert SlotOk(t, p) && SlotOk(t, q);
  }

  /** Every kernel stack and every address space that is handed out belongs to exactly one used slot, and every
      used slot has one of each. */
  lemma OwnershipIsExact(t: Table, p: nat, q: nat, s: nat)
    requires Inv(t) && p != q
    ensures Used(t, p) <==> P(t, p).stack.Some?
    ensures Used(t, p) <==> P(t, p).pml4.Some?
    ensures Used(t, p) && Used(t, q) ==> P(t, p).stack != P(t, q).stack && P(t, p).pml4 != P(t, q).pml4
    ensures s in t.stacks <==> exists r: nat :: Used(t, r) && P(t, r).stack == Some(s)
    ensures s in t.spaces <==> exists r: nat :: Used(t, r) && P(t, r).pml4 == Some(s)
  {
    assert SlotOk(t, p) && SlotOk(t, q) && StackOk(t, s) && SpaceOk(t, s);
    if s in t.stacks { assert SlotOk(t, t.stacks[s]) && Used(t, t.stacks[s]); }
    if s in t.spaces { assert SlotOk(t, t.spaces[s]) && Used(t, t.spaces[s]); }
    forall r: nat | Used(t, r) ensures P(t, r).stack.Some? && P(t, r).stack.value in t.stacks
                                       && P(t, r).pml4.Some? && P(t, r).pml4.value in t.spaces {
      assert SlotOk(t, r);
    }
  }

  /** A slot that is taken into use again has no children. */
  lemma UnusedHasNoChildren(t: Table, p: nat, c: nat)
    requires Inv(t) && !Used(t, p)
    ensures !IsChild(t, p, c)
  {
    assert SlotOk(t, c);
  }

  // ----- choosing the next process

  /** Steps from `start` forward, around the table, to slot `k`; `start` is -1 when nothing was running. */
  function Distance(start: int, k: nat): (d: nat)
    ensures d < MAX_PROCESSES
  {
    (k - start - 1) % MAX_PROCESSES
  }

  function RunnableFrom(procs: seq<Process>, start: int, off: nat): Option<nat>
    requires |procs| == MAX_PROCESSES && start >= -1 && off >= 1
    decreases MAX_PROCESSES + 1 - off
  {
    if off > MAX_PROCESSES then None
    else
      var idx := (start + off) % MAX_PROCESSES;
      if procs[idx].state == Runnable then Some(idx) else RunnableFrom(procs, start, off + 1)
  }

  /** The search finds the runnable process that is nearest in the cyclic order, if there is one at all. */
  lemma {:induction false} NearestIsFound(procs: seq<Process>, start: int, off: nat)
    requires |procs| == MAX_PROCESSES && start >= -1 && off >= 1
    ensures var r := RunnableFrom(procs, start, off);
      forall j: nat | j < MAX_PROCESSES && procs[j].state == Runnable && Distance(start, j) >= off - 1 ::
        r.Some? && Distance(start, r.value) <= Distance(start, j)
    ensures var r := RunnableFrom(procs, start, off);
      r.Some? ==> r.value < MAX_PROCESSES && procs[r.value].state == Runnable && Distance(start, r.value) >= off - 1
    decreases MAX_PROCESSES + 1 - off
  {
    if off <= MAX_PROCESSES {
      var idx := (start + off) % MAX_PROCESSES;
      assert Distance(start, idx) == off - 1;
      if procs[idx].state != Runnable {
        NearestIsFound(procs, start, off + 1);
        forall j: nat | j < MAX_PROCESSES && procs[j].state == Runnable && Distance(start, j) >= off - 1
          ensures Distance(start, j) >= off
        {
          if Distance(start, j) == off - 1 { SameDistance(start, j, idx); }
        }
      }
    }
  }

  lemma SameDistance(start: int, j: nat, k: nat)
    requires j < MAX_PROCESSES && k < MAX_PROCESSES && Distance(start, j) == Distance(start, k)
    ensures j == k
  {
  }

  /** Where the search starts. */
  function StartOf(current: Option<nat>): int {
    if current.Some? then current.value else -1
  }

  function Run(t: Table, k: nat): Table
    requires k < |t.procs|
  {
    t.(procs := t.procs[k := t.procs[k].(state := Running)], current := Some(k), loaded := t.procs[k].pml4,
       decisions := t.decisions + 1)
  }

  /** A scheduling decision: the nearest runnable process runs; without one, nobody does. */
  function Dispatch(t: Table, start: int): Table
    requires |t.procs| == MAX_PROCESSES && start >= -1
  {
    var r := RunnableFrom(t.procs, start, 1);
    if r.Some? && r.value < MAX_PROCESSES then Run(t, r.value) else t.(current := None)
  }

  /** Nothing that `wait` looks at has changed. */
  predicate SameFamily(t: Table, u: Table, q: nat) {
    && P(u, q).parent == P(t, q).parent && Used(u, q) == Used(t, q)
    && (P(u, q).state == Zombie <==> P(t, q).state == Zombie)
  }

  lemma SameKids(t: Table, u: Table, p: nat)
    requires KidsOk(t, p) && forall q: nat :: SameFamily(t, u, q)
    ensures KidsOk(u, p)
  {
    var c: nat :| IsChild(t, p, c);
    assert SameFamily(t, u, c) && IsChild(u, p, c);
    forall c: nat ensures ChildAlive(u, p, c) {
      assert SameFamily(t, u, c) && ChildAlive(t, p, c);
    }
  }

  lemma RunKeepsInv(t: Table, k: nat)
    requires Inv(t) && t.current == None && k < MAX_PROCESSES && P(t, k).state == Runnable
    ensures Inv(Run(t, k))
  {
    var u := Run(t, k);
    forall q: nat ensures SameFamily(t, u, q) {
    }
    forall p: nat ensures SlotOk(u, p) {
      RunSlot(t, k, p);
    }
    assert SlotOk(t, k);
    forall s: nat ensures StackOk(u, s) && SpaceOk(u, s) && LogOk(u, s) {
      assert StackOk(t, s) && SpaceOk(t, s) && LogOk(t, s);
    }
  }

  lemma RunSlot(t: Table, k: nat, p: nat)
    requires Inv(t) && t.current == None && k < MAX_PROCESSES && P(t, k).state == Runnable
    requires forall q: nat :: SameFamily(t, Run(t, k), q)
    ensures SlotOk(Run(t, k), p)
  {
    assert SlotOk(t, p);
    if Waiting(t, p) { SameKids(t, Run(t, k), p); }
  }

  lemma DispatchKeepsInv(t: Table, start: int)
    requires Inv(t) && t.current == None && start >= -1
    ensures Inv(Dispatch(t, start))
  {
    NearestIsFound(t.procs, start, 1);
    var r := RunnableFrom(t.procs, start, 1);
    if r.Some? { RunKeepsInv(t, r.value); }
  }
}
