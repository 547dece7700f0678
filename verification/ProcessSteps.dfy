/** The steps of the process table, and that each keeps the invariant. */
module ProcessSteps {
  import opened Wrappers
  import opened ProcessTable

  // ----- giving up the processor

  /** The current process steps back: it is runnable again if it was running. */
  function Parked(t: Table, c: nat): Table
    requires c < |t.procs|
  {
    t.(procs := t.procs[c := t.procs[c].(state := if t.procs[c].state == Running then Runnable else t.procs[c].state)],
       current := None)
  }

  function Slept(t: Table, c: nat, ch: Channel): Table
    requires c < |t.procs|
  {
    t.(procs := t.procs[c := t.procs[c].(state := Sleeping, channel := Some(ch))], current := None)
  }

  /** A process goes to sleep on `ch`, or back among the runnable ones. */
  ghost predicate StepsBack(t: Table, c: nat, u: Table) {
    && t.current == Some(c) && c < |t.procs|
    && (u == Parked(t, c) || exists ch: Channel :: u == Slept(t, c, ch) && MaySleep(t, c, ch))
  }

  /** Only `wait` puts a process to sleep on its own slot, and only if it has found children and no zombie. */
  ghost predicate MaySleep(t: Table, c: nat, ch: Channel) {
    ch == OfProcess(c) ==> KidsOk(t, c)
  }

  lemma StepBackSlot(t: Table, c: nat, u: Table, p: nat)
    requires Inv(t) && StepsBack(t, c, u) && forall q: nat :: SameFamily(t, u, q)
    ensures SlotOk(u, p)
  {
    assert SlotOk(t, p);
    if Waiting(u, p) { SameKids(t, u, p); }
  }

  lemma StepBackKeepsInv(t: Table, c: nat, u: Table)
    requires Inv(t) && StepsBack(t, c, u)
    ensures Inv(u) && u.current == None
  {
    assert SlotOk(t, c);
    forall q: nat ensures SameFamily(t, u, q) {
    }
    forall p: nat ensures SlotOk(u, p) {
      StepBackSlot(t, c, u, p);
    }
    forall s: nat ensures StackOk(u, s) && SpaceOk(u, s) && LogOk(u, s) {
      assert StackOk(t, s) && SpaceOk(t, s) && LogOk(t, s);
    }
    if t.init.Some? { assert SlotOk(t, t.init.value); }
  }

  // ----- waking up

  function WokenBy(x: Process, ch: Channel): Process {
    if x.state == Sleeping && x.channel == Some(ch) then x.(state := Runnable) else x
  }

  /** Everyone asleep on `ch` becomes runnable. */
  function Woken(t: Table, ch: Channel): Table {
    t.(procs := seq(|t.procs|, q requires 0 <= q < |t.procs| => WokenBy(t.procs[q], ch)))
  }

  lemma WokenSlot(t: Table, ch: Channel, p: nat)
    requires Inv(t) && forall q: nat :: SameFamily(t, Woken(t, ch), q)
    ensures SlotOk(Woken(t, ch), p)
  {
    assert SlotOk(t, p);
    if Waiting(t, p) { SameKids(t, Woken(t, ch), p); }
  }

  lemma WokenKeepsInv(t: Table, ch: Channel)
    requires Inv(t)
    ensures Inv(Woken(t, ch))
  {
    var u := Woken(t, ch);
    forall q: nat ensures SameFamily(t, u, q) {
    }
    forall p: nat ensures SlotOk(u, p) {
      WokenSlot(t, ch, p);
    }
    forall s: nat ensures StackOk(u, s) && SpaceOk(u, s) && LogOk(u, s) {
      assert StackOk(t, s) && SpaceOk(t, s) && LogOk(t, s);
    }
  }

  /** A process that comes back from `sleep` forgets the channel. */
  function Resumed(t: Table, c: nat): Table
    requires c < |t.procs|
  {
    t.(procs := t.procs[c := t.procs[c].(channel := None)])
  }

  lemma ResumedKeepsInv(t: Table, c: nat)
    requires Inv(t) && t.current == Some(c) && c < |t.procs|
    ensures Inv(Resumed(t, c))
  {
    var u := Resumed(t, c);
    forall q: nat ensures SameFamily(t, u, q) {
    }
    forall p: nat ensures SlotOk(u, p) {
      assert SlotOk(t, p);
      if Waiting(u, p) { SameKids(t, u, p); }
    }
    forall s: nat ensures StackOk(u, s) && SpaceOk(u, s) && LogOk(u, s) {
      assert StackOk(t, s) && SpaceOk(t, s) && LogOk(t, s);
    }
  }

  // ----- ending

  /** One of the children below slot `n` that `c` leaves behind is a zombie already. */
  ghost predicate LeavesZombie(t: Table, c: nat, n: nat) {
    exists q: nat :: q < n && IsChild(t, c, q) && P(t, q).state == Zombie
  }

  /** Whom `exit` wakes: the parent, and init if it inherits a zombie. */
  ghost predicate WokenByExit(t: Table, c: nat, n: nat, x: Process) {
    x.state == Sleeping
    && ((P(t, c).parent.Some? && x.channel == Some(OfProcess(P(t, c).parent.value)))
        || (t.init.Some? && LeavesZombie(t, c, n) && x.channel == Some(OfProcess(t.init.value))))
  }

  /** Slot `q` when process `c` ends with `status` and the slots below `n` have been looked through for children. */
  ghost function DuringExit(t: Table, c: nat, status: int, n: nat, q: nat): Process {
    var x := P(t, q);
    if q == c then x.(files := NoFiles(), exit_status := status, state := Zombie)
    else x.(state := if WokenByExit(t, c, n, x) then Runnable else x.state,
            parent := if q < n && IsChild(t, c, q) then t.init else x.parent)
  }

  ghost function AfterExit(t: Table, c: nat, status: int, q: nat): Process {
    DuringExit(t, c, status, MAX_PROCESSES, q)
  }

  ghost function Exited(t: Table, c: nat, status: int): Table {
    t.(procs := seq(|t.procs|, q requires 0 <= q < |t.procs| => AfterExit(t, c, status, q)),
       current := None, exits := t.exits[P(t, c).pid := status])
  }

  /** Nobody who still waits after an exit should have been woken. */
  lemma ExitWaits(t: Table, c: nat, status: int, p: nat)
    requires Inv(t) && t.current == Some(c)
    ensures WaitOk(Exited(t, c, status), p)
  {
    var u := Exited(t, c, status);
    assert SlotOk(t, p) && SlotOk(t, c);
    if Waiting(u, p) {
      assert P(u, p) == AfterExit(t, c, status, p) && Waiting(t, p);
      var d: nat :| IsChild(t, p, d);
      assert P(u, d) == AfterExit(t, c, status, d) && IsChild(u, p, d);
      forall d: nat ensures ChildAlive(u, p, d) {
        assert ChildAlive(t, p, d) && (d < 64 ==> P(u, d) == AfterExit(t, c, status, d));
        if IsChild(u, p, d) && P(u, d).state == Zombie && d != c {
          assert IsChild(t, c, d) && LeavesZombie(t, c, MAX_PROCESSES);
        }
      }
    }
  }

  lemma ExitSlot(t: Table, c: nat, status: int, p: nat)
    requires Inv(t) && t.current == Some(c)
    ensures SlotOk(Exited(t, c, status), p)
  {
    var u := Exited(t, c, status);
    assert SlotOk(t, p) && SlotOk(t, c) && LogOk(t, P(t, c).pid);
    ExitWaits(t, c, status, p);
    assert p < MAX_PROCESSES ==> P(u, p) == AfterExit(t, c, status, p);
    if Used(u, p) && P(u, p).parent.Some? {
      var q := P(u, p).parent.value;
      assert SlotOk(t, q);
      assert q < MAX_PROCESSES ==> P(u, q) == AfterExit(t, c, status, q);
    }
  }

  /** The end of a process: it becomes a zombie without files, its parent is woken, init inherits its children
      and is woken if one of them has ended before. */
  lemma ExitKeepsInv(t: Table, c: nat, status: int)
    requires Inv(t) && t.current == Some(c)
    ensures Inv(Exited(t, c, status))
  {
    var u := Exited(t, c, status);
    assert SlotOk(t, c) && LogOk(t, P(t, c).pid);
    forall p: nat ensures SlotOk(u, p) {
      ExitSlot(t, c, status, p);
    }
    forall s: nat ensures StackOk(u, s) && SpaceOk(u, s) && LogOk(u, s) {
      assert StackOk(t, s) && SpaceOk(t, s) && LogOk(t, s);
      assert s in t.stacks && t.stacks[s] < 64 ==> P(u, t.stacks[s]) == AfterExit(t, c, status, t.stacks[s]);
      assert s in t.spaces && t.spaces[s] < 64 ==> P(u, t.spaces[s]) == AfterExit(t, c, status, t.spaces[s]);
    }
    if t.init.Some? { assert SlotOk(t, t.init.value) && P(u, t.init.value) == AfterExit(t, c, status, t.init.value); }
  }

  // ----- a thread that returns from its entry function

  /** `trampoline` closes the files and makes a zombie, but neither wakes the parent nor hands children over. */
  function ThreadEnded(t: Table, c: nat): Table
    requires c < |t.procs|
  {
    t.(procs := t.procs[c := t.procs[c].(files := NoFiles(), state := Zombie)],
       current := None, exits := t.exits[t.procs[c].pid := t.procs[c].exit_status])
  }

  /** Returning is harmless exactly for a thread without children whose parent does not sleep in `wait`. */
  ghost predicate MayReturn(t: Table, c: nat) {
    && ((forall q: nat :: !IsChild(t, c, q)) || t.init == Some(c))
    && (P(t, c).parent.Some? ==> !Waiting(t, P(t, c).parent.value))
  }

  lemma EndedSlot(t: Table, c: nat, p: nat)
    requires Inv(t) && t.current == Some(c) && c < |t.procs| && MayReturn(t, c)
    ensures SlotOk(ThreadEnded(t, c), p)
  {
    var u := ThreadEnded(t, c);
    assert SlotOk(t, p) && SlotOk(t, c) && LogOk(t, P(t, c).pid);
    assert !IsChild(t, c, p) || t.init == Some(c);
    if Waiting(u, p) {
      var d: nat :| IsChild(t, p, d);
      assert IsChild(u, p, d);
      forall d: nat ensures ChildAlive(u, p, d) {
        assert ChildAlive(t, p, d);
      }
    }
  }

  lemma ThreadMayReturn(t: Table, c: nat)
    requires Inv(t) && t.current == Some(c) && c < |t.procs|
    ensures Inv(ThreadEnded(t, c)) <==> MayReturn(t, c)
  {
    var u := ThreadEnded(t, c);
    assert SlotOk(t, c) && LogOk(t, P(t, c).pid);
    if MayReturn(t, c) {
      forall p: nat ensures SlotOk(u, p) {
        EndedSlot(t, c, p);
      }
      forall s: nat ensures StackOk(u, s) && SpaceOk(u, s) && LogOk(u, s) {
        assert StackOk(t, s) && SpaceOk(t, s) && LogOk(t, s);
      }
    } else if exists q: nat :: IsChild(t, c, q) && t.init != Some(c) {
      var q: nat :| IsChild(t, c, q);
      assert SlotOk(t, q);
      assert !SlotOk(u, q);
    } else {
      var p := P(t, c).parent.value;
      assert Waiting(u, p) && !ChildAlive(u, p, c) && !SlotOk(u, p);
    }
  }

  // ----- reaping

  /** The slot of the ended process `k` is given back. */
  function Reaped(t: Table, k: nat): Table
    requires k < |t.procs| && t.procs[k].stack.Some? && t.procs[k].pml4.Some?
  {
    t.(procs := t.procs[k := Blank(t.procs[k].pid).(user := t.procs[k].user)],
       stacks := t.stacks - {t.procs[k].stack.value}, spaces := t.spaces - {t.procs[k].pml4.value},
       reaped := t.reaped + {t.procs[k].pid})
  }

  lemma ReapedSlot(t: Table, k: nat, p: nat)
    requires Inv(t) && k < |t.procs| && P(t, k).state == Zombie && t.init != Some(k)
    requires t.procs[k].stack.Some? && t.procs[k].pml4.Some?
    ensures SlotOk(Reaped(t, k), p)
  {
    var u := Reaped(t, k);
    assert SlotOk(t, p) && SlotOk(t, k);
    if Waiting(u, p) {
      var d: nat :| IsChild(t, p, d);
      assert ChildAlive(t, p, d) && IsChild(u, p, d);
      forall d: nat ensures ChildAlive(u, p, d) {
        assert ChildAlive(t, p, d);
      }
    }
  }

  /** Giving back the slot of a zombie that is neither init nor the owner of the address space in use. */
  lemma ReapedIsOk(t: Table, k: nat)
    requires Inv(t) && P(t, k).state == Zombie && t.init != Some(k) && P(t, k).pml4 != t.loaded
    requires k < |t.procs| && t.procs[k].stack.Some? && t.procs[k].pml4.Some?
    ensures Inv(Reaped(t, k))
  {
    assert SlotOk(t, k) && LogOk(t, P(t, k).pid);
    var u := Reaped(t, k);
    forall p: nat ensures SlotOk(u, p) {
      ReapedSlot(t, k, p);
    }
    forall s: nat ensures StackOk(u, s) && SpaceOk(u, s) && LogOk(u, s) {
      assert StackOk(t, s) && SpaceOk(t, s) && LogOk(t, s);
    }
    if t.current.Some? { assert SlotOk(t, t.current.value); }
    if t.init.Some? { assert SlotOk(t, t.init.value); }
  }

  /** Reaping gives back exactly what the dead child owned, which is not the address space in use; its end had
      been recorded and not been reported before. */
  lemma ReapedKeepsInv(t: Table, c: nat, k: nat)
    requires Inv(t) && t.current == Some(c) && IsChild(t, c, k) && P(t, k).state == Zombie
    ensures k < |t.procs| && t.procs[k].stack.Some? && t.procs[k].pml4.Some? && Inv(Reaped(t, k))
    ensures t.procs[k].stack.value in t.stacks && t.procs[k].pml4.value in t.spaces && t.procs[k].pml4 != t.loaded
    ensures P(t, k).pid !in t.reaped && P(t, k).pid in t.exits && t.exits[P(t, k).pid] == P(t, k).exit_status
  {
    assert SlotOk(t, k) && SlotOk(t, c) && LogOk(t, P(t, k).pid);
    ReapedIsOk(t, k);
  }

  /** In the kernel's own context `wait` reaps a zombie without a parent.  That is harmless exactly if it is not
      init, whose children would be left with a parent that is gone, and if its address space is not the one
      still loaded. */
  predicate MayReapOrphan(t: Table, k: nat) {
    t.init != Some(k) && P(t, k).pml4 != t.loaded
  }

  lemma OrphanReaped(t: Table, k: nat)
    requires Inv(t) && t.current == None && P(t, k).state == Zombie && P(t, k).parent == None
    ensures k < |t.procs| && t.procs[k].stack.Some? && t.procs[k].pml4.Some?
    ensures Inv(Reaped(t, k)) <==> MayReapOrphan(t, k)
  {
    assert SlotOk(t, k);
    if MayReapOrphan(t, k) { ReapedIsOk(t, k); }
  }

  // ----- being born

  /** A process is made in the unused slot `n`. */
  function Born(t: Table, n: nat, parent: Option<nat>, files: seq<Option<nat>>, stack: nat, space: nat,
                user: bool): Table
    requires n < |t.procs|
  {
    t.(procs := t.procs[n := Process(t.next_pid, Runnable, parent, None, t.procs[n].exit_status, files, Some(stack),
                                     Some(space), user)],
       next_pid := t.next_pid + 1, stacks := t.stacks[stack := n], spaces := t.spaces[space := n],
       slot_of := t.slot_of[t.next_pid := n])
  }

  lemma BornSlot(t: Table, n: nat, parent: Option<nat>, files: seq<Option<nat>>, stack: nat, space: nat, user: bool,
                 p: nat)
    requires Inv(t) && n < |t.procs| && !Used(t, n) && |files| == NUM_OPEN_FILES
    requires stack !in t.stacks && space !in t.spaces && (parent.Some? ==> t.current == parent)
    ensures SlotOk(Born(t, n, parent, files, stack, space, user), p)
  {
    var u := Born(t, n, parent, files, stack, space, user);
    assert SlotOk(t, p) && LogOk(t, t.next_pid) && LogOk(t, P(t, p).pid);
    if t.current.Some? { assert SlotOk(t, t.current.value); }
    UnusedHasNoChildren(t, n, p);
    if Waiting(u, p) {
      var d: nat :| IsChild(t, p, d);
      assert IsChild(u, p, d);
      forall d: nat ensures ChildAlive(u, p, d) {
        assert ChildAlive(t, p, d);
      }
    }
  }

  /** A new process, which may only be a child of the current one, disturbs nobody. */
  lemma BornKeepsInv(t: Table, n: nat, parent: Option<nat>, files: seq<Option<nat>>, stack: nat, space: nat, user: bool)
    requires Inv(t) && n < |t.procs| && !Used(t, n) && |files| == NUM_OPEN_FILES
    requires stack !in t.stacks && space !in t.spaces && (parent.Some? ==> t.current == parent)
    ensures Inv(Born(t, n, parent, files, stack, space, user))
  {
    var u := Born(t, n, parent, files, stack, space, user);
    forall p: nat ensures SlotOk(u, p) {
      BornSlot(t, n, parent, files, stack, space, user, p);
    }
    assert SlotOk(t, n);
    forall s: nat ensures StackOk(u, s) && SpaceOk(u, s) && LogOk(u, s) {
      assert StackOk(t, s) && SpaceOk(t, s) && LogOk(t, s);
    }
    if t.current.Some? { assert SlotOk(t, t.current.value); }
  }

  /** The process could not be made: the slot has used up a pid and is otherwise as good as new. */
  function NotBorn(t: Table, n: nat): Table
    requires n < |t.procs|
  {
    t.(procs := t.procs[n := Blank(t.next_pid)], next_pid := t.next_pid + 1)
  }

  lemma NotBornKeepsInv(t: Table, n: nat)
    requires Inv(t) && n < |t.procs| && !Used(t, n)
    ensures Inv(NotBorn(t, n))
  {
    var u := NotBorn(t, n);
    assert SlotOk(t, n);
    forall p: nat ensures SlotOk(u, p) {
      NotBornSlot(t, n, p);
    }
    forall s: nat ensures StackOk(u, s) && SpaceOk(u, s) && LogOk(u, s) {
      assert StackOk(t, s) && SpaceOk(t, s) && LogOk(t, s);
    }
    if t.current.Some? { assert SlotOk(t, t.current.value); }
  }

  lemma NotBornSlot(t: Table, n: nat, p: nat)
    requires Inv(t) && n < |t.procs| && !Used(t, n)
    ensures SlotOk(NotBorn(t, n), p)
  {
    var u := NotBorn(t, n);
    assert SlotOk(t, p);
    if Waiting(u, p) {
      var d: nat :| IsChild(t, p, d);
      assert IsChild(u, p, d);
      forall d: nat ensures ChildAlive(u, p, d) {
        assert ChildAlive(t, p, d);
      }
    }
  }

  // ----- system calls

  /** A system call of the current process opens or closes files, or it has just come in from user mode. */
  function WithFiles(t: Table, c: nat, files: seq<Option<nat>>, user: bool): Table
    requires c < |t.procs|
  {
    t.(procs := t.procs[c := t.procs[c].(files := files, user := user)])
  }

  lemma WithFilesKeepsInv(t: Table, c: nat, files: seq<Option<nat>>, user: bool)
    requires Inv(t) && t.current == Some(c) && c < |t.procs| && |files| == NUM_OPEN_FILES
    ensures Inv(WithFiles(t, c, files, user))
  {
    var u := WithFiles(t, c, files, user);
    assert SlotOk(t, c);
    forall q: nat ensures SameFamily(t, u, q) {
    }
    forall p: nat ensures SlotOk(u, p) {
      assert SlotOk(t, p);
      if Waiting(u, p) { SameKids(t, u, p); }
    }
    forall s: nat ensures StackOk(u, s) && SpaceOk(u, s) && LogOk(u, s) {
      assert StackOk(t, s) && SpaceOk(t, s) && LogOk(t, s);
    }
  }

  // ----- init

  /** The process that inherits orphans has ended and left children behind. */
  ghost predicate DeadInitHasChildren(t: Table) {
    t.init.Some? && P(t, t.init.value).state == Zombie && exists c: nat :: IsChild(t, t.init.value, c)
  }

  /** Another process, or none, inherits orphans from now on.  Only the children of a dead init mind. */
  lemma InitChanges(t: Table, init: Option<nat>)
    requires Inv(t) && init != t.init && (init.Some? ==> Used(t, init.value) && P(t, init.value).parent == None)
    ensures Inv(t.(init := init)) <==> !DeadInitHasChildren(t)
  {
    var u := t.(init := init);
    if DeadInitHasChildren(t) {
      var c: nat :| IsChild(t, t.init.value, c);
      assert !SlotOk(u, c);
      return;
    }
    forall q: nat ensures SameFamily(t, u, q) {
    }
    forall p: nat ensures SlotOk(u, p) {
      assert SlotOk(t, p);
      assert t.init.Some? && P(t, t.init.value).state == Zombie ==> !IsChild(t, t.init.value, p);
      if Waiting(u, p) { SameKids(t, u, p); }
    }
    forall s: nat ensures StackOk(u, s) && SpaceOk(u, s) && LogOk(u, s) {
      assert StackOk(t, s) && SpaceOk(t, s) && LogOk(t, s);
    }
  }
}
