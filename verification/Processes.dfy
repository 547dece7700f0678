/** The kernel's processes: the functions of `process.cpp`, `file.cpp` and `sys_close`, each shown to take one of
    the steps of the process table.  What the heap and the memory manager hand out comes in as a parameter. */
module Processes {
  import opened Wrappers
  import opened ProcessTable
  import opened ProcessSteps
  import opened ProcessRuns
  import opened ProcessEffects
  import opened OpenFiles

  /** One round of `wait`. */
  datatype WaitResult = Reported(pid: nat, status: int) | NoChild | Asleep

  /** Whoever can run has an address space. */
  predicate SpacesReady(procs: seq<Process>) {
    forall k | 0 <= k < |procs| :: procs[k].state == Runnable ==> procs[k].pml4.Some?
  }

  /** `q` is a child of the caller of `wait`; `None` is the kernel's own context. */
  predicate ChildOf(t: Table, who: Option<nat>, q: nat) {
    Used(t, q) && P(t, q).parent == who
  }

  /** The caller has children, and none of them has ended. */
  ghost predicate NoneEnded(t: Table, who: Option<nat>) {
    (exists q: nat :: ChildOf(t, who, q)) && forall q: nat | ChildOf(t, who, q) :: P(t, q).state != Zombie
  }

  /** Of the children that have ended, the one that `wait` reports. */
  ghost predicate FirstEnded(t: Table, k: nat) {
    ChildOf(t, t.current, k) && P(t, k).state == Zombie
    && forall q: nat | q < k && ChildOf(t, t.current, q) :: P(t, q).state != Zombie
  }

  predicate IsReaped(t: Table, k: nat, u: Table) {
    && k < |t.procs| && t.procs[k].stack.Some? && t.procs[k].pml4.Some? && ChildOf(t, t.current, k)
    && P(t, k).state == Zombie && u == Reaped(t, k)
  }

  ghost predicate AllUsed(t: Table) {
    forall q: nat | q < MAX_PROCESSES :: Used(t, q)
  }

  /** The slot that a new process gets. */
  ghost predicate FirstFree(t: Table, n: nat) {
    n < MAX_PROCESSES && !Used(t, n) && forall q: nat | q < n :: Used(t, q)
  }

  /** A process could not be made: nothing has happened for want of a slot, and otherwise a pid is used up. */
  ghost predicate NotMade(t: Table, u: Table) {
    if AllUsed(t) then u == t else exists n: nat :: FirstFree(t, n) && Takes(t, CannotMake(n), u)
  }

  /** No file before `f` is free. */
  predicate FirstFreeFile(files: seq<File>, f: nat) {
    f < |files| && files[f] == FREE_FILE && forall g | 0 <= g < f :: files[g].refcnt != 0
  }

  class Kernel {
    var procs: seq<Process>
    var current: Option<nat>
    var init_proc: Option<nat>
    var next_pid: nat
    var loaded: Option<nat>          // CR3
    var file_table: seq<File>

    ghost var stacks: map<nat, nat>
    ghost var spaces: map<nat, nat>
    ghost var slot_of: map<nat, nat>
    ghost var exits: map<nat, int>
    ghost var reaped: set<nat>
    ghost var decisions: nat

    ghost function T(): Table
      reads this
    {
      Table(procs, current, init_proc, next_pid, loaded, stacks, spaces, slot_of, exits, reaped, decisions)
    }

    ghost predicate Valid()
      reads this
    {
      Inv(T()) && FilesOk(procs, file_table)
    }

    /** `initialize`, on tables that have never been used. */
    constructor ()
      ensures Valid() && T() == Empty()
    {
      procs, file_table := Empty().procs, NewFileTable();
      current, init_proc, next_pid, loaded, decisions := None, None, 1, None, 0;
      stacks, spaces, slot_of, exits, reaped := map[], map[], map[], map[], {};
      new;
      EmptyIsOk();
      NewTablesOk(procs);
    }

    // ----- open files

    /** The first free entry of the file table, now with one reference. */
    method FileAllocate() returns (r: Option<nat>)
      requires FilesOk(procs, file_table)
      modifies this`file_table
      ensures r == None ==> file_table == old(file_table) && forall f | 0 <= f < NUM_FILES :: file_table[f].refcnt != 0
      ensures r.Some? ==>
                && r.value < NUM_FILES && FirstFreeFile(old(file_table), r.value)
                && file_table == old(file_table)[r.value := FREE_FILE.(refcnt := 1)]
    {
      for f := 0 to NUM_FILES
        invariant file_table == old(file_table) && forall g | 0 <= g < f :: file_table[g].refcnt != 0
      {
        if file_table[f].refcnt == 0 {
          assert FileOk(procs, file_table, f);
          file_table := file_table[f := file_table[f].(refcnt := 1)];
          return Some(f);
        }
      }
      return None;
    }

    method FileDuplicate(file: Option<nat>) returns (r: Option<nat>)
      requires file.Some? ==> file.value < |file_table|
      modifies this`file_table
      ensures r == file
      ensures file_table == if file == None then old(file_table)
                            else old(file_table)[file.value := Duplicated(old(file_table)[file.value])]
    {
      if file.Some? {
        file_table := file_table[file.value := Duplicated(file_table[file.value])];
      }
      return file;
    }

    method FileClose(file: Option<nat>)
      requires file.Some? ==> file.value < |file_table|
      modifies this`file_table
      ensures file_table == if file == None || old(file_table)[file.value].refcnt <= 0 then old(file_table)
                            else old(file_table)[file.value := Dropped(old(file_table)[file.value])]
    {
      if file == None || file_table[file.value].refcnt <= 0 {
        return;
      }
      var f := file.value;
      file_table := file_table[f := file_table[f].(refcnt := file_table[f].refcnt - 1)];
      if file_table[f].refcnt > 0 {
        return;
      }
      file_table := file_table[f := file_table[f].(inode := None)];
      file_table := file_table[f := file_table[f].(kind := NoType, readable := false, writable := false, offset := 0)];
    }

    method FileOpenConsole(readable: bool, writable: bool) returns (r: Option<nat>)
      requires FilesOk(procs, file_table)
      modifies this`file_table
      ensures r == None ==> file_table == old(file_table) && forall f | 0 <= f < NUM_FILES :: file_table[f].refcnt != 0
      ensures r.Some? ==>
                && r.value < NUM_FILES && FirstFreeFile(old(file_table), r.value)
                && file_table == old(file_table)[r.value := File(Console, 1, readable, writable, None, 0)]
    {
      r := FileAllocate();
      if r == None {
        return None;
      }
      var x := file_table[r.value].(kind := Console, readable := readable, writable := writable);
      file_table := file_table[r.value := x];
    }

    /** Closes every descriptor of a process; the counts stay exact. */
    method CloseAllFiles(p: nat)
      requires p < |procs| && |procs[p].files| == NUM_OPEN_FILES && FilesOk(procs, file_table)
      modifies this`procs, this`file_table
      ensures procs == old(procs)[p := old(procs)[p].(files := NoFiles())] && FilesOk(procs, file_table)
      ensures forall f: nat :: FileKept(old(file_table), file_table, f)
    {
      for fd := 0 to NUM_OPEN_FILES
        invariant |procs| == |old(procs)| && |procs[p].files| == NUM_OPEN_FILES && FilesOk(procs, file_table)
        invariant procs == old(procs)[p := old(procs)[p].(files := procs[p].files)]
        invariant forall d | 0 <= d < fd :: procs[p].files[d] == None
        invariant forall d | fd <= d < NUM_OPEN_FILES :: procs[p].files[d] == old(procs)[p].files[d]
        invariant |file_table| == |old(file_table)| && forall f: nat :: FileKept(old(file_table), file_table, f)
      {
        var file := procs[p].files[fd];
        assert FdOk(procs, p, fd);
        ghost var was, before := procs, file_table;
        if file.Some? { FilesAfterClose(procs, file_table, p, fd, file.value); }
        FileClose(file);
        procs := procs[p := procs[p].(files := procs[p].files[fd := None])];
        if file == None {
          assert was[p].files[fd := None] == was[p].files;
          assert procs == was;
        }
        forall f: nat ensures FileKept(old(file_table), file_table, f) {
          assert FileKept(old(file_table), before, f);
        }
      }
      assert procs[p].files == NoFiles();
    }

    /** The current process; a blank one when there is none. */
    function Me(): Process
      reads this
    {
      if current.Some? && current.value < |procs| then procs[current.value] else Blank(0)
    }

    /** The open file behind a descriptor of the current process. */
    function LookupFile(fd: nat): Option<nat>
      reads this
    {
      if fd < |Me().files| then Me().files[fd] else None
    }

    /** `sys_close`: a closed or invalid descriptor is refused, an open one is cleared and its reference dropped. */
    method SysClose(fd: nat) returns (r: int)
      requires Valid()
      modifies this`procs, this`file_table
      ensures Valid()
      ensures old(LookupFile(fd)) == None ==> r == -1 && T() == old(T()) && file_table == old(file_table)
      ensures old(LookupFile(fd)).Some? ==>
                && r == 0 && LookupFile(fd) == None
                && Takes(old(T()), SystemCall(old(Me().files)[fd := None], old(Me().user)), T())
                && var f := old(LookupFile(fd)).value;
                   f < NUM_FILES && file_table == old(file_table)[f := Dropped(old(file_table)[f])]
    {
      var file := LookupFile(fd);
      if file == None {
        return -1;
      }
      var c := current.value;
      assert SlotOk(T(), c);
      FilesAfterClose(procs, file_table, c, fd, file.value);
      WithFilesKeepsInv(T(), c, procs[c].files[fd := None], procs[c].user);
      procs := procs[c := procs[c].(files := procs[c].files[fd := None])];
      FileClose(file);
      return 0;
    }

    // ----- scheduling

    /** The search of both schedulers: the slots after `start`, once around the table. */
    method FindRunnable(start: int) returns (r: Option<nat>)
      requires |procs| == MAX_PROCESSES && start >= -1
      ensures r == RunnableFrom(procs, start, 1)
    {
      for off := 1 to MAX_PROCESSES + 1
        invariant RunnableFrom(procs, start, off) == RunnableFrom(procs, start, 1)
      {
        var idx := (start + off) % MAX_PROCESSES;
        if procs[idx].state == Runnable {
          return Some(idx);
        }
      }
      return None;
    }

    /** Gives the processor to the nearest runnable process after `prev_proc`, or to the kernel's own context. */
    method Schedule(prev_proc: Option<nat>)
      requires prev_proc == current && |procs| == MAX_PROCESSES && SpacesReady(procs)
      requires prev_proc.Some? ==> prev_proc.value < MAX_PROCESSES && loaded == procs[prev_proc.value].pml4
      modifies this`procs, this`current, this`loaded, this`decisions
      ensures T() == Dispatch(old(T()).(current := None), StartOf(prev_proc))
    {
      var start: int := if prev_proc.Some? then prev_proc.value else -1;
      NearestIsFound(procs, start, 1);
      var next := FindRunnable(start);
      if next.Some? {
        var idx := next.value;
        current := Some(idx);
        procs := procs[idx := procs[idx].(state := Running)];
        decisions := decisions + 1;
        if current == prev_proc {
          return;
        }
        if procs[idx].pml4.Some? {
          loaded := procs[idx].pml4;
        }
        return;
      }
      if prev_proc.Some? {
        current := None;
      }
    }

    /** The same from a process that has ended and does not come back. */
    method ScheduleFromZombie()
      requires |procs| == MAX_PROCESSES && SpacesReady(procs) && (current.Some? ==> current.value < MAX_PROCESSES)
      modifies this`procs, this`current, this`loaded, this`decisions
      ensures T() == Dispatch(old(T()).(current := None), StartOf(old(current)))
    {
      var start: int := if current.Some? then current.value else -1;
      NearestIsFound(procs, start, 1);
      var next := FindRunnable(start);
      if next.Some? {
        var idx := next.value;
        current := Some(idx);
        procs := procs[idx := procs[idx].(state := Running)];
        decisions := decisions + 1;
        if procs[idx].pml4.Some? {
          loaded := procs[idx].pml4;
        }
        return;
      }
      current := None;
    }

    /** A decision after a step that has left nobody running. */
    lemma ThenDispatch(u: Table, start: int, procs': seq<Process>, files: seq<File>)
      requires Inv(u) && u.current == None && start >= -1 && FilesOk(procs', files)
      requires |procs'| == MAX_PROCESSES && forall q | 0 <= q < MAX_PROCESSES :: u.procs[q].files == procs'[q].files
      ensures |u.procs| == MAX_PROCESSES && SpacesReady(u.procs)
      ensures Inv(Dispatch(u, start)) && FilesOk(Dispatch(u, start).procs, files)
    {
      forall k | 0 <= k < |u.procs| && u.procs[k].state == Runnable ensures u.procs[k].pml4.Some? {
        assert SlotOk(u, k);
      }
      DispatchKeepsInv(u, start);
      FilesOkForSameFiles(procs', u.procs, files);
      FilesOkForSameFiles(u.procs, Dispatch(u, start).procs, files);
    }

    /** What giving up the processor comes to. */
    lemma Blocked(t: Table, c: nat, u: Table, files: seq<File>)
      requires Inv(t) && StepsBack(t, c, u) && FilesOk(t.procs, files)
      ensures |u.procs| == MAX_PROCESSES && SpacesReady(u.procs) && t.loaded == P(t, c).pml4
      ensures Inv(Dispatch(u, c)) && FilesOk(Dispatch(u, c).procs, files)
    {
      StepBackKeepsInv(t, c, u);
      ThenDispatch(u, c, t.procs, files);
    }

    method Yield()
      requires Valid()
      modifies this`procs, this`current, this`loaded, this`decisions
      ensures Valid() && Takes(old(T()), ProcessRuns.Yield, T())
      ensures Does(old(T()), ProcessRuns.Yield, T()) && forall q: nat :: YieldedTo(old(T()), T(), q)
    {
      ghost var t := T();
      var prev_proc := current;
      if prev_proc.Some? {
        var c := prev_proc.value;
        assert SlotOk(t, c);
        Blocked(t, c, Parked(t, c), file_table);
        if procs[c].state == Running {
          procs := procs[c := procs[c].(state := Runnable)];
        }
        assert T().(current := None) == Parked(t, c);
      } else {
        assert T().(current := None) == t;
        ThenDispatch(t, -1, procs, file_table);
      }
      Schedule(prev_proc);
      YieldDoes(t, T());
      forall q: nat ensures YieldedTo(t, T(), q) {
        YieldMeans(t, T(), q);
      }
    }

    /** Puts the current process to sleep on `ch`.  In the kernel's own context nothing happens. */
    method SleepOn(ch: Channel)
      requires Valid() && (current.Some? ==> MaySleep(T(), current.value, ch))
      modifies this`procs, this`current, this`loaded, this`decisions
      ensures Valid()
      ensures old(current) == None ==> T() == old(T())
      ensures old(current).Some? ==> T() == Dispatch(Slept(old(T()), old(current).value, ch), old(current).value)
    {
      if current == None {
        return;
      }
      ghost var t := T();
      var p := current.value;
      ghost var u := Slept(t, p, ch);
      assert StepsBack(t, p, u);
      Blocked(t, p, u, file_table);
      procs := procs[p := procs[p].(channel := Some(ch))];
      procs := procs[p := procs[p].(state := Sleeping)];
      assert T().(current := None) == u;
      Schedule(current);
    }

    /** `sleep` as the rest of the kernel uses it: on something that is not a process. */
    method Sleep(id: nat)
      requires Valid()
      modifies this`procs, this`current, this`loaded, this`decisions
      ensures Valid()
      ensures if old(current) == None then T() == old(T())
              else Takes(old(T()), ProcessRuns.Sleep(id), T()) && Does(old(T()), ProcessRuns.Sleep(id), T())
    {
      if current.Some? { assert SlotOk(T(), current.value); }
      SleepOn(Other(id));
      if old(current).Some? { SleepDoes(old(T()), id, T()); }
    }

    /** The end of `sleep`, when the process runs again. */
    method Resume()
      requires Valid() && current.Some?
      modifies this`procs
      ensures Valid() && Takes(old(T()), ProcessRuns.Resume, T()) && Does(old(T()), ProcessRuns.Resume, T())
    {
      ResumedKeepsInv(T(), current.value);
      procs := procs[current.value := procs[current.value].(channel := None)];
      FilesOkForSameFiles(old(procs), procs, file_table);
      TakesDoes(old(T()), ProcessRuns.Resume, T());
    }

    /** Everyone asleep on `ch` becomes runnable, and nobody else. */
    method WakeAll(ch: Channel)
      requires |procs| == MAX_PROCESSES
      modifies this`procs
      ensures |procs| == MAX_PROCESSES && forall q | 0 <= q < MAX_PROCESSES :: procs[q] == WokenBy(old(procs)[q], ch)
    {
      for i := 0 to MAX_PROCESSES
        invariant |procs| == MAX_PROCESSES
        invariant forall q | 0 <= q < MAX_PROCESSES ::
                    procs[q] == if q < i then WokenBy(old(procs)[q], ch) else old(procs)[q]
      {
        if procs[i].state == Sleeping && procs[i].channel == Some(ch) {
          procs := procs[i := procs[i].(state := Runnable)];
        }
      }
    }

    method Wakeup(ch: Channel)
      requires Valid()
      modifies this`procs
      ensures Valid() && Takes(old(T()), ProcessRuns.Wakeup(ch), T()) && Does(old(T()), ProcessRuns.Wakeup(ch), T())
    {
      WokenKeepsInv(T(), ch);
      WakeAll(ch);
      assert procs == Woken(old(T()), ch).procs;
      FilesOkForSameFiles(old(procs), procs, file_table);
      TakesDoes(old(T()), ProcessRuns.Wakeup(ch), T());
    }

    /** A system call from user mode leaves a trap frame. */
    method EnterKernel()
      requires Valid()
      modifies this`procs
      ensures Valid()
      ensures if current == None then T() == old(T()) else Takes(old(T()), SystemCall(old(Me().files), true), T())
    {
      if current.Some? {
        var c := current.value;
        assert SlotOk(T(), c);
        WithFilesKeepsInv(T(), c, procs[c].files, true);
        procs := procs[c := procs[c].(user := true)];
        FilesOkForSameFiles(old(procs), procs, file_table);
      }
    }

    // ----- ending

    /** The current process ends: files closed, parent woken, children handed to init. */
    method Exit(status: int)
      requires Valid() && current.Some?
      modifies this`procs, this`current, this`loaded, this`decisions, this`exits, this`file_table
      ensures Valid() && Takes(old(T()), ProcessRuns.Exit(status), T()) && Does(old(T()), ProcessRuns.Exit(status), T())
      ensures forall f: nat :: FileKept(old(file_table), file_table, f)
    {
      ghost var t := T();
      var p := current.value;
      ghost var closed := CloseAndMark(p, status);
      Reparent(p, t, status);
      ghost var u := Exited(t, p, status);
      assert T().(current := None) == u;
      ExitKeepsInv(t, p, status);
      ThenDispatch(u, p, closed, file_table);
      ScheduleFromZombie();
      ExitDoes(t, status, T());
    }

    /** The first part of `exit`, up to the parent's wakeup. */
    method CloseAndMark(p: nat, status: int) returns (ghost closed: seq<Process>)
      requires Valid() && current == Some(p)
      modifies this`procs, this`exits, this`file_table
      ensures p < |procs| == |closed| == MAX_PROCESSES && P(old(T()), p).parent != Some(p)
      ensures forall q | 0 <= q < MAX_PROCESSES :: procs[q] == DuringExit(old(T()), p, status, 0, q)
                                                   && procs[q].files == closed[q].files
      ensures FilesOk(closed, file_table) && exits == old(exits)[P(old(T()), p).pid := status]
      ensures forall f: nat :: FileKept(old(file_table), file_table, f)
    {
      ghost var t := T();
      assert SlotOk(t, p);
      CloseAllFiles(p);
      closed := procs;
      procs := procs[p := procs[p].(exit_status := status)];
      procs := procs[p := procs[p].(state := Zombie)];
      exits := exits[procs[p].pid := status];
      if procs[p].parent.Some? {
        WakeAll(OfProcess(procs[p].parent.value));
      }
    }

    /** The children of `p` become children of init, which is woken for each that has ended already. */
    method Reparent(p: nat, ghost t: Table, ghost status: int)
      requires |procs| == |t.procs| == MAX_PROCESSES && init_proc == t.init && p < MAX_PROCESSES
               && P(t, p).parent != Some(p)
      requires forall q | 0 <= q < MAX_PROCESSES :: procs[q] == DuringExit(t, p, status, 0, q)
      modifies this`procs
      ensures |procs| == MAX_PROCESSES && forall q | 0 <= q < MAX_PROCESSES :: procs[q] == AfterExit(t, p, status, q)
    {
      for i := 0 to MAX_PROCESSES
        invariant |procs| == MAX_PROCESSES
        invariant forall q | 0 <= q < MAX_PROCESSES :: procs[q] == DuringExit(t, p, status, i, q)
      {
        forall q | 0 <= q < MAX_PROCESSES ensures DuringExit(t, p, status, i + 1, q) == OneChild(t, p, i, q, procs[q]) {
          NextChild(t, p, status, i, q);
        }
        if procs[i].state == Unused || procs[i].parent != Some(p) {
          continue;
        }
        procs := procs[i := procs[i].(parent := init_proc)];
        if init_proc.Some? && procs[i].state == Zombie {
          WakeAll(OfProcess(init_proc.value));
        }
      }
    }

    /** What handing over slot `i`, if it is a child, does to a process in slot `q`. */
    ghost function OneChild(t: Table, p: nat, i: nat, q: nat, x: Process): Process {
      if !IsChild(t, p, i) then x
      else
        var y := if q == i then x.(parent := t.init) else x;
        if t.init.Some? && P(t, i).state == Zombie then WokenBy(y, OfProcess(t.init.value)) else y
    }

    lemma NextChild(t: Table, p: nat, status: int, i: nat, q: nat)
      requires P(t, p).parent != Some(p)
      ensures DuringExit(t, p, status, i + 1, q) == OneChild(t, p, i, q, DuringExit(t, p, status, i, q))
    {
      assert LeavesZombie(t, p, i + 1) <==> LeavesZombie(t, p, i) || (IsChild(t, p, i) && P(t, i).state == Zombie);
    }

    /** A thread returns from its entry function.  Nobody is told; `MayReturn` is the exact condition for that
        to be harmless. */
    method ReturnFromEntry()
      requires Valid() && current.Some?
      modifies this`procs, this`current, this`loaded, this`decisions, this`exits, this`file_table
      ensures T() == Dispatch(ThreadEnded(old(T()), old(current).value), old(current).value)
      ensures old(MayReturn(T(), current.value)) ==> Valid() && Takes(old(T()), ProcessRuns.Return, T())
    {
      ghost var t := T();
      var c := current.value;
      assert SlotOk(t, c);
      CloseAllFiles(c);
      ghost var closed := procs;
      procs := procs[c := procs[c].(state := Zombie)];
      exits := exits[procs[c].pid := procs[c].exit_status];
      ghost var u := ThreadEnded(t, c);
      assert T().(current := None) == u;
      forall k | 0 <= k < |procs| && procs[k].state == Runnable ensures procs[k].pml4.Some? {
        assert SlotOk(t, k);
      }
      if MayReturn(t, c) {
        ThreadMayReturn(t, c);
        ThenDispatch(u, c, closed, file_table);
      }
      Schedule(current);
    }

    /** Everything a process owns goes back, and its slot is free again. */
    method FreeProcessResources(p: nat)
      requires p < |procs| && |procs[p].files| == NUM_OPEN_FILES && FilesOk(procs, file_table)
      modifies this`procs, this`file_table, this`stacks, this`spaces
      ensures procs == old(procs)[p := Blank(old(procs)[p].pid).(user := old(procs)[p].user)]
              && FilesOk(procs, file_table)
      ensures forall f: nat :: FileKept(old(file_table), file_table, f)
      ensures stacks == if old(procs)[p].stack.Some? then old(stacks) - {old(procs)[p].stack.value} else old(stacks)
      ensures spaces == if old(procs)[p].pml4.Some? then old(spaces) - {old(procs)[p].pml4.value} else old(spaces)
    {
      CloseAllFiles(p);
      ghost var files := procs;
      if procs[p].stack.Some? {
        stacks := stacks - {procs[p].stack.value};
        procs := procs[p := procs[p].(stack := None)];
      }
      if procs[p].pml4.Some? {
        spaces := spaces - {procs[p].pml4.value};
      }
      procs := procs[p := procs[p].(pml4 := None, parent := None, channel := None, exit_status := 0)];
      procs := procs[p := procs[p].(state := Unused)];
      FilesOkForSameFiles(files, procs, file_table);
    }

    /** One round of `wait`: reap a child that has ended, or learn that there is none at all, or sleep.  In the
        kernel's own context the children are the processes without a parent: reaping one keeps the invariant
        exactly under `MayReapOrphan`, and instead of sleeping the next round starts at once. */
    method Wait() returns (r: WaitResult)
      requires Valid()
      modifies this`procs, this`current, this`loaded, this`decisions
      modifies this`file_table, this`stacks, this`spaces, this`reaped
      ensures old(current).Some? || r == NoChild || r == Asleep ==> Valid()
      ensures r == NoChild ==> T() == old(T()) && forall q: nat :: !ChildOf(T(), current, q)
      ensures r.Asleep? && old(current).Some? ==> Takes(old(T()), WaitForChild, T())
      ensures r.Asleep? && old(current) == None ==> T() == old(T()) && NoneEnded(T(), None)
      ensures r.Reported? && old(current).Some? ==> exists k: nat ::
                Takes(old(T()), Reap(k), T()) && FirstEnded(old(T()), k)
                && r == Reported(old(P(T(), k)).pid, old(P(T(), k)).exit_status)
      ensures r.Reported? && old(current) == None ==> exists k: nat ::
                && IsReaped(old(T()), k, T()) && FirstEnded(old(T()), k)
                && r == Reported(old(P(T(), k)).pid, old(P(T(), k)).exit_status)
                && (Valid() <==> MayReapOrphan(old(T()), k))
      ensures !r.Asleep? ==> file_table == old(file_table)
    {
      ghost var t := T();
      var p := current;
      var has_child := false;
      for i := 0 to MAX_PROCESSES
        invariant T() == t && file_table == old(file_table) && FilesOk(procs, file_table)
        invariant forall q | 0 <= q < i :: ChildOf(t, p, q) ==> P(t, q).state != Zombie
        invariant has_child <==> exists q: nat :: q < i && ChildOf(t, p, q)
      {
        if procs[i].state == Unused || procs[i].parent != p {
          continue;
        }
        assert ChildOf(t, p, i);
        has_child := true;
        if procs[i].state == Zombie {
          r := Reported(procs[i].pid, procs[i].exit_status);
          ReapChild(i);
          return;
        }
      }
      if !has_child {
        return NoChild;
      }
      if p.Some? { KidsAlive(t, p.value); }
      SleepOn(if p.Some? then OfProcess(p.value) else Other(0));
      return Asleep;
    }

    lemma KidsAlive(t: Table, p: nat)
      requires |t.procs| == MAX_PROCESSES && NoneEnded(t, Some(p))
      ensures KidsOk(t, p)
    {
      var c: nat :| ChildOf(t, Some(p), c);
      assert IsChild(t, p, c);
      forall q: nat ensures ChildAlive(t, p, q) {
        assert IsChild(t, p, q) ==> ChildOf(t, Some(p), q);
      }
    }

    method ReapChild(k: nat)
      requires Valid() && ChildOf(T(), current, k) && P(T(), k).state == Zombie
      modifies this`procs, this`file_table, this`stacks, this`spaces, this`reaped
      ensures IsReaped(old(T()), k, T()) && file_table == old(file_table)
      ensures old(current).Some? ==> Valid() && Takes(old(T()), Reap(k), T())
      ensures old(current) == None ==> (Valid() <==> MayReapOrphan(old(T()), k))
    {
      ghost var t := T();
      assert SlotOk(t, k);
      if current.Some? { ReapedKeepsInv(t, current.value, k); } else { OrphanReaped(t, k); }
      ReapSlot(k);
    }

    /** The slot of a process that has ended is given back. */
    method ReapSlot(k: nat)
      requires k < |procs| == MAX_PROCESSES && FilesOk(procs, file_table) && procs[k].files == NoFiles()
      requires procs[k].stack.Some? && procs[k].pml4.Some?
      modifies this`procs, this`file_table, this`stacks, this`spaces, this`reaped
      ensures T() == Reaped(old(T()), k) && FilesOk(procs, file_table) && file_table == old(file_table)
    {
      reaped := reaped + {procs[k].pid};
      FreeProcessResources(k);
      FileTableIsDetermined(old(procs), procs, old(file_table), file_table);
    }

    // ----- making processes

    method FindUnused() returns (r: Option<nat>)
      requires |procs| == MAX_PROCESSES
      ensures if r == None then AllUsed(T()) else FirstFree(T(), r.value)
    {
      for i := 0 to MAX_PROCESSES
        invariant forall q: nat | q < i :: Used(T(), q)
      {
        if procs[i].state == Unused {
          return Some(i);
        }
      }
      return None;
    }

    /** Slot `n`, unused in `t`, holds a process that is being made; everything else is as in `t` and `files`. */
    ghost predicate Half(t: Table, n: nat, files: seq<File>)
      reads this
    {
      && n < |t.procs| == |procs| && !Used(t, n) && P(t, n).files == NoFiles()
      && (t.loaded.Some? ==> t.loaded.value in t.spaces)
      && T() == t.(procs := procs, next_pid := t.next_pid + 1, stacks := stacks, spaces := spaces, slot_of := slot_of)
      && (slot_of == t.slot_of || slot_of == t.slot_of[t.next_pid := n])
      && (forall q: nat | q < |procs| && q != n :: procs[q] == t.procs[q])
      && |procs[n].files| == NUM_OPEN_FILES && procs[n].pid == t.next_pid
      && Owes(t.stacks, stacks, procs[n].stack, n) && Owes(t.spaces, spaces, procs[n].pml4, n)
      && FilesOk(procs, file_table) && FilesOk(t.procs, files) && forall f: nat :: FileGrown(files, file_table, f)
    }

    /** Reserves a slot with a pid, a kernel stack and an address space; without one of them, whatever has been
        taken is given back.  `stack` and `space` are what the heap and the memory manager answer. */
    method AllocateProcess(stack: Option<nat>, space: Option<nat>) returns (r: Option<nat>)
      requires Valid() && (stack.Some? ==> stack.value !in stacks) && (space.Some? ==> space.value !in spaces)
      modifies this`procs, this`next_pid, this`stacks, this`spaces, this`slot_of, this`file_table
      ensures r == None ==> FilesOk(procs, file_table) && file_table == old(file_table)
      ensures r == None ==> NotMade(old(T()), T())
      ensures r == None <==> stack == None || space == None || AllUsed(old(T()))
      ensures r.Some? ==>
                && stack.Some? && space.Some? && FirstFree(old(T()), r.value)
                && Half(old(T()), r.value, old(file_table))
                && r.value < |procs| && procs[r.value] ==
                     Embryonic(old(next_pid), old(procs)[r.value].exit_status, stack.value, space.value)
                && slot_of == old(slot_of)[old(next_pid) := r.value] && file_table == old(file_table)
    {
      ghost var t, files := T(), file_table;
      r := FindUnused();
      if r == None {
        return None;
      }
      var proc := r.value;
      StartProcess(proc);
      if stack == None {
        GiveUp(proc, t, files);
        assert Takes(t, CannotMake(proc), T());
        return None;
      }
      SetStack(proc, stack.value, t, files);
      if space == None {
        GiveUp(proc, t, files);
        assert Takes(t, CannotMake(proc), T());
        return None;
      }
      SetSpace(proc, space.value, t, files);
    }

    /** An unused slot becomes an embryo with a pid and nothing else. */
    method StartProcess(proc: nat)
      requires Valid() && proc < |procs| && !Used(T(), proc)
      modifies this`procs, this`next_pid
      ensures Half(old(T()), proc, file_table) && slot_of == old(slot_of)
      ensures procs[proc] == Blank(old(next_pid)).(state := Embryo, exit_status := old(procs)[proc].exit_status)
    {
      assert SlotOk(T(), proc);
      procs := procs[proc := procs[proc].(pid := next_pid, state := Embryo, parent := None, channel := None,
                                          user := false,
                                          stack := None, pml4 := None, files := NoFiles())];
      next_pid := next_pid + 1;
      FilesOkForSameFiles(old(procs), procs, file_table);
    }

    method SetStack(proc: nat, stack: nat, ghost t: Table, ghost files: seq<File>)
      requires Half(t, proc, files) && procs[proc].stack == None && stack !in t.stacks
      modifies this`procs, this`stacks
      ensures Half(t, proc, files) && procs[proc] == old(procs)[proc].(stack := Some(stack))
    {
      procs, stacks := procs[proc := procs[proc].(stack := Some(stack))], stacks[stack := proc];
      FilesOkForSameFiles(old(procs), procs, file_table);
    }

    method SetSpace(proc: nat, space: nat, ghost t: Table, ghost files: seq<File>)
      requires Half(t, proc, files) && procs[proc].pml4 == None && space !in t.spaces
      modifies this`procs, this`spaces, this`slot_of
      ensures Half(t, proc, files) && procs[proc] == old(procs)[proc].(pml4 := Some(space))
              && slot_of == t.slot_of[t.next_pid := proc]
    {
      procs, spaces := procs[proc := procs[proc].(pml4 := Some(space))], spaces[space := proc];
      slot_of := t.slot_of[t.next_pid := proc];
      FilesOkForSameFiles(old(procs), procs, file_table);
    }

    /** A half-made process is taken apart again: everything is as it was but for the pid that has been used. */
    method GiveUp(n: nat, ghost t: Table, ghost files: seq<File>)
      requires Half(t, n, files) && !procs[n].user
      modifies this`procs, this`file_table, this`stacks, this`spaces, this`slot_of
      ensures T() == NotBorn(t, n) && FilesOk(procs, file_table) && file_table == files
    {
      ghost var before := file_table;
      FreeProcessResources(n);
      slot_of := t.slot_of;
      assert procs == NotBorn(t, n).procs;
      assert stacks == t.stacks && spaces == t.spaces;
      KeptAfterGrown(files, before, file_table);
      FileTableIsDetermined(t.procs, procs, files, file_table);
    }

    /** One descriptor of the child is made a second reference to what the parent has there. */
    method DuplicateOne(parent: nat, child: nat, fd: nat)
      requires FilesOk(procs, file_table) && parent < |procs| && child < |procs| && fd < |procs[parent].files|
      requires fd < |procs[child].files| && procs[child].files[fd] == None
      modifies this`procs, this`file_table
      ensures procs == SetFd(old(procs), child, fd, old(procs)[parent].files[fd]) && FilesOk(procs, file_table)
      ensures forall f: nat :: FileGrown(old(file_table), file_table, f)
    {
      var file := procs[parent].files[fd];
      assert FdOk(procs, parent, fd);
      if file.Some? {
        FilesAfterOpen(procs, file_table, child, fd, file.value,
                       Duplicated(file_table[file.value]));
      } else {
        assert procs[child].files[fd := None] == procs[child].files;
        assert SetFd(procs, child, fd, None) == procs;
      }
      var copy := FileDuplicate(file);
      procs := procs[child := procs[child].(files := procs[child].files[fd := copy])];
    }

    /** The child shares every open file of its parent. */
    method DuplicateFiles(parent: nat, child: nat)
      requires FilesOk(procs, file_table) && parent < |procs| && child < |procs| && parent != child
      requires |procs[parent].files| == NUM_OPEN_FILES && procs[child].files == NoFiles()
      modifies this`procs, this`file_table
      ensures procs == old(procs)[child := old(procs)[child].(files := old(procs)[parent].files)]
              && FilesOk(procs, file_table)
      ensures forall f: nat :: FileGrown(old(file_table), file_table, f)
    {
      for fd := 0 to NUM_OPEN_FILES
        invariant |procs| == |old(procs)| && FilesOk(procs, file_table) && |procs[child].files| == NUM_OPEN_FILES
        invariant procs == old(procs)[child := old(procs)[child].(files := procs[child].files)]
        invariant forall d | 0 <= d < fd :: procs[child].files[d] == procs[parent].files[d]
        invariant forall d | fd <= d < NUM_OPEN_FILES :: procs[child].files[d] == None
        invariant forall f: nat :: FileGrown(old(file_table), file_table, f)
      {
        ghost var before := file_table;
        DuplicateOne(parent, child, fd);
        forall f: nat ensures FileGrown(old(file_table), file_table, f) {
          assert FileGrown(old(file_table), before, f) && FileGrown(before, file_table, f);
        }
      }
      assert procs[child].files == procs[parent].files;
    }

    /** `fork`: the pid of a runnable child with the same open files, or -1 and nothing has happened but that a
        pid may have been used up.  `copied` says whether the user pages could be copied. */
    method Fork(stack: Option<nat>, space: Option<nat>, copied: bool) returns (r: int)
      requires Valid() && (stack.Some? ==> stack.value !in stacks) && (space.Some? ==> space.value !in spaces)
      modifies this`procs, this`next_pid, this`stacks, this`spaces, this`slot_of, this`file_table
      ensures Valid()
      ensures forall f: nat :: FileGrown(old(file_table), file_table, f)
      ensures r == -1 ==> file_table == old(file_table)
                          && if old(current) == None then T() == old(T()) else NotMade(old(T()), T())
      ensures r == -1 <==> old(current) == None || stack == None || space == None || (old(Me().user) && !copied)
                           || AllUsed(old(T()))
      ensures r != -1 ==>
                r == old(next_pid) && exists n: nat ::
                  FirstFree(old(T()), n) && Takes(old(T()), ProcessRuns.Fork(n, stack.value, space.value), T())
    {
      if current == None {
        return -1;
      }
      ghost var t := T();
      assert SlotOk(t, current.value);
      var slot := AllocateProcess(stack, space);
      if slot == None {
        FailedToMake(t);
        return -1;
      }
      r := MakeChild(slot.value, copied, t, file_table, stack.value, space.value);
    }

    /** The rest of `fork`, with the child allocated: parent, files, and the user pages. */
    method MakeChild(child: nat, copied: bool, ghost t: Table, ghost files: seq<File>, ghost stack: nat,
                     ghost space: nat) returns (r: int)
      requires Inv(t) && Half(t, child, files) && t.current.Some? && file_table == files
      requires procs[child] == Embryonic(t.next_pid, P(t, child).exit_status, stack, space)
               && slot_of == t.slot_of[t.next_pid := child]
      modifies this`procs, this`stacks, this`spaces, this`slot_of, this`file_table
      ensures Valid()
      ensures r == -1 <==> P(t, t.current.value).user && !copied
      ensures forall f: nat :: FileGrown(files, file_table, f)
      ensures r == -1 ==> file_table == files && Takes(t, CannotMake(child), T())
      ensures r != -1 ==> r == t.next_pid && Takes(t, ProcessRuns.Fork(child, stack, space), T())
    {
      var parent := current.value;
      assert SlotOk(t, parent);
      Inherit(parent, child, t, files);
      if procs[parent].user && !copied {
        GiveUp(child, t, files);
        NotBornKeepsInv(t, child);
        return -1;
      }
      BornKeepsInv(t, child, t.current, P(t, parent).files, stack, space, P(t, parent).user);
      Launch(child, procs[parent].user, t, files, stack, space);
      return procs[child].pid;
    }

    /** What a child has from its parent. */
    method Inherit(parent: nat, child: nat, ghost t: Table, ghost files: seq<File>)
      requires Half(t, child, files) && Used(t, parent) && parent < |procs| && |procs[parent].files| == NUM_OPEN_FILES
      requires procs[child].files == NoFiles() && file_table == files
      modifies this`procs, this`file_table
      ensures Half(t, child, files) && procs[child] ==
                old(procs)[child].(parent := Some(parent), files := procs[parent].files)
    {
      procs := procs[child := procs[child].(parent := Some(parent))];
      FilesOkForSameFiles(old(procs), procs, file_table);
      DuplicateFiles(parent, child);
    }

    /** The embryo becomes runnable. */
    method Launch(n: nat, user: bool, ghost t: Table, ghost files: seq<File>, ghost stack: nat, ghost space: nat)
      requires Half(t, n, files) && slot_of == t.slot_of[t.next_pid := n]
      requires procs[n].state == Embryo && procs[n].channel == None && procs[n].exit_status == P(t, n).exit_status
      requires procs[n].stack == Some(stack) && procs[n].pml4 == Some(space)
      modifies this`procs
      ensures T() == Born(t, n, old(procs)[n].parent, old(procs)[n].files, stack, space, user)
              && FilesOk(procs, file_table)
    {
      procs := procs[n := procs[n].(user := user)];
      procs := procs[n := procs[n].(state := Runnable)];
      FilesOkForSameFiles(old(procs), procs, file_table);
      assert procs == Born(t, n, old(procs)[n].parent, old(procs)[n].files, stack, space, user).procs;
    }

    lemma FailedToMake(t: Table)
      requires Inv(t) && NotMade(t, T())
      ensures Inv(T())
    {
      if T() != t {
        var n: nat :| FirstFree(t, n) && Takes(t, CannotMake(n), T());
        StepKeepsInv(t, CannotMake(n), T());
      }
    }

    /** The console on descriptors 0, 1 and 2; 1 and 2 are one file.  On failure, for want of two free files,
        what has been opened stays for the caller to close. */
    method OpenConsoleFiles(n: nat, ghost t: Table, ghost files: seq<File>) returns (ok: bool, ghost console: seq<nat>)
      requires Half(t, n, files) && procs[n].files == NoFiles() && file_table == files
      modifies this`procs, this`file_table
      ensures Half(t, n, files) && procs[n] == old(procs)[n].(files := procs[n].files)
      ensures !ok ==> FewFree(files)
      ensures ok ==> OnConsole(files, file_table, procs[n].files, console)
    {
      ok, console := OpenInputAndOutput(n, t, files);
      if !ok {
        return;
      }
      DuplicateFd(n, 1, 2, t, files);
    }

    method OpenInputAndOutput(n: nat, ghost t: Table, ghost files: seq<File>)
      returns (ok: bool, ghost console: seq<nat>)
      requires Half(t, n, files) && procs[n].files == NoFiles() && file_table == files
      modifies this`procs, this`file_table
      ensures Half(t, n, files) && procs[n] == old(procs)[n].(files := procs[n].files) && |procs| == |old(procs)|
      ensures !ok ==> FewFree(files)
      ensures ok ==>
                && |console| == 2 && console[0] != console[1]
                && FirstFreeFile(files, console[0])
                && FirstFreeFile(files[console[0] := File(Console, 1, true, false, None, 0)], console[1])
                && procs[n].files == NoFiles()[0 := Some(console[0])][1 := Some(console[1])]
                && file_table == files[console[0] := File(Console, 1, true, false, None, 0)][console[1] :=
                      File(Console, 1, false, true, None, 0)]
    {
      console := [];
      var input := OpenConsole(n, 0, true, false, t, files);
      assert input == None ==> FewFree(files);
      var output := OpenConsole(n, 1, false, true, t, files);
      if input == None || output == None {
        if input.Some? { FewWereFree(files, input.value, file_table); }
        return false, [];
      }
      return true, [input.value, output.value];
    }

    method OpenConsole(n: nat, fd: nat, readable: bool, writable: bool, ghost t: Table, ghost files: seq<File>)
      returns (file: Option<nat>)
      requires Half(t, n, files) && fd < NUM_OPEN_FILES && procs[n].files[fd] == None
      modifies this`procs, this`file_table
      ensures Half(t, n, files) && |procs| == |old(procs)|
      ensures file == None ==>
                && procs == old(procs) && file_table == old(file_table)
                && forall f | 0 <= f < NUM_FILES :: file_table[f].refcnt != 0
      ensures file.Some? ==>
                && file.value < NUM_FILES && FirstFreeFile(old(file_table), file.value)
                && procs[n] == old(procs)[n].(files := old(procs)[n].files[fd := file])
                && file_table == old(file_table)[file.value := File(Console, 1, readable, writable, None, 0)]
    {
      ghost var before := file_table;
      file := FileOpenConsole(readable, writable);
      if file == None {
        return None;
      }
      FilesAfterOpen(procs, before, n, fd, file.value, file_table[file.value]);
      procs := procs[n := procs[n].(files := procs[n].files[fd := file])];
      forall f: nat ensures FileGrown(files, file_table, f) {
        assert FileGrown(files, before, f);
      }
    }

    method DuplicateFd(n: nat, from: nat, fd: nat, ghost t: Table, ghost files: seq<File>)
      requires Half(t, n, files) && from < NUM_OPEN_FILES && fd < NUM_OPEN_FILES && procs[n].files[fd] == None
               && procs[n].files[from].Some?
      modifies this`procs, this`file_table
      ensures Half(t, n, files) && |procs| == |old(procs)|
      ensures procs[n] == old(procs)[n].(files := old(procs)[n].files[fd := old(procs)[n].files[from]])
      ensures var f := old(procs)[n].files[from].value;
        f < NUM_FILES && file_table == old(file_table)[f := Duplicated(old(file_table)[f])]
    {
      ghost var before := file_table;
      assert FdOk(procs, n, from);
      var f := procs[n].files[from].value;
      FilesAfterOpen(procs, file_table, n, fd, f, Duplicated(file_table[f]));
      var copy := FileDuplicate(procs[n].files[from]);
      procs := procs[n := procs[n].(files := procs[n].files[fd := copy])];
      forall f: nat ensures FileGrown(files, file_table, f) {
        assert FileGrown(files, before, f);
      }
    }

    method OpenConsoleOrGiveUp(n: nat, ghost t: Table, ghost files: seq<File>)
      returns (ok: bool, ghost console: seq<nat>)
      requires Inv(t) && Half(t, n, files) && procs[n].files == NoFiles() && file_table == files && !procs[n].user
      modifies this`procs, this`file_table, this`stacks, this`spaces, this`slot_of
      ensures ok ==>
                && Half(t, n, files) && procs[n] == old(procs)[n].(files := procs[n].files) && slot_of == old(slot_of)
                && OnConsole(files, file_table, procs[n].files, console)
      ensures !ok ==> Valid() && Takes(t, CannotMake(n), T()) && file_table == files && FewFree(files)
    {
      ok, console := OpenConsoleFiles(n, t, files);
      if !ok {
        GiveUp(n, t, files);
        NotBornKeepsInv(t, n);
      }
    }

    /** A kernel thread: a runnable process without a parent, on the console, that starts at its entry function. */
    method CreateProcess(stack: Option<nat>, space: Option<nat>) returns (r: Option<nat>)
      requires Valid() && (stack.Some? ==> stack.value !in stacks) && (space.Some? ==> space.value !in spaces)
      modifies this`procs, this`next_pid, this`stacks, this`spaces, this`slot_of, this`file_table
      ensures Valid()
      ensures r == None ==> file_table == old(file_table) && NotMade(old(T()), T())
      ensures r == None <==> stack == None || space == None || FewFree(old(file_table)) || AllUsed(old(T()))
      ensures r.Some? ==>
                && stack.Some? && space.Some? && r.value < |procs| && FirstFree(old(T()), r.value)
                && Takes(old(T()), Create(r.value, procs[r.value].files, stack.value, space.value, false), T())
                && exists console: seq<nat> :: OnConsole(old(file_table), file_table, procs[r.value].files, console)
    {
      ghost var t, files := T(), file_table;
      var slot := AllocateProcess(stack, space);
      if slot == None {
        FailedToMake(t);
        return None;
      }
      var proc := slot.value;
      var ok, console := OpenConsoleOrGiveUp(proc, t, files);
      if !ok {
        return None;
      }
      BornKeepsInv(t, proc, None, procs[proc].files, stack.value, space.value, false);
      Launch(proc, false, t, files, stack.value, space.value);
      return slot;
    }

    /** The first process, which inherits orphans from then on.  A second call replaces init, by nobody if it
        fails; the invariant survives that exactly if no dead init has children. */
    method CreateInitProcess(stack: Option<nat>, space: Option<nat>) returns (r: Option<nat>)
      requires Valid()
      requires (stack.Some? ==> stack.value !in stacks) && (space.Some? ==> space.value !in spaces)
      modifies this`procs, this`next_pid, this`stacks, this`spaces, this`slot_of, this`file_table, this`init_proc
      ensures init_proc == r
      ensures Valid() <==> !DeadInitHasChildren(old(T()))
      ensures old(init_proc) == None && r.Some? ==>
                && stack.Some? && space.Some? && r.value < |procs|
                && Takes(old(T()), Create(r.value, procs[r.value].files, stack.value, space.value, true), T())
      ensures r.Some? ==>
                && stack.Some? && space.Some? && r.value < |procs|
                && Takes(old(T()), Create(r.value, procs[r.value].files, stack.value, space.value, false),
                         T().(init := old(init_proc)))
      ensures r.Some? ==>
                && FirstFree(old(T()), r.value) && r.value < |procs|
                && exists console: seq<nat> :: OnConsole(old(file_table), file_table, procs[r.value].files, console)
      ensures r == None ==> file_table == old(file_table) && NotMade(old(T()), T().(init := old(init_proc)))
      ensures r == None <==> stack == None || space == None || FewFree(old(file_table)) || AllUsed(old(T()))
    {
      ghost var t := T();
      r := CreateProcess(stack, space);
      ghost var u := T();
      DeadInitStays(t, u, r, stack, space);
      if r != init_proc { InitChanges(u, r); }
      init_proc := r;
      assert T().(init := t.init) == u;
    }

    /** Making a process, or failing to, changes nothing about the children of init. */
    lemma DeadInitStays(t: Table, u: Table, r: Option<nat>, stack: Option<nat>, space: Option<nat>)
      requires Inv(t)
      requires r == None ==> NotMade(t, u)
      requires r.Some? ==> stack.Some? && space.Some? && r.value < |u.procs|
                           && Takes(t, Create(r.value, u.procs[r.value].files, stack.value, space.value, false), u)
      ensures DeadInitHasChildren(u) <==> DeadInitHasChildren(t)
      ensures u.init == t.init && (r.Some? ==> Used(u, r.value) && P(u, r.value).parent == None && r != t.init)
    {
      if t.init.Some? {
        assert SlotOk(t, t.init.value);
        forall c: nat ensures IsChild(u, t.init.value, c) <==> IsChild(t, t.init.value, c) {
        }
      }
    }
  }

  /** Descriptor 0 reads the console and 1 and 2 write it, through the first two files that were free. */
  predicate OnConsole(files: seq<File>, files': seq<File>, fds: seq<Option<nat>>, console: seq<nat>) {
    && |console| == 2 && console[0] != console[1]
    && FirstFreeFile(files, console[0])
    && FirstFreeFile(files[console[0] := File(Console, 1, true, false, None, 0)], console[1])
    && fds == NoFiles()[0 := Some(console[0])][1 := Some(console[1])][2 := Some(console[1])]
    && files' == files[console[0] := File(Console, 1, true, false, None, 0)]
                      [console[1] := File(Console, 2, false, true, None, 0)]
  }

  /** What slot `n` holds has been added to the things handed out, and nothing else. */
  predicate Owes(before: map<nat, nat>, after: map<nat, nat>, held: Option<nat>, n: nat) {
    if held.Some? then held.value !in before && after == before[held.value := n] else after == before
  }

  /** A process that has its pid, stack and address space, and nothing else yet. */
  function Embryonic(pid: nat, exit_status: int, stack: nat, space: nat): Process {
    Process(pid, Embryo, None, None, exit_status, NoFiles(), Some(stack), Some(space), false)
  }
}
