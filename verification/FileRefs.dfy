/** Who holds the references of the inode table: each slot counts the open files that stand on it and the
    references that are held elsewhere. */
module FileRefs {
  import opened Wrappers
  import opened FileSystem
  import opened Inodes
  import InodeTable
  import opened OpenFiles
  import opened ProcessRuns
  import opened ProcessSteps
  import opened ProcessTable
  import opened Processes

  /** The open files on slot `s`. */
  function Holders(files: seq<File>, s: nat): nat {
    if files == [] then 0
    else Holders(files[..|files| - 1], s) + if files[|files| - 1].inode == Some(s) then 1 else 0
  }

  lemma {:induction false} HoldersAfterUpdate(files: seq<File>, f: nat, x: File, s: nat)
    requires f < |files|
    ensures Holders(files[f := x], s) == Holders(files, s) - (if files[f].inode == Some(s) then 1 else 0)
                                                          + (if x.inode == Some(s) then 1 else 0)
  {
    var n := |files| - 1;
    if f == n {
      assert files[f := x][..n] == files[..n];
    } else {
      HoldersAfterUpdate(files[..n], f, x, s);
      assert files[f := x][..n] == files[..n][f := x];
    }
  }

  predicate SlotTied(files: seq<File>, table: seq<Inode>, loose: seq<nat>, s: nat) {
    s < |table| && s < |loose| ==> table[s].refcnt == Holders(files, s) + loose[s]
  }

  predicate FileTied(files: seq<File>, f: nat) {
    f < |files| && files[f].inode.Some? ==> files[f].inode.value < NUM_INODE
  }

  /** Every reference to a slot is held by one open file, or is one of the `loose` ones. */
  ghost predicate Tied(files: seq<File>, table: seq<Inode>, loose: seq<nat>) {
    && |loose| == |table| == NUM_INODE
    && (forall s: nat :: SlotTied(files, table, loose, s))
    && (forall f: nat :: FileTied(files, f))
  }

  lemma {:induction false} NoHolders(files: seq<File>, s: nat)
    requires forall f | 0 <= f < |files| :: files[f].inode == None
    ensures Holders(files, s) == 0
  {
    if files != [] { NoHolders(files[..|files| - 1], s); }
  }

  /** Without open files every reference is loose. */
  lemma TiedAtFirst(files: seq<File>, table: seq<Inode>, loose: seq<nat>)
    requires forall f | 0 <= f < |files| :: files[f].inode == None
    requires |loose| == |table| == NUM_INODE && forall s | 0 <= s < NUM_INODE :: loose[s] == table[s].refcnt
    ensures Tied(files, table, loose)
  {
    forall s: nat ensures SlotTied(files, table, loose, s) {
      NoHolders(files, s);
    }
    forall f: nat ensures FileTied(files, f) {
    }
  }

  function OneLess(table: seq<Inode>, s: nat): seq<Inode>
    requires s < |table| && table[s].refcnt > 0
  {
    table[s := table[s].(refcnt := table[s].refcnt - 1)]
  }

  /** A file leaves its slot, which then counts one less. */
  lemma TiedAfterLeaving(files: seq<File>, table: seq<Inode>, loose: seq<nat>, f: nat, x: File)
    requires Tied(files, table, loose) && f < |files| && files[f].inode.Some? && x.inode == None
    ensures files[f].inode.value < |table| && table[files[f].inode.value].refcnt > 0
    ensures Tied(files[f := x], OneLess(table, files[f].inode.value), loose)
  {
    var s := files[f].inode.value;
    assert FileTied(files, f) && SlotTied(files, table, loose, s);
    HoldersAfterUpdate(files, f, x, s);
    var files', table' := files[f := x], OneLess(table, s);
    forall t: nat ensures SlotTied(files', table', loose, t) {
      assert SlotTied(files, table, loose, t);
      HoldersAfterUpdate(files, f, x, t);
    }
    forall g: nat ensures FileTied(files', g) {
      assert FileTied(files, g);
    }
  }

  lemma TiedAfterUpdate(files: seq<File>, table: seq<Inode>, loose: seq<nat>, f: nat, x: File)
    requires Tied(files, table, loose) && f < |files| && x.inode == files[f].inode
    ensures Tied(files[f := x], table, loose)
  {
    var files' := files[f := x];
    forall t: nat ensures SlotTied(files', table, loose, t) {
      assert SlotTied(files, table, loose, t);
      HoldersAfterUpdate(files, f, x, t);
    }
    forall g: nat ensures FileTied(files', g) {
      assert FileTied(files, f) && FileTied(files, g);
    }
  }

  /** A file takes over a reference that was loose. */
  lemma TiedAfterTaking(files: seq<File>, table: seq<Inode>, loose: seq<nat>, f: nat, x: File)
    requires Tied(files, table, loose) && f < |files| && files[f].inode == None
    requires x.inode.Some? && x.inode.value < NUM_INODE && loose[x.inode.value] > 0
    ensures Tied(files[f := x], table, loose[x.inode.value := loose[x.inode.value] - 1])
  {
    var files', less := files[f := x], loose[x.inode.value := loose[x.inode.value] - 1];
    forall t: nat ensures SlotTied(files', table, less, t) {
      assert SlotTied(files, table, loose, t);
      HoldersAfterUpdate(files, f, x, t);
    }
    forall g: nat ensures FileTied(files', g) {
      assert FileTied(files, g);
    }
  }

  /** Only counts have changed, or nothing about inodes has. */
  lemma TiedForSameInodes(files: seq<File>, files': seq<File>, table: seq<Inode>, loose: seq<nat>)
    requires Tied(files, table, loose) && |files'| == |files|
    requires forall f | 0 <= f < |files| :: files'[f].inode == files[f].inode
    ensures Tied(files', table, loose)
  {
    forall s: nat ensures SlotTied(files', table, loose, s) {
      assert SlotTied(files, table, loose, s);
      SameHolders(files, files', s);
    }
    forall f: nat ensures FileTied(files', f) {
      assert FileTied(files, f);
    }
  }

  lemma {:induction false} SameHolders(files: seq<File>, files': seq<File>, s: nat)
    requires |files'| == |files| && forall f | 0 <= f < |files| :: files'[f].inode == files[f].inode
    ensures Holders(files', s) == Holders(files, s)
  {
    if files != [] { SameHolders(files[..|files| - 1], files'[..|files'| - 1], s); }
  }

  /** Each slot has lost as many references as open files have left it. */
  ghost predicate GaveBack(files: seq<File>, table: seq<Inode>, files': seq<File>, table': seq<Inode>) {
    |table'| == |table| && forall s | 0 <= s < |table| ::
                             table'[s].refcnt == table[s].refcnt - (Holders(files, s) - Holders(files', s))
  }

  lemma TiedGaveBack(files: seq<File>, table: seq<Inode>, files': seq<File>, table': seq<Inode>, loose: seq<nat>)
    requires Tied(files, table, loose) && Tied(files', table', loose)
    ensures GaveBack(files, table, files', table')
  {
    forall s | 0 <= s < |table|
      ensures table'[s].refcnt == table[s].refcnt - (Holders(files, s) - Holders(files', s))
    {
      assert SlotTied(files, table, loose, s) && SlotTied(files', table', loose, s);
    }
  }

  /** `file_close` with what it does to the inode table: the last reference to a file gives back the one inode
      reference that the file held, any other none. */
  method FileClose(k: Kernel, fs: State, file: Option<nat>, ghost loose: seq<nat>)
    requires Inodes.Valid(fs) && Tied(k.file_table, fs.table, loose)
    requires file.Some? ==> file.value < |k.file_table| && k.file_table[file.value].refcnt > 0
    modifies k`file_table, fs`table
    ensures Inodes.Valid(fs) && Tied(k.file_table, fs.table, loose)
    ensures file == None ==> k.file_table == old(k.file_table) && fs.table == old(fs.table)
    ensures file.Some? ==>
              var x := old(k.file_table)[file.value];
              && k.file_table == old(k.file_table)[file.value := Dropped(x)]
              && if x.refcnt == 1 && x.inode.Some?
                 then Live(old(fs.table), x.inode.value) && fs.table == OneLess(old(fs.table), x.inode.value)
                 else fs.table == old(fs.table)
  {
    if file == None {
      return;
    }
    ghost var files := k.file_table;
    var x := k.file_table[file.value];
    k.FileClose(file);
    if x.refcnt == 1 && x.inode.Some? {
      TiedAfterLeaving(files, fs.table, loose, file.value, Dropped(x));
      InodeTable.PutInode(fs, x.inode.value);
    } else {
      TiedAfterUpdate(files, fs.table, loose, file.value, Dropped(x));
    }
  }

  /** Closing all files of a process: each inode slot loses exactly the references of the files that are closed by
      it. */
  method CloseAllFiles(k: Kernel, fs: State, p: nat, ghost loose: seq<nat>)
    requires p < |k.procs| && |k.procs[p].files| == NUM_OPEN_FILES && FilesOk(k.procs, k.file_table)
    requires Inodes.Valid(fs) && Tied(k.file_table, fs.table, loose)
    modifies k`procs, k`file_table, fs`table
    ensures k.procs == old(k.procs)[p := old(k.procs)[p].(files := NoFiles())] && FilesOk(k.procs, k.file_table)
    ensures Inodes.Valid(fs) && Tied(k.file_table, fs.table, loose)
    ensures GaveBack(old(k.file_table), old(fs.table), k.file_table, fs.table)
    ensures forall f: nat :: FileKept(old(k.file_table), k.file_table, f)
  {
    for fd := 0 to NUM_OPEN_FILES
      invariant |k.procs| == |old(k.procs)| && |k.procs[p].files| == NUM_OPEN_FILES && FilesOk(k.procs, k.file_table)
      invariant k.procs == old(k.procs)[p := old(k.procs)[p].(files := k.procs[p].files)]
      invariant forall d | 0 <= d < fd :: k.procs[p].files[d] == None
      invariant forall d | fd <= d < NUM_OPEN_FILES :: k.procs[p].files[d] == old(k.procs)[p].files[d]
      invariant forall f: nat :: FileKept(old(k.file_table), k.file_table, f)
      invariant Inodes.Valid(fs) && Tied(k.file_table, fs.table, loose)
    {
      ghost var before := k.file_table;
      CloseDescriptor(k, fs, p, fd, loose);
      forall f: nat ensures FileKept(old(k.file_table), k.file_table, f) {
        assert FileKept(old(k.file_table), before, f);
      }
    }
    assert k.procs[p].files == NoFiles();
    TiedGaveBack(old(k.file_table), old(fs.table), k.file_table, fs.table, loose);
  }

  /** One round of its loop. */
  method CloseDescriptor(k: Kernel, fs: State, p: nat, fd: nat, ghost loose: seq<nat>)
    requires p < |k.procs| && fd < |k.procs[p].files| && FilesOk(k.procs, k.file_table)
    requires Inodes.Valid(fs) && Tied(k.file_table, fs.table, loose)
    modifies k`procs, k`file_table, fs`table
    ensures k.procs == SetFd(old(k.procs), p, fd, None) && FilesOk(k.procs, k.file_table)
    ensures Inodes.Valid(fs) && Tied(k.file_table, fs.table, loose)
    ensures var file := old(k.procs)[p].files[fd];
      if file == None then k.file_table == old(k.file_table)
      else file.value < |old(k.file_table)|
           && k.file_table == old(k.file_table)[file.value := Dropped(old(k.file_table)[file.value])]
  {
    var file := k.procs[p].files[fd];
    assert FdOk(k.procs, p, fd);
    if file.Some? {
      FilesAfterClose(k.procs, k.file_table, p, fd, file.value);
    } else {
      assert SetFd(k.procs, p, fd, None) == k.procs by {
        assert k.procs[p].files[fd := None] == k.procs[p].files;
      }
    }
    FileClose(k, fs, file, loose);
    k.procs := k.procs[p := k.procs[p].(files := k.procs[p].files[fd := None])];
  }

  /** `exit`: the files of the process are closed and give their inode references back, and the process ends. */
  method Exit(k: Kernel, fs: State, status: int, ghost loose: seq<nat>)
    requires k.Valid() && k.current.Some? && Inodes.Valid(fs) && Tied(k.file_table, fs.table, loose)
    modifies k`procs, k`current, k`loaded, k`decisions, k`exits, k`file_table, fs`table
    ensures k.Valid() && Takes(old(k.T()), ProcessRuns.Exit(status), k.T())
    ensures Inodes.Valid(fs) && Tied(k.file_table, fs.table, loose)
    ensures GaveBack(old(k.file_table), old(fs.table), k.file_table, fs.table)
  {
    ghost var t := k.T();
    var p := k.current.value;
    assert SlotOk(t, p);
    CloseAllFiles(k, fs, p, loose);
    ghost var u, files := k.T(), k.file_table;
    assert u == WithFiles(t, p, NoFiles(), P(t, p).user);
    WithFilesKeepsInv(t, p, NoFiles(), P(t, p).user);
    ExitAfterClosing(t, p, status);
    k.Exit(status);
    FilesAfterExit(u, p, status);
    FileTableIsDetermined(u.procs, k.procs, files, k.file_table);
  }

  /** Ending is the same whether the files are closed already or not. */
  lemma ExitAfterClosing(t: Table, p: nat, status: int)
    requires p < |t.procs|
    ensures Exited(WithFiles(t, p, NoFiles(), P(t, p).user), p, status) == Exited(t, p, status)
  {
    var u := WithFiles(t, p, NoFiles(), P(t, p).user);
    forall q: nat ensures IsChild(u, p, q) == IsChild(t, p, q) && P(u, q).state == P(t, q).state {
    }
    assert LeavesZombie(u, p, MAX_PROCESSES) <==> LeavesZombie(t, p, MAX_PROCESSES) by {
      if q: nat :| q < MAX_PROCESSES && IsChild(u, p, q) && P(u, q).state == Zombie {
        assert IsChild(t, p, q) && P(t, q).state == Zombie;
      }
      if q: nat :| q < MAX_PROCESSES && IsChild(t, p, q) && P(t, q).state == Zombie {
        assert IsChild(u, p, q) && P(u, q).state == Zombie;
      }
    }
    forall q: nat | q < |t.procs| ensures AfterExit(u, p, status, q) == AfterExit(t, p, status, q) {
    }
    assert Exited(u, p, status).procs == Exited(t, p, status).procs;
  }

  /** With no files open it leaves all descriptors alone. */
  lemma FilesAfterExit(u: Table, p: nat, status: int)
    requires |u.procs| == MAX_PROCESSES && p < |u.procs| && u.procs[p].files == NoFiles()
    ensures var v := Dispatch(Exited(u, p, status), p);
      |v.procs| == |u.procs| && forall q | 0 <= q < |u.procs| :: v.procs[q].files == u.procs[q].files
  {
  }

  /** What a process owns goes back, its inode references among it. */
  method FreeProcessResources(k: Kernel, fs: State, p: nat, ghost loose: seq<nat>)
    requires p < |k.procs| && |k.procs[p].files| == NUM_OPEN_FILES && FilesOk(k.procs, k.file_table)
    requires Inodes.Valid(fs) && Tied(k.file_table, fs.table, loose)
    modifies k`procs, k`file_table, k`stacks, k`spaces, fs`table
    ensures k.procs == old(k.procs)[p := Blank(old(k.procs)[p].pid).(user := old(k.procs)[p].user)]
            && FilesOk(k.procs, k.file_table)
    ensures k.stacks == if old(k.procs)[p].stack.Some? then old(k.stacks) - {old(k.procs)[p].stack.value}
                        else old(k.stacks)
    ensures k.spaces == if old(k.procs)[p].pml4.Some? then old(k.spaces) - {old(k.procs)[p].pml4.value}
                        else old(k.spaces)
    ensures Inodes.Valid(fs) && Tied(k.file_table, fs.table, loose)
    ensures GaveBack(old(k.file_table), old(fs.table), k.file_table, fs.table)
  {
    CloseAllFiles(k, fs, p, loose);
    ghost var procs, files := k.procs, k.file_table;
    k.FreeProcessResources(p);
    FileTableIsDetermined(procs, k.procs, files, k.file_table);
  }

  /** `fork` leaves inode references where they are: parent and child share the open files. */
  method Fork(k: Kernel, fs: State, stack: Option<nat>, space: Option<nat>, copied: bool, ghost loose: seq<nat>)
    returns (r: int)
    requires k.Valid() && (stack.Some? ==> stack.value !in k.stacks) && (space.Some? ==> space.value !in k.spaces)
    requires Tied(k.file_table, fs.table, loose)
    modifies k`procs, k`next_pid, k`stacks, k`spaces, k`slot_of, k`file_table
    ensures k.Valid() && Tied(k.file_table, fs.table, loose)
    ensures r == -1 <==> old(k.current) == None || stack == None || space == None || (old(k.Me().user) && !copied)
                         || AllUsed(old(k.T()))
    ensures r != -1 ==> exists n: nat ::
                          Processes.FirstFree(old(k.T()), n)
                          && Takes(old(k.T()), ProcessRuns.Fork(n, stack.value, space.value), k.T())
    ensures r != -1 ==> forall f | 0 <= f < NUM_FILES :: k.file_table[f].inode == old(k.file_table)[f].inode
  {
    ghost var t, files := k.T(), k.file_table;
    r := k.Fork(stack, space, copied);
    if r == -1 {
      return;
    }
    ghost var n: nat :| Processes.FirstFree(t, n) && Takes(t, ProcessRuns.Fork(n, stack.value, space.value), k.T());
    forall f | 0 <= f < NUM_FILES ensures k.file_table[f].inode == files[f].inode {
      InodeAfterFork(t, n, k.procs, files, k.file_table, f);
    }
    TiedForSameInodes(files, k.file_table, fs.table, loose);
  }

  /** A file that was free is free after a fork. */
  lemma InodeAfterFork(t: Table, n: nat, procs: seq<Process>, files: seq<File>, files': seq<File>, f: nat)
    requires Inv(t) && t.current.Some? && FilesOk(t.procs, files) && FilesOk(procs, files') && f < NUM_FILES
    requires n < |t.procs| && !Used(t, n) && FileGrown(files, files', f)
    requires exists x: Process :: procs == t.procs[n := x] && x.files == P(t, t.current.value).files
    ensures files'[f].inode == files[f].inode
  {
    var x: Process :| procs == t.procs[n := x] && x.files == P(t, t.current.value).files;
    assert SlotOk(t, n) && FileOk(t.procs, files, f) && FileOk(procs, files', f);
    RefsAfterUpdate(t.procs, n, x, f);
    RefsCoverFds(t.procs, t.current.value, f);
    assert Some(f) !in NoFiles();
  }

  /** `sys_close` with what `file_close` does to the inode table: the last descriptor of a file gives back the
      one reference that the file held, any other none. */
  method SysClose(k: Kernel, fs: State, fd: nat, ghost loose: seq<nat>) returns (r: int)
    requires k.Valid() && Inodes.Valid(fs) && Tied(k.file_table, fs.table, loose)
    modifies k`procs, k`file_table, fs`table
    ensures k.Valid() && Inodes.Valid(fs) && Tied(k.file_table, fs.table, loose)
    ensures r == -1 <==> old(k.LookupFile(fd)) == None
    ensures r == -1 ==> fs.table == old(fs.table) && k.file_table == old(k.file_table) && k.T() == old(k.T())
    ensures r != -1 ==>
              r == 0 && Takes(old(k.T()), SystemCall(old(k.Me().files)[fd := None], old(k.Me().user)), k.T())
    ensures r != -1 ==>
              var f := old(k.LookupFile(fd)).value;
              && f < |old(k.file_table)|
              && var x := old(k.file_table)[f];
              && k.file_table == old(k.file_table)[f := Dropped(x)]
              && if x.refcnt == 1 && x.inode.Some?
                 then Live(old(fs.table), x.inode.value) && fs.table == OneLess(old(fs.table), x.inode.value)
                 else fs.table == old(fs.table)
  {
    var file := k.LookupFile(fd);
    ghost var files := k.file_table;
    if file.Some? { OpenIsCounted(k, fd); }
    var x := if file.Some? then k.file_table[file.value] else FREE_FILE;
    r := k.SysClose(fd);
    if file == None {
      return;
    }
    if x.refcnt == 1 && x.inode.Some? {
      TiedAfterLeaving(files, fs.table, loose, file.value, Dropped(x));
      InodeTable.PutInode(fs, x.inode.value);
    } else {
      TiedAfterUpdate(files, fs.table, loose, file.value, Dropped(x));
    }
  }

  lemma OpenIsCounted(k: Kernel, fd: nat)
    requires k.Valid() && k.LookupFile(fd).Some?
    ensures k.LookupFile(fd).value < |k.file_table| && k.file_table[k.LookupFile(fd).value].refcnt >= 1
  {
    var c := k.current.value;
    assert FdOk(k.procs, c, fd) && FileOk(k.procs, k.file_table, k.procs[c].files[fd].value);
    OpenFileIsCounted(k.procs, c, fd, k.procs[c].files[fd].value);
  }

  /** An open file on an inode that has just been fetched with `get_inode`: the reference moves into the file. */
  method OpenOnDisk(k: Kernel, fs: State, slot: nat, readable: bool, writable: bool, ghost loose: seq<nat>)
    returns (r: Option<nat>, ghost less: seq<nat>)
    requires k.Valid() && Tied(k.file_table, fs.table, loose) && slot < NUM_INODE && loose[slot] > 0
    modifies k`file_table
    ensures |old(k.file_table)| == NUM_FILES
    ensures Tied(k.file_table, fs.table, less)
    ensures r == None ==> less == loose && k.file_table == old(k.file_table)
    ensures r == None <==> forall f | 0 <= f < NUM_FILES :: old(k.file_table)[f].refcnt != 0
    ensures r.Some? ==>
              && r.value < NUM_FILES && FirstFreeFile(old(k.file_table), r.value)
              && less == loose[slot := loose[slot] - 1]
              && k.file_table == old(k.file_table)[r.value := File(OnDisk, 1, readable, writable, Some(slot), 0)]
  {
    less := loose;
    r := k.FileAllocate();
    if r.Some? {
      TiedAfterTaking(old(k.file_table), fs.table, loose, r.value, File(OnDisk, 1, readable, writable, Some(slot), 0));
      less := loose[slot := loose[slot] - 1];
      var x := k.file_table[r.value].(kind := OnDisk, readable := readable, writable := writable);
      k.file_table := k.file_table[r.value := x];
      k.file_table := k.file_table[r.value := x.(inode := Some(slot))];
      assert k.file_table == old(k.file_table)[r.value := File(OnDisk, 1, readable, writable, Some(slot), 0)];
    }
  }
}
