/** The table of open files, shared by all processes: each file counts the descriptors that refer to it. */
module OpenFiles {
  import opened Wrappers
  import opened ProcessTable

  const NUM_FILES := 100

  datatype FileType = NoType | Console | OnDisk

  datatype File = File(kind: FileType, refcnt: int, readable: bool, writable: bool, inode: Option<nat>, offset: nat)

  const FREE_FILE := File(NoType, 0, false, false, None, 0)

  /** The descriptors of one process that refer to file `f`. */
  function FdsOf(x: Process, f: nat): nat {
    multiset(x.files)[Some(f)]
  }

  /** The descriptors of all processes that refer to file `f`. */
  function Refs(procs: seq<Process>, f: nat): nat {
    if procs == [] then 0 else Refs(procs[..|procs| - 1], f) + FdsOf(procs[|procs| - 1], f)
  }

  lemma {:induction false} RefsAfterUpdate(procs: seq<Process>, p: nat, x: Process, f: nat)
    requires p < |procs|
    ensures Refs(procs[p := x], f) == Refs(procs, f) - FdsOf(procs[p], f) + FdsOf(x, f)
  {
    var n := |procs| - 1;
    if p == n {
      assert procs[p := x][..n] == procs[..n];
    } else {
      RefsAfterUpdate(procs[..n], p, x, f);
      assert procs[p := x][..n] == procs[..n][p := x];
    }
  }

  lemma {:induction false} RefsOfSameFiles(procs: seq<Process>, procs': seq<Process>, f: nat)
    requires |procs| == |procs'| && forall q | 0 <= q < |procs| :: procs'[q].files == procs[q].files
    ensures Refs(procs', f) == Refs(procs, f)
  {
    if procs != [] {
      RefsOfSameFiles(procs[..|procs| - 1], procs'[..|procs'| - 1], f);
    }
  }

  lemma {:induction false} NoFilesNoRefs(procs: seq<Process>, f: nat)
    requires forall q | 0 <= q < |procs| :: procs[q].files == NoFiles()
    ensures Refs(procs, f) == 0
  {
    if procs != [] {
      NoFilesNoRefs(procs[..|procs| - 1], f);
      assert Some(f) !in NoFiles();
    }
  }

  // ----- the invariant

  /** A file counts exactly its descriptors, and a file without any is blank. */
  predicate FileOk(procs: seq<Process>, files: seq<File>, f: nat) {
    f < |files| ==> files[f].refcnt == Refs(procs, f) && (files[f].refcnt == 0 ==> files[f] == FREE_FILE)
  }

  predicate FdOk(procs: seq<Process>, p: nat, fd: nat) {
    p < |procs| && fd < |procs[p].files| && procs[p].files[fd].Some? ==> procs[p].files[fd].value < NUM_FILES
  }

  ghost predicate FilesOk(procs: seq<Process>, files: seq<File>) {
    && |files| == NUM_FILES
    && (forall f: nat :: FileOk(procs, files, f))
    && (forall p: nat, fd: nat :: FdOk(procs, p, fd))
  }

  lemma FilesOkForSameFiles(procs: seq<Process>, procs': seq<Process>, files: seq<File>)
    requires FilesOk(procs, files)
    requires |procs| == |procs'| && forall q | 0 <= q < |procs| :: procs'[q].files == procs[q].files
    ensures FilesOk(procs', files)
  {
    forall f: nat ensures FileOk(procs', files, f) {
      assert FileOk(procs, files, f);
      RefsOfSameFiles(procs, procs', f);
    }
    forall p: nat, fd: nat ensures FdOk(procs', p, fd) {
      assert FdOk(procs, p, fd);
    }
  }

  // ----- one descriptor more or less

  function SetFd(procs: seq<Process>, p: nat, fd: nat, file: Option<nat>): seq<Process>
    requires p < |procs| && fd < |procs[p].files|
  {
    procs[p := procs[p].(files := procs[p].files[fd := file])]
  }

  lemma RefsAfterSetFd(procs: seq<Process>, p: nat, fd: nat, file: Option<nat>, f: nat)
    requires p < |procs| && fd < |procs[p].files|
    ensures Refs(SetFd(procs, p, fd, file), f) ==
            Refs(procs, f) - (if procs[p].files[fd] == Some(f) then 1 else 0) + (if file == Some(f) then 1 else 0)
  {
    var s, x := procs[p].files, procs[p].(files := procs[p].files[fd := file]);
    RefsAfterUpdate(procs, p, x, f);
    assert multiset(s[fd := file]) == multiset(s) - multiset{s[fd]} + multiset{file};
    assert s[fd] in multiset(s);
  }

  /** A descriptor that is open keeps its file alive. */
  lemma OpenFileIsCounted(procs: seq<Process>, p: nat, fd: nat, f: nat)
    requires p < |procs| && fd < |procs[p].files| && procs[p].files[fd] == Some(f)
    ensures Refs(procs, f) > 0
  {
    RefsAfterSetFd(procs, p, fd, None, f);
  }

  /** No process has more descriptors of a file than there are. */
  lemma RefsCoverFds(procs: seq<Process>, p: nat, f: nat)
    requires p < |procs|
    ensures FdsOf(procs[p], f) <= Refs(procs, f)
  {
    RefsAfterUpdate(procs, p, Blank(0), f);
    assert Some(f) !in NoFiles();
  }

  /** A file after one more descriptor refers to it. */
  function Duplicated(x: File): File {
    x.(refcnt := x.refcnt + 1)
  }

  function Dropped(x: File): File {
    if x.refcnt - 1 > 0 then x.(refcnt := x.refcnt - 1) else FREE_FILE
  }

  /** Closing one descriptor. */
  lemma FilesAfterClose(procs: seq<Process>, files: seq<File>, p: nat, fd: nat, f: nat)
    requires FilesOk(procs, files) && p < |procs| && fd < |procs[p].files| && procs[p].files[fd] == Some(f)
    ensures f < |files| && files[f].refcnt > 0
    ensures FilesOk(SetFd(procs, p, fd, None), files[f := Dropped(files[f])])
  {
    assert FdOk(procs, p, fd) && FileOk(procs, files, f);
    OpenFileIsCounted(procs, p, fd, f);
    var procs', files' := SetFd(procs, p, fd, None), files[f := Dropped(files[f])];
    forall g: nat ensures FileOk(procs', files', g) {
      assert FileOk(procs, files, g);
      RefsAfterSetFd(procs, p, fd, None, g);
    }
    forall q: nat, d: nat ensures FdOk(procs', q, d) {
      assert FdOk(procs, q, d);
    }
  }

  /** Opening one descriptor. */
  lemma FilesAfterOpen(procs: seq<Process>, files: seq<File>, p: nat, fd: nat, f: nat, x: File)
    requires FilesOk(procs, files) && p < |procs| && fd < |procs[p].files| && procs[p].files[fd] == None
    requires f < |files| && x.refcnt == files[f].refcnt + 1
    ensures FilesOk(SetFd(procs, p, fd, Some(f)), files[f := x])
  {
    var procs', files' := SetFd(procs, p, fd, Some(f)), files[f := x];
    assert FileOk(procs, files, f);
    forall g: nat ensures FileOk(procs', files', g) {
      assert FileOk(procs, files, g);
      RefsAfterSetFd(procs, p, fd, Some(f), g);
    }
    forall q: nat, d: nat ensures FdOk(procs', q, d) {
      assert FdOk(procs, q, d);
    }
  }

  /** What else is known of a file changes only when its last descriptor goes. */
  predicate FileKept(files: seq<File>, files': seq<File>, f: nat) {
    f < |files| && f < |files'| && files'[f].refcnt > 0 && files[f].refcnt > 0 ==>
      files'[f] == files[f].(refcnt := files'[f].refcnt)
  }

  function NewFileTable(): (s: seq<File>)
    ensures |s| == NUM_FILES && forall i | 0 <= i < |s| :: s[i] == FREE_FILE
  {
    seq(NUM_FILES, _ => FREE_FILE)
  }

  lemma NewTablesOk(procs: seq<Process>)
    requires forall q | 0 <= q < |procs| :: procs[q].files == NoFiles()
    ensures FilesOk(procs, NewFileTable())
  {
    forall f: nat ensures FileOk(procs, NewFileTable(), f) {
      NoFilesNoRefs(procs, f);
    }
    forall p: nat, fd: nat ensures FdOk(procs, p, fd) {
    }
  }

  /** At most one file is free. */
  predicate FewFree(files: seq<File>) {
    forall f, g | 0 <= f < |files| && 0 <= g < |files| && files[f].refcnt == 0 && files[g].refcnt == 0 :: f == g
  }

  lemma FewWereFree(files: seq<File>, i: nat, files': seq<File>)
    requires i < |files| == |files'| && (forall f | 0 <= f < |files| :: files'[f].refcnt != 0)
    requires forall f | 0 <= f < |files| && f != i :: files'[f] == files[f]
    ensures FewFree(files)
  {
  }

  /** A file that was open has gained references at most. */
  predicate FileGrown(files: seq<File>, files': seq<File>, f: nat) {
    f < |files| && f < |files'| && files[f].refcnt > 0 ==>
      files'[f].refcnt >= files[f].refcnt && files'[f] == files[f].(refcnt := files'[f].refcnt)
  }

  lemma KeptAfterGrown(files: seq<File>, files': seq<File>, files'': seq<File>)
    requires |files| == |files'| == |files''|
    requires (forall f: nat :: FileGrown(files, files', f)) && (forall f: nat :: FileKept(files', files'', f))
    ensures forall f: nat :: FileKept(files, files'', f)
  {
    forall f: nat ensures FileKept(files, files'', f) {
      assert FileGrown(files, files', f) && FileKept(files', files'', f);
    }
  }

  /** With the same descriptors, the file table is the same. */
  lemma FileTableIsDetermined(procs: seq<Process>, procs': seq<Process>, files: seq<File>, files': seq<File>)
    requires FilesOk(procs, files) && FilesOk(procs', files') && forall f: nat :: FileKept(files, files', f)
    requires |procs| == |procs'| && forall q | 0 <= q < |procs| :: procs'[q].files == procs[q].files
    ensures files' == files
  {
    forall f: nat | f < NUM_FILES ensures files'[f] == files[f] {
      assert FileOk(procs, files, f) && FileOk(procs', files', f) && FileKept(files, files', f);
      RefsOfSameFiles(procs, procs', f);
    }
  }
}
