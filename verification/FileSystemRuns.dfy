/** Whole runs of the file system: which states formatting and its operations lead to, when an operation leads out
    of them, and a run for each way out that the code does not guard against. */
module FileSystemRuns {
  import opened BlockUse
  import opened Bytes
  import opened DiskFormat
  import opened Fsck
  import opened Growth
  import opened FileSystem
  import opened Inodes
  import opened InodeTable
  import opened DirectoryFormat
  import opened Directory
  import opened Format
  import opened PathNames
  import opened Path
  import opened NewDisk
  import opened Wrappers

  // ----- tidy states

  predicate InUse(t: Tree, n: nat) {
    n < |t.inodes| && t.inodes[n].kind != UNUSED
  }

  /** An unused inode names no block. */
  predicate UnusedIsEmpty(t: Tree, n: nat) {
    1 <= n < |t.inodes| && t.inodes[n].kind == UNUSED ==> t.inodes[n].addrs == NO_ADDRS
  }

  /** A live entry names an inode in use. */
  predicate EntryOk(t: Tree, c: seq<byte>, k: nat) {
    LiveAt(c, k) ==> InUse(t, EntryNumber(c, k))
  }

  /** A directory consists of whole entries, with distinct names, that name inodes in use. */
  ghost predicate DirectoryOk(t: Tree, n: nat) {
    n < |t.inodes| && t.inodes[n].kind == DIRECTORY ==>
      var c := Content(t.blocks, t.inodes[n]);
      |c| % ENTRY_SIZE == 0 && DistinctNames(c) && forall k: nat :: EntryOk(t, c, k)
  }

  /** A live slot holds an inode in use. */
  ghost predicate SlotOk(t: Tree, table: seq<Inode>, s: nat) {
    Live(table, s) ==> table[s].number >= 1 && InUse(t, table[s].number)
  }

  ghost predicate TidyDisk(t: Tree) {
    && |t.inodes| == NUM_INODES && t.inodes[ROOT_INODE].kind == DIRECTORY
    && (forall n: nat :: UnusedIsEmpty(t, n)) && (forall n: nat :: DirectoryOk(t, n))
  }

  ghost predicate TidyTable(t: Tree, table: seq<Inode>) {
    forall s: nat :: SlotOk(t, table, s)
  }

  /** The whole-disk invariant, and what keeps `allocate_inode` and path resolution within it. */
  ghost predicate Tidy(fs: State)
    reads fs
  {
    Valid(fs) && TidyDisk(TreeOf(fs)) && TidyTable(TreeOf(fs), fs.table)
  }

  /** In a tidy state `allocate_inode` may take any unused inode, and every path may be walked. */
  lemma TidyIsSafe(fs: State, n: nat)
    requires Tidy(fs) && 1 <= n < NUM_INODES && fs.inodes[n].kind == UNUSED
    ensures Reusable(fs, n) && NumbersOk(TreeOf(fs))
  {
    var t := TreeOf(fs);
    assert UnusedIsEmpty(t, n);
    forall s: nat | Live(fs.table, s) ensures fs.table[s].number != n {
      assert SlotOk(t, fs.table, s);
    }
    TidyNumbers(t);
  }

  lemma TidyNumbers(t: Tree)
    requires TidyDisk(t)
    ensures NumbersOk(t)
  {
    forall n, k: nat | 0 <= n < |t.inodes| && t.inodes[n].kind == DIRECTORY && LiveAt(Content(t.blocks, t.inodes[n]), k)
      ensures EntryNumber(Content(t.blocks, t.inodes[n]), k) < NUM_INODES
    {
      assert DirectoryOk(t, n) && EntryOk(t, Content(t.blocks, t.inodes[n]), k);
    }
  }

  // ----- what the operations do to the disk

  /** Inode `n` may have other bytes, but is of the same type; every other inode and file is as it was. */
  ghost predicate OnlyBytes(t: Tree, t': Tree, n: nat) {
    && n < |t.inodes| == |t'.inodes| && t'.inodes[n].kind == t.inodes[n].kind
    && forall m | 0 <= m < |t.inodes| && m != n ::
         t'.inodes[m] == t.inodes[m] && Content(t'.blocks, t'.inodes[m]) == Content(t.blocks, t.inodes[m])
  }

  lemma SameDirectory(t: Tree, t': Tree, n: nat, m: nat)
    requires OnlyBytes(t, t', n) && DirectoryOk(t, m) && (m == n ==> t.inodes[n].kind != DIRECTORY)
    ensures DirectoryOk(t', m)
  {
    if m < |t.inodes| && t.inodes[m].kind == DIRECTORY {
      forall k: nat ensures EntryOk(t', Content(t'.blocks, t'.inodes[m]), k) {
        assert EntryOk(t, Content(t.blocks, t.inodes[m]), k);
      }
    }
  }

  /** Everything hangs on the inode written: whether it is still a directory in order, if it is one at all. */
  lemma TidyAfterWrite(t: Tree, t': Tree, n: nat)
    requires TidyDisk(t) && OnlyBytes(t, t', n) && InUse(t, n)
    ensures TidyDisk(t') <==> DirectoryOk(t', n)
  {
    if DirectoryOk(t', n) {
      forall m: nat ensures DirectoryOk(t', m) && UnusedIsEmpty(t', m) {
        assert DirectoryOk(t, m) && UnusedIsEmpty(t, m);
        if m != n { SameDirectory(t, t', n, m); }
      }
    }
  }

  /** After linking, the directory is in order exactly if the number is that of an inode in use and the name, as it
      is stored, was not taken. */
  lemma DirectoryAfterLink(t: Tree, t': Tree, n: nat, inode_number: u16, name: Name)
    requires InUse(t, n) && DirectoryOk(t, n) && OnlyBytes(t, t', n) && EntryAdded(t, t', n, inode_number, name)
    requires inode_number != 0
    ensures DirectoryOk(t', n) <==> InUse(t, inode_number) && !NameTaken(Content(t.blocks, t.inodes[n]), name)
  {
    var c, c' := Content(t.blocks, t.inodes[n]), Content(t'.blocks, t'.inodes[n]);
    LinkKeepsSize(c, inode_number, name);
    LinkDistinctIff(c, c', LinkIndex(c), inode_number, name);
    EntriesAfterLink(c, inode_number, name, LinkIndex(c));
    assert InUse(t', inode_number) <==> InUse(t, inode_number);
    if InUse(t, inode_number) {
      forall k: nat ensures EntryOk(t', c', k) {
        EntriesAfterLink(c, inode_number, name, k);
        assert EntryOk(t, c, k);
      }
    } else {
      assert !EntryOk(t', c', LinkIndex(c));
    }
  }

  /** After clearing an entry a directory is in order. */
  lemma DirectoryAfterClear(t: Tree, t': Tree, n: nat, j: nat, name: Name)
    requires InUse(t, n) && t.inodes[n].kind == DIRECTORY && DirectoryOk(t, n) && OnlyBytes(t, t', n)
    requires ValidName(name) && NulFree(name)
    requires var c := Content(t.blocks, t.inodes[n]);
      LiveAt(c, j) && Matches(c, j, name) && Content(t'.blocks, t'.inodes[n]) == Cleared(c, j)
    ensures DirectoryOk(t', n)
  {
    var c, c' := Content(t.blocks, t.inodes[n]), Content(t'.blocks, t'.inodes[n]);
    ClearShrinksMap(c, j, name);
    forall k: nat ensures EntryOk(t', c', k) {
      EntriesAfterClear(c, j, k);
      assert EntryOk(t, c, k);
    }
  }

  /** Not even the bytes have changed. */
  lemma TidyAfterNothing(t: Tree, t': Tree, n: nat)
    requires TidyDisk(t) && OnlyBytes(t, t', n) && InUse(t, n)
    requires Content(t'.blocks, t'.inodes[n]) == Content(t.blocks, t.inodes[n])
    ensures TidyDisk(t') && forall names :: Walk(t', ROOT_INODE, names) == Walk(t, ROOT_INODE, names)
  {
    forall m: nat ensures DirectoryOk(t', m) && UnusedIsEmpty(t', m) {
      assert DirectoryOk(t, m) && UnusedIsEmpty(t, m);
      if m < |t.inodes| && t.inodes[m].kind == DIRECTORY {
        forall k: nat ensures EntryOk(t', Content(t'.blocks, t'.inodes[m]), k) {
          assert EntryOk(t, Content(t.blocks, t.inodes[m]), k);
        }
      }
    }
    forall names ensures Walk(t', ROOT_INODE, names) == Walk(t, ROOT_INODE, names) {
      SameWalk(t, t', n, ROOT_INODE, names);
    }
  }

  lemma {:induction false} SameWalk(t: Tree, t': Tree, n: nat, start: nat, names: seq<Name>)
    requires OnlyBytes(t, t', n) && Content(t'.blocks, t'.inodes[n]) == Content(t.blocks, t.inodes[n])
    ensures Walk(t', start, names) == Walk(t, start, names)
    decreases |names|
  {
    if names != [] {
      assert Step(t', start, names[0]) == Step(t, start, names[0]);
      if Step(t, start, names[0]).Some? { SameWalk(t, t', n, Step(t, start, names[0]).value.inode_number, names[1..]); }
    }
  }

  /** An unused inode has become an empty one of type `kind`. */
  lemma TidyAfterCreate(t: Tree, t': Tree, n: nat, kind: u16)
    requires TidyDisk(t) && 1 <= n < NUM_INODES && t.inodes[n].kind == UNUSED != kind
    requires t'.inodes == t.inodes[n := FreshInode(kind)]
    requires forall m | 0 <= m < NUM_INODES && m != n ::
               Content(t'.blocks, t'.inodes[m]) == Content(t.blocks, t.inodes[m])
    ensures TidyDisk(t')
  {
    forall m: nat ensures DirectoryOk(t', m) && UnusedIsEmpty(t', m) {
      assert DirectoryOk(t, m) && UnusedIsEmpty(t, m);
      if m < NUM_INODES && t'.inodes[m].kind == DIRECTORY {
        var c := Content(t'.blocks, t'.inodes[m]);
        forall k: nat ensures EntryOk(t', c, k) {
          if m != n { assert EntryOk(t, c, k); }
        }
      }
    }
  }

  /** Slots hold what they held, or inodes in use. */
  ghost predicate SlotFrom(table: seq<Inode>, t': Tree, table': seq<Inode>, s: nat) {
    Live(table', s) ==> Held(table, table'[s].number) || (table'[s].number >= 1 && InUse(t', table'[s].number))
  }

  lemma TidyTableAfter(t: Tree, table: seq<Inode>, t': Tree, table': seq<Inode>)
    requires TidyTable(t, table) && (forall s: nat :: SlotFrom(table, t', table', s))
    requires forall m: nat | InUse(t, m) :: InUse(t', m)
    ensures TidyTable(t', table')
  {
    forall s: nat ensures SlotOk(t', table', s) {
      assert SlotFrom(table, t', table', s);
      if Live(table', s) && Held(table, table'[s].number) {
        var u: nat :| Live(table, u) && table[u].number == table'[s].number;
        assert SlotOk(t, table, u);
      }
    }
  }

  // ----- the operations

  /** One more reference, to any inode: the state stays tidy exactly if there is none or the inode is in use. */
  method Get(fs: State, n: nat) returns (r: Option<nat>)
    requires Tidy(fs)
    modifies fs`table
    ensures r == None <==> !old(Held(fs.table, n)) && (!old(HasFreeSlot(fs.table)) || fs.DiskInodeAt(n) == None)
    ensures if r == None then fs.table == old(fs.table)
            else Filled(old(fs.table), fs.table, fs.DiskInodeAt(n), r.value, n)
    ensures Valid(fs) <==> r == None || n < NUM_INODES
    ensures Tidy(fs) <==> r == None || (n >= 1 && InUse(TreeOf(fs), n))
  {
    ghost var t, table := TreeOf(fs), fs.table;
    r := GetInode(fs, n);
    if r.Some? && n >= 1 && InUse(t, n) {
      forall s: nat ensures SlotFrom(table, t, fs.table, s) {
        if Live(table, s) { assert Held(table, table[s].number); }
      }
      TidyTableAfter(t, table, TreeOf(fs), fs.table);
    } else if r.Some? && n < NUM_INODES {
      assert Live(fs.table, r.value) && !SlotOk(TreeOf(fs), fs.table, r.value);
    }
  }

  /** Drops one reference: a tidy state stays tidy, and one that is not does not become so. */
  method Put(fs: State, s: nat)
    requires Valid(fs) && s < NUM_INODE && TidyTable(TreeOf(fs), fs.table)
    modifies fs`table
    ensures Valid(fs) && (Tidy(fs) <==> old(Tidy(fs)))
  {
    ghost var t, table := TreeOf(fs), fs.table;
    PutInode(fs, s);
    forall u: nat ensures SlotFrom(table, t, fs.table, u) {
      if Live(table, u) { assert Held(table, table[u].number); }
    }
    TidyTableAfter(t, table, TreeOf(fs), fs.table);
  }

  method Create(fs: State, kind: u16) returns (r: Option<nat>)
    requires Tidy(fs)
    modifies fs`blocks, fs`inodes, fs`table
    ensures Tidy(fs)
    ensures r == None <==>
              || kind == UNUSED || !old(HasFreeSlot(fs.table))
              || forall n | 1 <= n < NUM_INODES :: old(fs.inodes[n]).kind != UNUSED
    ensures r.Some? ==> Live(fs.table, r.value) && IsEmptyFile(fs.table[r.value].disk, kind)
                        && FirstUnused(old(fs.inodes), fs.table[r.value].number)
  {
    ghost var t, table := TreeOf(fs), fs.table;
    forall n: nat | 1 <= n < NUM_INODES && fs.inodes[n].kind == UNUSED ensures Reusable(fs, n) {
      TidyIsSafe(fs, n);
    }
    ghost var taken;
    r, taken := AllocateInode(fs, kind);
    if taken.Some? {
      ghost var t' := TreeOf(fs);
      forall m | 0 <= m < NUM_INODES && m != taken.value
        ensures Content(t'.blocks, t'.inodes[m]) == Content(t.blocks, t.inodes[m])
      {
        assert File(fs, m) == old(File(fs, m));
      }
      TidyAfterCreate(t, t', taken.value, kind);
      forall u: nat ensures SlotFrom(table, TreeOf(fs), fs.table, u) {
        if Live(table, u) { assert Held(table, table[u].number); }
      }
      TidyTableAfter(t, table, TreeOf(fs), fs.table);
    }
  }

  /** The table after a write through slot `s`: the same numbers and reference counts. */
  ghost predicate SameReferences(table: seq<Inode>, table': seq<Inode>) {
    |table'| == |table| && forall u | 0 <= u < |table| ::
                             table'[u].number == table[u].number && table'[u].refcnt == table[u].refcnt
  }

  lemma TidyIff(fs: State, t: Tree, table: seq<Inode>, n: nat)
    requires TidyDisk(t) && TidyTable(t, table) && Valid(fs) && OnlyBytes(t, TreeOf(fs), n) && InUse(t, n)
    requires SameReferences(table, fs.table)
    ensures TidyTable(TreeOf(fs), fs.table) && (Tidy(fs) <==> DirectoryOk(TreeOf(fs), n))
  {
    TidyAfterWrite(t, TreeOf(fs), n);
    forall u: nat ensures SlotFrom(table, TreeOf(fs), fs.table, u) {
      if Live(fs.table, u) { assert Live(table, u) && Held(table, table[u].number); }
    }
    TidyTableAfter(t, table, TreeOf(fs), fs.table);
  }

  /** Writes bytes, to a directory as to any other file: the state stays tidy exactly if what was written leaves a
      directory in order. */
  method Write(fs: State, s: nat, source: seq<byte>, offset: nat) returns (r: Option<nat>)
    requires Tidy(fs) && Live(fs.table, s)
    modifies fs`blocks, fs`inodes, fs`used, fs`owner, fs`table
    ensures Valid(fs) && (Tidy(fs) <==> DirectoryOk(TreeOf(fs), old(fs.table[s].number)))
    ensures old(fs.table[s].disk.kind) != DIRECTORY ==> Tidy(fs)
    ensures OnlyBytes(old(TreeOf(fs)), TreeOf(fs), old(fs.table[s].number))
    ensures SameReferences(old(fs.table), fs.table) && fs.table[s].disk.kind == old(fs.table[s].disk.kind)
    ensures r == None <==> offset > old(fs.table[s].disk.size) || offset + |source| > MAXFILE * FSBLOCK_SIZE
    ensures r == None ==> fs.Disk() == old(fs.Disk()) && fs.table == old(fs.table)
    ensures r.Some? ==>
              && r.value <= |source|
              && (r.value < |source| ==> DiskFull(fs) && Cut(offset, r.value, old(fs.table[s].disk.size)))
              && Took(old(fs.Disk()), fs.Disk(), old(fs.table[s].number), offset, |source|, r.value)
              && (r.value == |source| <==>
                    |Needed(old(fs.Disk()), old(fs.table[s].number), offset, |source|)| <= |ClearBits(old(fs.used))|)
              && File(fs, old(fs.table[s].number)) ==
                 Splice(old(File(fs, fs.table[s].number)), offset, source[..r.value])
  {
    ghost var t, table := TreeOf(fs), fs.table;
    assert SlotOk(t, table, s);
    r := WriteData(fs, s, source, offset);
    assert OnlyBytes(t, TreeOf(fs), table[s].number) by {
      forall m | 0 <= m < |t.inodes| && m != table[s].number
        ensures Content(fs.blocks, fs.inodes[m]) == Content(t.blocks, t.inodes[m])
      {
        assert r.Some? ==> File(fs, m) == old(File(fs, m));
      }
    }
    TidyIff(fs, t, table, table[s].number);
  }

  /** Takes a name out of a directory, as long as there is no operation for it: the entry is looked up and
      overwritten with zeros.  That name is gone, the others are found as before. */
  method ClearName(fs: State, s: nat, name: Name) returns (found: bool)
    requires Tidy(fs) && Live(fs.table, s) && NulFree(name)
    modifies fs`blocks, fs`inodes, fs`used, fs`owner, fs`table
    ensures Tidy(fs) && SameReferences(old(fs.table), fs.table)
    ensures found <==> ValidName(name) && Step(old(TreeOf(fs)), old(fs.table[s].number), name).Some?
    ensures found ==>
              && Step(TreeOf(fs), old(fs.table[s].number), name) == None
              && forall other: Name | NulFree(other) && other != name ::
                   Step(TreeOf(fs), old(fs.table[s].number), other) ==
                   Step(old(TreeOf(fs)), old(fs.table[s].number), other)
    ensures !found ==> fs.Disk() == old(fs.Disk()) && fs.table == old(fs.table)
    ensures OnlyBytes(old(TreeOf(fs)), TreeOf(fs), old(fs.table[s].number))
  {
    ghost var t, n := TreeOf(fs), fs.table[s].number;
    assert SlotOk(t, fs.table, s) && DirectoryOk(t, n);
    var entry := Lookup(fs, s, name);
    if entry == None {
      assert OnlyBytes(t, t, n);
      return false;
    }
    ghost var c := File(fs, n);
    ghost var j := EntryOf(c, name);
    assert SizeOk(fs.Disk(), n) && |c| == fs.inodes[n].size;
    var done := Write(fs, s, EncodeEntry(0, []), entry.value.offset);
    WholeEntryWritten(c, j, entry.value.offset, done.value, |c|);
    assert EncodeEntry(0, [])[..ENTRY_SIZE] == EncodeEntry(0, []);
    DirectoryAfterClear(t, TreeOf(fs), n, j, name);
    ClearShrinksMap(c, j, name);
    return true;
  }

  /** The index of the entry that a name is found at. */
  ghost function EntryOf(c: seq<byte>, name: Name): (j: nat)
    requires Find(c, name, 0).Some?
    ensures LiveAt(c, j) && Matches(c, j, name) && Find(c, name, 0).value.offset == j * ENTRY_SIZE
  {
    FindMeans(c, name, 0);
    var j: nat :| (j + 1) * ENTRY_SIZE <= |c| && Matches(c, j, name) && Find(c, name, 0).value.offset == j * ENTRY_SIZE;
    j
  }

  lemma WholeEntryWritten(c: seq<byte>, j: nat, offset: nat, done: nat, size: nat)
    requires LiveAt(c, j) && offset == j * ENTRY_SIZE && size == |c| && done <= ENTRY_SIZE
    requires done < ENTRY_SIZE ==> Cut(offset, done, size)
    ensures done == ENTRY_SIZE
  {
    if done < ENTRY_SIZE {
      EntryIsNotCut(offset, done, size);
      assert false;
    }
  }

  /** Inode `n` is a directory without that name, and has a free entry or can grow by one. */
  ghost predicate CanLink(d: Image, n: nat, name: Name, inode_number: nat) {
    n < |d.inodes| && var c := Content(d.blocks, d.inodes[n]);
    Directory.Linkable(d.inodes[n].kind, c, name, inode_number) && Directory.HasRoom(d, n, c)
  }

  /** Links an entry into a directory; on success a NUL-free name is found there.  The state stays tidy exactly if
      nothing was linked, or the number is that of an inode in use and the name, as it is stored, was not taken.
      For a NUL-free name the latter is what the code checks. */
  method LinkInto(fs: State, s: nat, name: Name, inode_number: nat) returns (ok: bool)
    requires Tidy(fs) && Live(fs.table, s)
    modifies fs`blocks, fs`inodes, fs`used, fs`owner, fs`table
    ensures Valid(fs) && TidyTable(TreeOf(fs), fs.table)
    ensures Tidy(fs) <==> !ok || (InUse(old(TreeOf(fs)), inode_number)
                                  && !NameTaken(old(File(fs, fs.table[s].number)), name))
    ensures ok && NulFree(name) ==> !NameTaken(old(File(fs, fs.table[s].number)), name)
    ensures OnlyBytes(old(TreeOf(fs)), TreeOf(fs), old(fs.table[s].number))
    ensures ok ==> ValidName(name) && 1 <= inode_number <= 0xFFFF
                   && EntryAdded(old(TreeOf(fs)), TreeOf(fs), old(fs.table[s].number), inode_number, name)
                   && Step(old(TreeOf(fs)), old(fs.table[s].number), name) == None
    ensures !ok ==> forall names :: Walk(TreeOf(fs), ROOT_INODE, names) == old(Walk(TreeOf(fs), ROOT_INODE, names))
    ensures ok <==> CanLink(old(fs.Disk()), old(fs.table[s].number), name, inode_number)
    ensures SameReferences(old(fs.table), fs.table)
  {
    ghost var t, table, n := TreeOf(fs), fs.table, fs.table[s].number;
    assert SlotOk(t, table, s) && DirectoryOk(t, n);
    ok := Link(fs, s, name, inode_number);
    ghost var t' := TreeOf(fs);
    TidyIff(fs, t, table, n);
    if ok {
      DirectoryAfterLink(t, t', n, inode_number, name);
      if NulFree(name) { TakenIsFound(Content(t.blocks, t.inodes[n]), name); }
    } else {
      TidyAfterNothing(t, t', n);
    }
  }

  // ----- paths

  lemma StepIsInUse(t: Tree, n: nat, name: Name)
    requires TidyDisk(t) && Step(t, n, name).Some?
    ensures Step(t, n, name).value.inode_number >= 1 && InUse(t, Step(t, n, name).value.inode_number)
  {
    var c := Content(t.blocks, t.inodes[n]);
    FindMeans(c, name, 0);
    var k :| 0 <= k && (k + 1) * ENTRY_SIZE <= |c| && Matches(c, k, name)
             && Step(t, n, name).value == DirectoryLookup(EntryNumber(c, k), k * ENTRY_SIZE);
    assert DirectoryOk(t, n) && EntryOk(t, c, k);
  }

  lemma {:induction false} WalkIsInUse(t: Tree, n: nat, names: seq<Name>)
    requires TidyDisk(t) && n >= 1 && InUse(t, n)
    ensures Walk(t, n, names).Some? ==> Walk(t, n, names).value >= 1 && InUse(t, Walk(t, n, names).value)
    ensures WalkToParent(t, n, names).Some? ==>
              WalkToParent(t, n, names).value >= 1 && InUse(t, WalkToParent(t, n, names).value)
    decreases |names|
  {
    if names != [] && Step(t, n, names[0]).Some? {
      StepIsInUse(t, n, names[0]);
      WalkIsInUse(t, Step(t, n, names[0]).value.inode_number, names[1..]);
    }
  }

  /** One more reference, to an inode in use, and no other. */
  lemma TidyAfterReference(t: Tree, table: seq<Inode>, table': seq<Inode>, r: Option<nat>)
    requires TidyTable(t, table) && TableOk(table, t.inodes) && TableOk(table', t.inodes)
    requires r.Some? ==> Live(table', r.value) && table'[r.value].number >= 1 && InUse(t, table'[r.value].number)
    requires forall m: nat ::
               Refs(table', m) == Refs(table, m) + if r.Some? && table'[r.value].number == m then 1 else 0
    ensures TidyTable(t, table')
  {
    forall s: nat ensures SlotFrom(table, t, table', s) {
      if Live(table', s) { RefsOfSlot(table', t.inodes, s); }
    }
    TidyTableAfter(t, table, t, table');
  }

  method Resolve(fs: State, path: seq<byte>) returns (r: Option<nat>)
    requires Tidy(fs)
    modifies fs`table
    ensures Tidy(fs)
    ensures r.Some? ==> Live(fs.table, r.value)
                        && Walk(TreeOf(fs), ROOT_INODE, Components(path)) == Some(fs.table[r.value].number)
    ensures r.Some? <==> path != [] && Walk(TreeOf(fs), ROOT_INODE, Components(path)).Some?
                         && RoomFor(TreeOf(fs), old(fs.table), Components(path), false)
  {
    ghost var t, table := TreeOf(fs), fs.table;
    TidyNumbers(t);
    WalkIsInUse(t, ROOT_INODE, Components(path));
    r := ResolvePath(fs, path);
    TidyAfterReference(t, table, fs.table, r);
  }

  method ResolveDirectory(fs: State, path: seq<byte>) returns (r: Option<nat>, name: Name)
    requires Tidy(fs)
    modifies fs`table
    ensures Tidy(fs)
    ensures r.Some? ==> Live(fs.table, r.value) && Components(path) != []
                        && name == Components(path)[|Components(path)| - 1]
                        && WalkToParent(TreeOf(fs), ROOT_INODE, Components(path)) == Some(fs.table[r.value].number)
    ensures r.Some? <==> WalkToParent(TreeOf(fs), ROOT_INODE, Components(path)).Some?
                         && RoomFor(TreeOf(fs), old(fs.table), Components(path), true)
  {
    ghost var t, table := TreeOf(fs), fs.table;
    TidyNumbers(t);
    WalkIsInUse(t, ROOT_INODE, Components(path));
    r, name := ResolveParent(fs, path);
    TidyAfterReference(t, table, fs.table, r);
  }

  lemma {:induction false} ParentIsWalked(t: Tree, start: nat, names: seq<Name>)
    requires WalkToParent(t, start, names).Some?
    ensures names != [] && Walk(t, start, names[..|names| - 1]) == WalkToParent(t, start, names)
    decreases |names|
  {
    if |names| > 1 {
      ParentIsWalked(t, Step(t, start, names[0]).value.inode_number, names[1..]);
      assert names[..|names| - 1][1..] == names[1..][..|names[1..]| - 1];
    } else {
      assert names[..0] == [];
    }
  }

  /** The path leads to a directory with room for its last component, and the table has room to go there. */
  ghost predicate CanLinkAt(d: Image, table: seq<Inode>, names: seq<Name>, inode_number: nat) {
    var t := Tree(d.blocks, d.inodes);
    var n := WalkToParent(t, ROOT_INODE, names);
    names != [] && n.Some? && RoomFor(t, table, names, true) && CanLink(d, n.value, names[|names| - 1], inode_number)
  }

  /** Links at the end of a path without NUL: afterwards the path resolves to what was linked, and whatever resolved
      before resolves as before.  The state stays tidy exactly if nothing was linked or an inode in use. */
  method LinkAt(fs: State, path: seq<byte>, inode_number: nat) returns (ok: bool)
    requires Tidy(fs) && NulFreeNames(Components(path))
    modifies fs`blocks, fs`inodes, fs`used, fs`owner, fs`table
    ensures Valid(fs) && (Tidy(fs) <==> !ok || InUse(old(TreeOf(fs)), inode_number))
    ensures ok <==> CanLinkAt(old(fs.Disk()), old(fs.table), Components(path), inode_number)
    ensures ok ==> Walk(TreeOf(fs), ROOT_INODE, Components(path)) == Some(inode_number)
    ensures forall names | NulFreeNames(names) && old(Walk(TreeOf(fs), ROOT_INODE, names)).Some? ::
              Walk(TreeOf(fs), ROOT_INODE, names) == old(Walk(TreeOf(fs), ROOT_INODE, names))
  {
    ghost var t, d, names := TreeOf(fs), fs.Disk(), Components(path);
    var parent, name := ResolveDirectory(fs, path);
    assert fs.Disk() == d;
    if parent == None {
      return false;
    }
    ghost var n := fs.table[parent.value].number;
    assert TreeOf(fs) == t && NulFree(names[|names| - 1]);
    ok := LinkInto(fs, parent.value, name, inode_number);
    ghost var t' := TreeOf(fs);
    if ok {
      LinkedAtPath(t, t', n, inode_number, names);
    }
    Put(fs, parent.value);
    assert TreeOf(fs) == t';
  }

  lemma LinkedAtPath(t: Tree, t': Tree, n: nat, inode_number: u16, names: seq<Name>)
    requires NulFreeNames(names) && WalkToParent(t, ROOT_INODE, names) == Some(n) && names != [] && inode_number != 0
    requires EntryAdded(t, t', n, inode_number, names[|names| - 1]) && ValidName(names[|names| - 1])
    requires Step(t, n, names[|names| - 1]) == None
    ensures Walk(t', ROOT_INODE, names) == Some(inode_number as nat)
    ensures forall others | NulFreeNames(others) && Walk(t, ROOT_INODE, others).Some? ::
              Walk(t', ROOT_INODE, others) == Walk(t, ROOT_INODE, others)
  {
    var name := names[|names| - 1];
    ParentIsWalked(t, ROOT_INODE, names);
    LinkedPathResolves(t, t', n, inode_number, names[..|names| - 1], name);
    assert names[..|names| - 1] + [name] == names;
    forall others | NulFreeNames(others) && Walk(t, ROOT_INODE, others).Some?
      ensures Walk(t', ROOT_INODE, others) == Walk(t, ROOT_INODE, others)
    {
      WalkAfterLink(t, t', n, inode_number, name, ROOT_INODE, others);
    }
  }

  // ----- runs

  /** Formatting makes a tidy disk. */
  lemma FormattedIsTidy(t: Tree, b: u32)
    requires t.inodes == EmptyImage(t.blocks).inodes[ROOT_INODE := RootInode(b, 32)]
    requires Content(t.blocks, t.inodes[ROOT_INODE]) == RootContent()
    ensures TidyDisk(t)
  {
    RootIsLinked();
    LinkExtendsMap([], ROOT_INODE, DOT);
    LinkExtendsMap(WithEntry([], ROOT_INODE, DOT), ROOT_INODE, DOT_DOT);
    forall k: nat ensures EntryOk(t, RootContent(), k) {
      if LiveAt(RootContent(), k) { RootEntriesAreOk(k); }
    }
    forall n: nat ensures DirectoryOk(t, n) && UnusedIsEmpty(t, n) {
    }
  }

  method MakeTidy(fs: State, total_blocks: u32) returns (ok: bool)
    requires total_blocks == |fs.blocks| <= 0xFFFF_F000
    requires |fs.table| == NUM_INODE && forall s | 0 <= s < NUM_INODE :: fs.table[s].refcnt == 0
    modifies fs
    ensures ok <==> DataStart(total_blocks) < total_blocks
    ensures ok ==> Tidy(fs) && fs.table == old(fs.table) && FirstUnused(fs.inodes, 2)
                   && File(fs, ROOT_INODE) == RootContent()
  {
    ok := Format.Format(fs, total_blocks);
    if ok {
      FormattedIsTidy(TreeOf(fs), DataStart(total_blocks));
    }
  }

  /** What a client asks for.  A client names inodes in use only, writes bytes to files that are no directories but
      for clearing an entry, and links names without NUL; what anything else leads to is said by `Get`, `Write` and
      `LinkInto`. */
  datatype Request =
    | GetNumber(n: nat)
    | PutSlot(s: nat)
    | CreateOf(kind: u16)
    | WriteAt(s: nat, data: seq<byte>, offset: nat)
    | LinkName(s: nat, name: Name, n: nat)
    | Unlink(s: nat, name: Name)
    | ResolveAll(path: seq<byte>)
    | ResolveMost(path: seq<byte>)

  method IsInUse(fs: State, n: nat) returns (r: bool)
    requires Tidy(fs)
    ensures r <==> InUse(TreeOf(fs), n)
  {
    if n >= NUM_INODES {
      return false;
    }
    var disk := fs.GetDiskInode(n);
    return disk.value.kind != UNUSED;
  }

  method ServeOne(fs: State, q: Request)
    requires Tidy(fs)
    modifies fs`blocks, fs`inodes, fs`used, fs`owner, fs`table
    ensures Tidy(fs)
  {
    match q
    case GetNumber(n) =>
      var used := IsInUse(fs, n);
      if used && n >= 1 {
        var _ := Get(fs, n);
      }
    case PutSlot(s) =>
      if s < NUM_INODE {
        Put(fs, s);
      }
    case CreateOf(kind) =>
      var _ := Create(fs, kind);
    case WriteAt(s, data, offset) =>
      if s < NUM_INODE && fs.table[s].refcnt > 0 && fs.table[s].disk.kind != DIRECTORY {
        var _ := Write(fs, s, data, offset);
      }
    case LinkName(s, name, n) =>
      var used := IsInUse(fs, n);
      if s < NUM_INODE && fs.table[s].refcnt > 0 && used && NulFree(name) {
        var _ := LinkInto(fs, s, name, n);
      }
    case Unlink(s, name) =>
      if s < NUM_INODE && fs.table[s].refcnt > 0 && NulFree(name) {
        var _ := ClearName(fs, s, name);
      }
    case ResolveAll(path) =>
      var _ := Resolve(fs, path);
    case ResolveMost(path) =>
      var _, _ := ResolveDirectory(fs, path);
  }

  /** From formatting on, in every run of such requests, the whole-disk invariant holds, directories stay maps
      onto inodes in use, `allocate_inode` finds every unused inode reusable, and every path can be walked. */
  method ServeRequests(fs: State, total_blocks: u32, requests: seq<Request>) returns (ok: bool)
    requires total_blocks == |fs.blocks| <= 0xFFFF_F000
    requires |fs.table| == NUM_INODE && forall s | 0 <= s < NUM_INODE :: fs.table[s].refcnt == 0
    modifies fs
    ensures ok <==> DataStart(total_blocks) < total_blocks
    ensures ok ==> Tidy(fs) && NumbersOk(TreeOf(fs))
    ensures ok ==> forall n | 1 <= n < NUM_INODES && fs.inodes[n].kind == UNUSED :: Reusable(fs, n)
  {
    ok := MakeTidy(fs, total_blocks);
    if !ok {
      return;
    }
    for k := 0 to |requests|
      invariant Tidy(fs)
    {
      ServeOne(fs, requests[k]);
    }
    TidyNumbers(TreeOf(fs));
    forall n | 1 <= n < NUM_INODES && fs.inodes[n].kind == UNUSED ensures Reusable(fs, n) {
      TidyIsSafe(fs, n);
    }
  }

  // ----- the ways out

  /** On a new disk, a byte is written to the unused inode 2, which no check prevents, and the reference given back.
      Then the inode is allocated: its block is lost, although no slot was live. */
  method LostBlock(fs: State, total_blocks: u32) returns (ok: bool, written: bool)
    requires total_blocks == |fs.blocks| <= 0xFFFF_F000
    requires |fs.table| == NUM_INODE && forall s | 0 <= s < NUM_INODE :: fs.table[s].refcnt == 0
    modifies fs
    ensures ok <==> DataStart(total_blocks) < total_blocks
    ensures ok ==> (written || DiskFull(fs)) && (Valid(fs) <==> !written)
    ensures ok ==> TableOk(fs.table, fs.inodes)
  {
    written := false;
    ok := MakeTidy(fs, total_blocks);
    if !ok {
      return;
    }
    written := WriteUnused(fs);
    if !written {
      return;
    }
    ghost var table, inodes := fs.table, fs.inodes;
    var r, taken := AllocateInode(fs, REGULAR);
    FreshTable(table, inodes, 2, REGULAR);
    if r.Some? { StaleStays(table, fs.table, inodes, 2, REGULAR, r.value); }
  }

  /** The first part: afterwards the unused inode has a block, and no slot is live. */
  method WriteUnused(fs: State) returns (written: bool)
    requires Valid(fs) && FirstUnused(fs.inodes, 2) && forall s | 0 <= s < NUM_INODE :: fs.table[s].refcnt == 0
    modifies fs`blocks, fs`inodes, fs`used, fs`owner, fs`table
    ensures Valid(fs) && (written || DiskFull(fs))
    ensures written ==> FirstUnused(fs.inodes, 2) && !Held(fs.table, 2) && fs.inodes[2].addrs != NO_ADDRS
  {
    assert fs.table[0].refcnt == 0;
    var slot := GetInode(fs, 2);
    assert slot.Some? && fs.table[slot.value].refcnt == 1 && fs.table[slot.value].number == 2;
    var done := WriteData(fs, slot.value, [0x41], 0);
    written := done == Some(1);
    if written {
      PutInode(fs, slot.value);
      WrittenHasBlocks(fs.Disk(), fs.owner, 2);
    }
  }

  /** A file that is not empty has blocks. */
  lemma WrittenHasBlocks(d: Image, owner: Owner, n: nat)
    requires Sound(d, owner) && n < NUM_INODES && d.inodes[n].size > 0
    ensures d.inodes[n].addrs != NO_ADDRS
  {
    assert SizeOk(d, n);
    assert RefOf(d.blocks, d.inodes[n], 0) != 0;
  }

  /** On a new disk, two bytes are written over the number of the first entry of the root: the whole-disk invariant
      holds, and the entry names no inode. */
  method BytesOverEntry(fs: State, total_blocks: u32) returns (ok: bool)
    requires total_blocks == |fs.blocks| <= 0xFFFF_F000
    requires |fs.table| == NUM_INODE && forall s | 0 <= s < NUM_INODE :: fs.table[s].refcnt == 0
    modifies fs
    ensures ok <==> DataStart(total_blocks) < total_blocks
    ensures ok ==> Valid(fs) && !NumbersOk(TreeOf(fs)) && !Tidy(fs)
  {
    ok := MakeTidy(fs, total_blocks);
    if !ok {
      return;
    }
    assert fs.table[0].refcnt == 0;
    var root := GetInode(fs, ROOT_INODE);
    ghost var t := TreeOf(fs);
    var done := WriteData(fs, root.value, [0xFF, 0xFF], 0);
    assert done == Some(2);
    WildEntry(t, TreeOf(fs));
    if TidyDisk(TreeOf(fs)) { TidyNumbers(TreeOf(fs)); }
  }

  lemma WildEntry(t: Tree, t': Tree)
    requires |t'.inodes| == NUM_INODES && t'.inodes[ROOT_INODE].kind == DIRECTORY
    requires Content(t'.blocks, t'.inodes[ROOT_INODE]) == Splice(RootContent(), 0, [0xFF, 0xFF])
    ensures !NumbersOk(t')
  {
    var c := Content(t'.blocks, t'.inodes[ROOT_INODE]);
    assert c[0] == 0xFF && c[1] == 0xFF && LiveAt(c, 0) && EntryNumber(c, 0) == 0xFFFF;
  }

  /** On a new disk, looking up the unused inode 2 and then allocating an inode leaves a stale slot: the state is
      not valid any more. */
  method StaleSlot(fs: State, total_blocks: u32) returns (ok: bool)
    requires total_blocks == |fs.blocks| <= 0xFFFF_F000
    requires |fs.table| == NUM_INODE && forall s | 0 <= s < NUM_INODE :: fs.table[s].refcnt == 0
    modifies fs
    ensures ok <==> DataStart(total_blocks) < total_blocks
    ensures ok ==> !Valid(fs)
  {
    ok := MakeTidy(fs, total_blocks);
    if ok {
      assert fs.table[0].refcnt == 0;
      var slot := GetInode(fs, 2);
      assert Held(fs.table, 2);
      var r, taken := AllocateInode(fs, REGULAR);
    }
  }

  /** On a new disk, linking the number 500 under the name "a" succeeds unless the disk is full, and leaves a
      directory entry that names no inode. */
  method WildNumber(fs: State, total_blocks: u32) returns (ok: bool, linked: bool)
    requires total_blocks == |fs.blocks| <= 0xFFFF_F000
    requires |fs.table| == NUM_INODE && forall s | 0 <= s < NUM_INODE :: fs.table[s].refcnt == 0
    modifies fs
    ensures ok <==> DataStart(total_blocks) < total_blocks
    ensures ok ==> Valid(fs) && (linked || DiskFull(fs)) && (linked ==> !NumbersOk(TreeOf(fs)))
  {
    linked := false;
    ok := MakeTidy(fs, total_blocks);
    if ok {
      assert fs.table[0].refcnt == 0;
      var root := GetInode(fs, ROOT_INODE);
      ghost var t := TreeOf(fs);
      TidyNumbers(t);
      RootLookup([97]);
      linked := Link(fs, root.value, [97], 500);
      if linked { LinkKeepsNumbers(t, TreeOf(fs), ROOT_INODE, 500, [97]); }
    }
  }
}
