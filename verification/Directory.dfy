/** Looking names up in a directory and linking new ones. */
module Directory {
  import opened BlockUse
  import opened Bytes
  import opened DiskFormat
  import opened Fsck
  import opened Growth
  import opened FileSystem
  import opened Inodes
  import opened DirectoryFormat
  import opened Wrappers

  /** One whole entry of a directory. */
  method ReadEntry(fs: State, s: nat, k: nat) returns (number: nat, name: StoredName)
    requires Valid(fs) && Live(fs.table, s) && (k + 1) * ENTRY_SIZE <= fs.table[s].disk.size
    ensures var c := Content(fs.blocks, fs.table[s].disk); number == EntryNumber(c, k) && name == EntryName(c, k)
  {
    var bytes := ReadData(fs, s, k * ENTRY_SIZE, ENTRY_SIZE);
    ghost var c := Content(fs.blocks, fs.table[s].disk);
    assert bytes.value == c[k * ENTRY_SIZE..(k + 1) * ENTRY_SIZE];
    assert bytes.value[2..] == EntryName(c, k);
    number, name := U16(bytes.value, 0), bytes.value[2..];
  }

  /** What `directory_lookup` finds: the map of the directory at `name`, nothing for a name that cannot
      be one and nothing in a file that is no directory. */
  ghost function LookupOf(kind: u16, c: seq<byte>, name: Name): Option<DirectoryLookup> {
    if kind != DIRECTORY || !ValidName(name) then None else Find(c, name, 0)
  }

  method Lookup(fs: State, s: nat, name: Name) returns (r: Option<DirectoryLookup>)
    requires Valid(fs) && Live(fs.table, s)
    ensures r == LookupOf(fs.table[s].disk.kind, Content(fs.blocks, fs.table[s].disk), name)
    ensures r.Some? ==> fs.table[s].disk.kind == DIRECTORY && ValidName(name) && r.value.inode_number != 0
  {
    var valid := IsValidName(name);
    if fs.table[s].disk.kind != DIRECTORY || !valid {
      return None;
    }
    ghost var c := Content(fs.blocks, fs.table[s].disk);
    var k := 0;
    while (k + 1) * ENTRY_SIZE <= fs.table[s].disk.size
      invariant Find(c, name, 0) == Find(c, name, k)
      decreases fs.table[s].disk.size - k * ENTRY_SIZE
    {
      var number, stored := ReadEntry(fs, s, k);
      var equal := IsNameEqual(stored, name);
      if number != 0 && equal {
        return Some(DirectoryLookup(number, k * ENTRY_SIZE));
      }
      k := k + 1;
    }
    return None;
  }

  /** Whether entry `k` is free, and if not, whether it carries `name`. */
  method CheckEntry(fs: State, s: nat, k: nat, name: Name) returns (empty: bool, equal: bool)
    requires Valid(fs) && Live(fs.table, s) && (k + 1) * ENTRY_SIZE <= fs.table[s].disk.size
    ensures var c := Content(fs.blocks, fs.table[s].disk);
      (empty <==> EntryNumber(c, k) == 0) && (!empty ==> (equal <==> Matches(c, k, name)))
  {
    var number, stored := ReadEntry(fs, s, k);
    equal := IsNameEqual(stored, name);
    empty := number == 0;
  }

  /** The scan of `directory_link`: whether the name is there already, and the first free entry. */
  method ScanForLink(fs: State, s: nat, name: Name) returns (exists_: bool, free: Option<nat>)
    requires Valid(fs) && Live(fs.table, s)
    ensures var c := Content(fs.blocks, fs.table[s].disk);
      && (exists_ <==> Find(c, name, 0).Some?)
      && (!exists_ ==> free == FreeEntry(c, 0))
  {
    ghost var c := Content(fs.blocks, fs.table[s].disk);
    free := None;
    var k := 0;
    while (k + 1) * ENTRY_SIZE <= fs.table[s].disk.size
      invariant Find(c, name, 0) == Find(c, name, k)
      invariant FreeEntry(c, 0) == if free.Some? then free else FreeEntry(c, k)
      decreases fs.table[s].disk.size - k * ENTRY_SIZE
    {
      var empty, equal := CheckEntry(fs, s, k, name);
      if empty {
        if free == None {
          free := Some(k);
        }
      } else if equal {
        return true, free;
      }
      k := k + 1;
    }
    return false, free;
  }

  /** The cases in which `directory_link` refuses without looking for space. */
  ghost predicate Linkable(kind: u16, c: seq<byte>, name: Name, inode_number: nat) {
    kind == DIRECTORY && ValidName(name) && 0 < inode_number <= 0xFFFF && Find(c, name, 0) == None
  }

  /** There are blocks for an entry at `offset`. */
  ghost predicate Fits(d: Image, n: nat, offset: nat) {
    offset + ENTRY_SIZE <= MAXFILE * FSBLOCK_SIZE && |Needed(d, n, offset, ENTRY_SIZE)| <= |ClearBits(d.used)|
  }

  /** Only blocks for that entry have been taken. */
  ghost predicate TookForEntry(d: Image, e: Image, n: nat, offset: nat, ok: bool) {
    && TakenForSlots(d, e, n) && FilledSlots(d, e, n) <= Needed(d, n, offset, ENTRY_SIZE)
    && (ok ==> FilledSlots(d, e, n) == Needed(d, n, offset, ENTRY_SIZE))
  }

  /** Writes one entry over a free one or at the end of the directory.  In a directory of whole entries it is all
      of it or nothing, and nothing only at the end; else it may be cut at the end of a block. */
  method WriteEntry(fs: State, s: nat, entry: seq<byte>, offset: nat) returns (ok: bool)
    requires Valid(fs) && Live(fs.table, s) && |entry| == ENTRY_SIZE
    requires (offset + ENTRY_SIZE <= fs.table[s].disk.size && offset % ENTRY_SIZE == 0)
             || offset == fs.table[s].disk.size
    modifies fs`blocks, fs`inodes, fs`used, fs`owner, fs`table
    ensures Valid(fs) && fs.superblock == old(fs.superblock)
    ensures OnlyFile(fs, old(fs.table[s].number)) && UsedGrows(fs)
    ensures fs.table == old(fs.table)[s := old(fs.table[s]).(disk := fs.inodes[old(fs.table[s].number)])]
    ensures ok <==> Fits(old(fs.Disk()), old(fs.table[s].number), offset)
    ensures TookForEntry(old(fs.Disk()), fs.Disk(), old(fs.table[s].number), offset, ok)
    ensures ok ==> File(fs, old(fs.table[s].number)) == Splice(old(File(fs, fs.table[s].number)), offset, entry)
    ensures !ok && offset % ENTRY_SIZE == 0 ==> File(fs, old(fs.table[s].number)) == old(File(fs, fs.table[s].number))
    ensures !ok ==>
              && offset == old(fs.table[s].disk.size)
              && (offset + ENTRY_SIZE > MAXFILE * FSBLOCK_SIZE || DiskFull(fs))
              && exists n :: 0 <= n < ENTRY_SIZE
                             && File(fs, old(fs.table[s].number)) ==
                                  Splice(old(File(fs, fs.table[s].number)), offset, entry[..n])
  {
    ghost var c, n, size := File(fs, fs.table[s].number), fs.table[s].number, fs.table[s].disk.size;
    assert SizeOk(fs.Disk(), n);
    GrownTakesForSlots(fs.Disk(), fs.owner, fs.Disk(), fs.owner, n);
    var done := WriteData(fs, s, entry, offset);
    ok := done == Some(ENTRY_SIZE);
    if done.Some? && !ok { NeededGrows(old(fs.Disk()), n, offset, done.value + 1, ENTRY_SIZE); }
    assert Splice(c, offset, entry[..0]) == c;
    if done == None {
      assert fs.inodes[n := fs.inodes[n]] == fs.inodes && fs.table[s := fs.table[s]] == fs.table;
    } else if done.value < ENTRY_SIZE {
      EntryIsNotCut(offset, done.value, size);
    } else {
      assert entry[..ENTRY_SIZE] == entry;
    }
  }

  /** An entry lies inside one block, so it is never written in part, and not refused inside the file. */
  lemma EntryIsNotCut(offset: nat, done: nat, size: nat)
    requires done < ENTRY_SIZE && Cut(offset, done, size)
    requires (offset + ENTRY_SIZE <= size && offset % ENTRY_SIZE == 0) || offset == size
    ensures offset == size && (offset % ENTRY_SIZE == 0 ==> done == 0)
  {
  }

  /** Adds the entry (name, inode_number), in a directory of whole entries all of it or nothing.  It is refused for
      a bad name, number or file, for a name that is there already, and when there is no room: no free entry and
      either too few free blocks for one more or a file of maximal length. */
  method Link(fs: State, s: nat, name: Name, inode_number: nat) returns (ok: bool)
    requires Valid(fs) && Live(fs.table, s)
    modifies fs`blocks, fs`inodes, fs`used, fs`owner, fs`table
    ensures Valid(fs) && fs.superblock == old(fs.superblock)
    ensures OnlyFile(fs, old(fs.table[s].number)) && UsedGrows(fs)
    ensures fs.table == old(fs.table)[s := old(fs.table[s]).(disk := fs.inodes[old(fs.table[s].number)])]
    ensures ok <==>
              && Linkable(old(fs.table[s].disk.kind), old(File(fs, fs.table[s].number)), name, inode_number)
              && HasRoom(old(fs.Disk()), old(fs.table[s].number), old(File(fs, fs.table[s].number)))
    ensures TookForEntry(old(fs.Disk()), fs.Disk(), old(fs.table[s].number),
                         LinkOffset(old(File(fs, fs.table[s].number))), ok)
    ensures ok ==>
              && old(fs.table[s].disk.kind) == DIRECTORY && ValidName(name) && 1 <= inode_number <= 0xFFFF
              && File(fs, old(fs.table[s].number)) == WithEntry(old(File(fs, fs.table[s].number)), inode_number, name)
    ensures !ok && old(fs.table[s].disk.size) % ENTRY_SIZE == 0 ==>
              File(fs, old(fs.table[s].number)) == old(File(fs, fs.table[s].number))
    ensures !ok && !Linkable(old(fs.table[s].disk.kind), old(File(fs, fs.table[s].number)), name, inode_number) ==>
              fs.Disk() == old(fs.Disk()) && fs.table == old(fs.table)
    ensures !ok && Linkable(old(fs.table[s].disk.kind), old(File(fs, fs.table[s].number)), name, inode_number) ==>
              NoRoom(old(File(fs, fs.table[s].number)), fs.used)
  {
    assert fs.inodes[fs.table[s].number := fs.inodes[fs.table[s].number]] == fs.inodes;
    assert fs.table[s := fs.table[s]] == fs.table;
    GrownTakesForSlots(fs.Disk(), fs.owner, fs.Disk(), fs.owner, fs.table[s].number);
    var valid := IsValidName(name);
    if fs.table[s].disk.kind != DIRECTORY || !valid {
      return false;
    }
    if inode_number == 0 || inode_number > 0xFFFF {
      return false;
    }
    var found, free := ScanForLink(fs, s, name);
    if found {
      return false;
    }
    ok := WriteEntry(fs, s, EncodeEntry(inode_number, name),
                     if free.Some? then free.value * ENTRY_SIZE else fs.table[s].disk.size);
  }

  /** A free entry, or blocks for one more. */
  ghost predicate HasRoom(d: Image, n: nat, c: seq<byte>) {
    FreeEntry(c, 0).Some? || Fits(d, n, |c|)
  }

  /** No free entry, and the directory cannot grow by one. */
  ghost predicate NoRoom(c: seq<byte>, used: seq<bool>) {
    && FreeEntry(c, 0) == None
    && (|c| + ENTRY_SIZE > MAXFILE * FSBLOCK_SIZE || forall b | 0 <= b < |used| :: used[b])
  }
}
