/** A freshly formatted disk, seen as a tree of directories. */
module NewDisk {
  import opened Bytes
  import opened DiskFormat
  import opened Fsck
  import opened Growth
  import opened FileSystem
  import opened Inodes
  import opened DirectoryFormat
  import opened Directory
  import opened Format
  import opened Path
  import opened Wrappers

  lemma AppendedEntry(c: seq<byte>, inode_number: u16, name: Name)
    requires |name| <= DIRECTORY_NAME_SIZE && FreeEntry(c, 0) == None
    ensures WithEntry(c, inode_number, name) == c + EncodeEntry(inode_number, name)
  {
  }

  lemma TwoEntries(m: u16, first: Name, n: u16, second: Name)
    requires |first| <= DIRECTORY_NAME_SIZE && |second| <= DIRECTORY_NAME_SIZE && m != 0
    ensures WithEntry(WithEntry([], m, first), n, second) == EncodeEntry(m, first) + EncodeEntry(n, second)
  {
    var c := EncodeEntry(m, first);
    AppendedEntry([], m, first);
    assert [] + c == c;
    BytesOfHalf(c, 0, m);
    assert EntryNumber(c, 0) != 0;
    AppendedEntry(c, n, second);
  }

  /** A new root directory is what linking "." and ".." into an empty one makes. */
  lemma RootIsLinked()
    ensures RootContent() == WithEntry(WithEntry([], ROOT_INODE, DOT), ROOT_INODE, DOT_DOT)
  {
    TwoEntries(ROOT_INODE, DOT, ROOT_INODE, DOT_DOT);
  }

  lemma RootEntriesAreOk(k: nat)
    requires LiveAt(RootContent(), k)
    ensures EntryNumber(RootContent(), k) == ROOT_INODE
  {
    RootIsLinked();
    var c := WithEntry([], ROOT_INODE, DOT);
    LinkExtendsMap([], ROOT_INODE, DOT);
    var j := LinkIndex(c);
    EntryAfterLink(c, j, ROOT_INODE, DOT_DOT, k);
    if k != j { EntryAfterLink([], 0, ROOT_INODE, DOT, k); }
  }

  lemma RootLookup(name: Name)
    requires ValidName(name) && NulFree(name)
    ensures var r := Find(RootContent(), name, 0);
      if name == DOT || name == DOT_DOT then r.Some? && r.value.inode_number == ROOT_INODE else r == None
  {
    RootIsLinked();
    var c := WithEntry([], ROOT_INODE, DOT);
    LinkExtendsMap([], ROOT_INODE, DOT);
    LinkExtendsMap(c, ROOT_INODE, DOT_DOT);
    assert Find([], name, 0) == None;
  }

  /** On a freshly formatted disk every entry is meaningful, "." and ".." of the root are the root, and no
      other name is found. */
  lemma FormattedTree(t: Tree, b: u32, name: Name)
    requires t.inodes == EmptyImage(t.blocks).inodes[ROOT_INODE := RootInode(b, 32)]
    requires Content(t.blocks, t.inodes[ROOT_INODE]) == RootContent() && ValidName(name) && NulFree(name)
    ensures NumbersOk(t)
    ensures Walk(t, ROOT_INODE, [name]) == if name == DOT || name == DOT_DOT then Some(ROOT_INODE) else None
  {
    forall k: nat | LiveAt(RootContent(), k) ensures EntryNumber(RootContent(), k) < NUM_INODES {
      RootEntriesAreOk(k);
    }
    RootLookup(name);
    var found := Step(t, ROOT_INODE, name);
    assert Walk(t, ROOT_INODE, [name]) == if found == None then None else Walk(t, found.value.inode_number, []);
  }

  /** Formatting a device that is large enough gives a file system whose paths can be resolved. */
  method MakeFileSystem(fs: State, total_blocks: u32) returns (ok: bool)
    requires total_blocks == |fs.blocks| <= 0xFFFF_F000
    requires |fs.table| == NUM_INODE && forall s | 0 <= s < NUM_INODE :: fs.table[s].refcnt == 0
    modifies fs
    ensures ok <==> DataStart(total_blocks) < total_blocks
    ensures ok ==> Valid(fs) && NumbersOk(TreeOf(fs))
                   && Walk(TreeOf(fs), ROOT_INODE, [DOT_DOT, DOT]) == Some(ROOT_INODE)
  {
    ok := Format.Format(fs, total_blocks);
    if ok {
      FormattedTree(TreeOf(fs), DataStart(total_blocks), DOT);
      FormattedTree(TreeOf(fs), DataStart(total_blocks), DOT_DOT);
      WalkConcat(TreeOf(fs), ROOT_INODE, [DOT_DOT], [DOT]);
      assert [DOT_DOT] + [DOT] == [DOT_DOT, DOT];
    }
  }
}
