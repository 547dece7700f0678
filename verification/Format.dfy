/** Making an empty file system: `format` turns any device content into a sound disk whose root directory
    holds "." and "..". */
module Format {
  import opened Bytes
  import opened DiskFormat
  import opened Fsck
  import opened Growth
  import opened FileSystem
  import opened Inodes
  import opened DirectoryFormat
  import opened Wrappers

  const DOT: Name := [46]
  const DOT_DOT: Name := [46, 46]

  // ----- clearing the metadata

  function EmptyImage(blocks: seq<Block>): Image {
    Image(blocks, seq(NUM_INODES, i => FRESH_INODE), seq(|blocks|, i => false))
  }

  lemma ZeroBitmapIsEmpty(k: nat)
    requires k < 4096
    ensures !BitAt(ZeroedBlock(), k)
  {
    ZeroHasNoBits(k % 8);
  }

  /** Cleared inode and bitmap blocks hold 200 unused inodes and no allocated block. */
  lemma ClearedIsPacked(blocks: seq<Block>)
    requires DataStart(|blocks|) <= |blocks| <= 0xFFFF_FFFF
    requires forall b | INODE_START <= b < DataStart(|blocks|) :: blocks[b] == ZeroedBlock()
    ensures Packed(EmptyImage(blocks))
  {
    var d := EmptyImage(blocks);
    forall n | 0 <= n < NUM_INODES ensures InodeStored(d, n) {
      ZeroBlockHoldsFreshInodes(n % 8);
    }
    forall b | 0 <= b < |blocks| ensures BitStored(d, b) {
      ZeroBitmapIsEmpty(b % 4096);
    }
  }

  /** The first two loops of `format`: clear the inode and bitmap blocks, then reserve all metadata blocks. */
  method ClearMetadata(fs: State) returns (ok: bool)
    requires |fs.blocks| <= 0xFFFF_F000 && fs.superblock.inode_start == INODE_START
             && fs.superblock.bitmap_start == BITMAP_START
    modifies fs`blocks, fs`inodes, fs`used
    ensures |fs.blocks| == old(|fs.blocks|) && (ok <==> DataStart(|fs.blocks|) <= |fs.blocks|)
    ensures forall c | 0 <= c < INODE_START && c < |fs.blocks| :: fs.blocks[c] == old(fs.blocks)[c]
    ensures ok ==>
              && Packed(fs.Disk())
              && fs.inodes == EmptyImage(fs.blocks).inodes
              && forall b | 0 <= b < |fs.blocks| :: fs.used[b] <==> b < DataStart(|fs.blocks|)
  {
    var data_start := DataStart(|fs.blocks|);
    var b := fs.superblock.inode_start;
    while b < data_start
      invariant INODE_START <= b <= data_start && |fs.blocks| == old(|fs.blocks|)
      invariant b == INODE_START || b <= |fs.blocks|
      invariant forall c | 0 <= c < INODE_START && c < |fs.blocks| :: fs.blocks[c] == old(fs.blocks)[c]
      invariant forall c | INODE_START <= c < b && c < |fs.blocks| :: fs.blocks[c] == ZeroedBlock()
    {
      var zeroed := fs.ZeroBlock(b);
      if !zeroed {
        return false;
      }
      b := b + 1;
    }
    fs.inodes, fs.used := EmptyImage(fs.blocks).inodes, EmptyImage(fs.blocks).used;
    ClearedIsPacked(fs.blocks);
    b := 0;
    while b < data_start
      invariant 0 <= b <= data_start && |fs.blocks| == old(|fs.blocks|) && Packed(fs.Disk())
      invariant forall c | 0 <= c < INODE_START && c < |fs.blocks| :: fs.blocks[c] == old(fs.blocks)[c]
      invariant fs.inodes == EmptyImage(fs.blocks).inodes
      invariant forall c | 0 <= c < |fs.blocks| :: fs.used[c] <==> c < b
    {
      fs.MarkBlockUsed(b);
      b := b + 1;
    }
    return true;
  }

  // ----- the root directory

  /** Adds an entry to the root directory under construction, whose only block is taken on first use. */
  method AddRootEntry(fs: State, root: DiskInode, inode_number: u16, name: Name) returns (ok: bool, root': DiskInode)
    requires fs.Mounted() && |name| <= DIRECTORY_NAME_SIZE && root.size <= 0xFFFF
    requires root.addrs[0] != 0 ==> DataStart(|fs.blocks|) <= root.addrs[0] < |fs.blocks| && fs.used[root.addrs[0]]
    modifies fs`blocks, fs`used
    ensures fs.Mounted() && |fs.blocks| == old(|fs.blocks|)
    ensures root.addrs[0] != 0 ==> fs.used == old(fs.used)
    ensures var block := if root.addrs[0] == 0 then ZeroedBlock() else old(fs.blocks)[root.addrs[0]];
      && (ok <==> (root.addrs[0] == 0 ==> exists b :: 0 <= b < |fs.blocks| && !old(fs.used)[b])
                  && FreeEntry(block, 0).Some?)
      && (ok ==>
            && root' == root.(size := root.size + ENTRY_SIZE, addrs := root.addrs[0 := root'.addrs[0]])
            && DataStart(|fs.blocks|) <= root'.addrs[0] < |fs.blocks|
            && (if root.addrs[0] != 0 then root'.addrs[0] == root.addrs[0]
                else !old(fs.used)[root'.addrs[0]] && (forall c | 0 <= c < root'.addrs[0] :: old(fs.used)[c])
                     && fs.used == old(fs.used)[root'.addrs[0] := true])
            && fs.blocks[root'.addrs[0]] ==
               Patch(block, FreeEntry(block, 0).value * ENTRY_SIZE, EncodeEntry(inode_number, name)))
  {
    root' := root;
    if root.addrs[0] == 0 {
      var block_number := fs.AllocateBlock();
      if block_number == None {
        return false, root;
      }
      root' := root'.(addrs := root'.addrs[0 := block_number.value]);
    }
    var b := root'.addrs[0];
    var block := fs.blocks[b];
    var i := 0;
    while i < FSBLOCK_SIZE / ENTRY_SIZE
      invariant 0 <= i <= FSBLOCK_SIZE / ENTRY_SIZE
      invariant FreeEntry(block, 0) == FreeEntry(block, i)
    {
      if EntryNumber(block, i) == 0 {
        PackedAfterDataWrite(fs.Disk(), b, Patch(block, i * ENTRY_SIZE, EncodeEntry(inode_number, name)));
        ghost var blocks := fs.blocks;
        fs.blocks := fs.blocks[b := Patch(block, i * ENTRY_SIZE, EncodeEntry(inode_number, name))];
        HeaderSurvives(fs.superblock, fs.header, blocks, fs.blocks);
        root' := root'.(size := root'.size + ENTRY_SIZE);
        return true, root';
      }
      i := i + 1;
    }
    return false, root';
  }

  // ----- the whole of format

  function RootInode(b: u32, size: u32): DiskInode {
    DiskInode(DIRECTORY, 0, 0, 1, size, NO_ADDRS[0 := b])
  }

  function RootContent(): seq<byte> {
    EncodeEntry(ROOT_INODE, DOT) + EncodeEntry(ROOT_INODE, DOT_DOT)
  }

  lemma FirstRootEntry()
    ensures FreeEntry(ZeroedBlock(), 0) == Some(0)
  {
  }

  lemma SecondRootEntry(block: Block)
    requires block == Patch(ZeroedBlock(), 0, EncodeEntry(ROOT_INODE, DOT))
    ensures FreeEntry(block, 0) == Some(1)
  {
    assert EntryNumber(block, 0) == ROOT_INODE && EntryNumber(block, 1) == 0;
    assert FreeEntry(block, 1) == Some(1);
  }

  /** A disk whose only inode in use is the root, and whose only block in use beyond the metadata is the
      first block of the root. */
  lemma FormattedIsSound(d: Image, b: nat)
    requires Shape(d) && b == DataStart(|d.blocks|) < |d.blocks|
    requires d.inodes == EmptyImage(d.blocks).inodes[ROOT_INODE := RootInode(b, 32)]
    requires forall c | 0 <= c < |d.blocks| :: d.used[c] <==> c <= b
    ensures Sound(d, map[b := Ref(ROOT_INODE, 0)])
  {
    var owner := map[b := Ref(ROOT_INODE, 0)];
    forall n, q | 0 <= n < NUM_INODES && 0 <= q <= INDIRECT_SLOT
      ensures RefOf(d.blocks, d.inodes[n], q) == if n == ROOT_INODE && q == 0 then b else 0
    {
    }
    forall n, q | 0 <= n < NUM_INODES && 0 <= q <= INDIRECT_SLOT ensures RefOk(d, owner, n, q) {
    }
    forall c: nat ensures BlockOk(d, owner, c) {
    }
    forall n | 0 <= n < NUM_INODES ensures SizeOk(d, n) {
    }
  }

  lemma RootHoldsItsEntries(blocks: seq<Block>, b: u32)
    requires 0 < b < |blocks|
    requires blocks[b] == Patch(Patch(ZeroedBlock(), 0, EncodeEntry(ROOT_INODE, DOT)), 16,
                                EncodeEntry(ROOT_INODE, DOT_DOT))
    ensures Content(blocks, RootInode(b, 32)) == RootContent()
  {
    ContentAt(blocks, RootInode(b, 32));
    forall i | 0 <= i < 32 ensures Content(blocks, RootInode(b, 32))[i] == RootContent()[i] {
      assert Content(blocks, RootInode(b, 32))[i] == ByteAt(blocks, RootInode(b, 32), i) == blocks[b][i];
    }
  }

  method WriteSuperblock(fs: State)
    requires Packed(fs.Disk())
    modifies fs`blocks, fs`header
    ensures Packed(fs.Disk())
    ensures fs.blocks == old(fs.blocks)[1 := SuperImage(fs.superblock)]
    ensures HeaderOk(fs.superblock, fs.header, fs.blocks) && fs.header == [fs.blocks[0], SuperImage(fs.superblock)]
  {
    ghost var d := fs.Disk();
    fs.blocks := fs.blocks[1 := SuperImage(fs.superblock)];
    fs.header := fs.blocks[..2];
    InodesSurvive(d, fs.Disk());
    BitsSurvive(d, fs.Disk());
    LoadStoredSuper(fs.superblock);
    forall b | 0 <= b < INODE_START ensures HeaderStored(fs.superblock, fs.header, fs.blocks, b) {
    }
  }

  /** The last part of `format`: the two entries of the root directory, then its inode. */
  method MakeRoot(fs: State) returns (ok: bool)
    requires fs.Mounted()
    requires fs.inodes == EmptyImage(fs.blocks).inodes
    requires forall b | 0 <= b < |fs.blocks| :: fs.used[b] <==> b < DataStart(|fs.blocks|)
    modifies fs`blocks, fs`used, fs`inodes, fs`owner
    ensures |fs.blocks| == old(|fs.blocks|) && (ok <==> DataStart(|fs.blocks|) < |fs.blocks|)
    ensures ok ==>
              && fs.Mounted() && Sound(fs.Disk(), fs.owner)
              && fs.inodes == old(fs.inodes)[ROOT_INODE := RootInode(DataStart(|fs.blocks|), 32)]
              && File(fs, ROOT_INODE) == RootContent()
              && forall b | 0 <= b < |fs.blocks| :: fs.used[b] <==> b <= DataStart(|fs.blocks|)
  {
    FirstRootEntry();
    ghost var first := DataStart(|fs.blocks|);
    var root := DiskInode(DIRECTORY, 0, 0, 1, 0, NO_ADDRS);
    assert first < |fs.blocks| ==> !fs.used[first];
    ok, root := AddRootEntry(fs, root, ROOT_INODE, DOT);
    if !ok {
      return false;
    }
    SecondRootEntry(fs.blocks[root.addrs[0]]);
    ok, root := AddRootEntry(fs, root, ROOT_INODE, DOT_DOT);
    if !ok {
      assert false;
    }
    assert root == RootInode(first, 32);
    fs.WriteDiskInode(ROOT_INODE, root);
    fs.owner := map[first := Ref(ROOT_INODE, 0)];
    FormattedIsSound(fs.Disk(), first);
    RootHoldsItsEntries(fs.blocks, first);
  }

  /** Formatting succeeds exactly when there is room for at least one data block, whatever the device held,
      and then leaves a sound disk with one directory in it. */
  method Format(fs: State, total_blocks: u32) returns (ok: bool)
    requires total_blocks == |fs.blocks| <= 0xFFFF_F000
    requires |fs.table| == NUM_INODE && forall s | 0 <= s < NUM_INODE :: fs.table[s].refcnt == 0
    modifies fs
    ensures ok <==> DataStart(total_blocks) < total_blocks
    ensures ok ==>
              && Valid(fs) && fs.table == old(fs.table)
              && |fs.blocks| == total_blocks
              && fs.inodes == EmptyImage(fs.blocks).inodes[ROOT_INODE := RootInode(DataStart(total_blocks), 32)]
              && File(fs, ROOT_INODE) == RootContent()
    ensures ok ==> fs.blocks[0] == old(fs.blocks)[0]
    ensures ok ==>
              && fs.inodes[1].kind == DIRECTORY && fs.inodes[1].nlink == 1 && fs.inodes[1].size == 32
              && (forall n | 0 <= n < NUM_INODES && n != 1 :: fs.inodes[n] == DiskInode(UNUSED, 0, 0, 0, 0, NO_ADDRS))
              && forall b | 0 <= b < |fs.blocks| :: fs.used[b] <==> b <= DataStart(total_blocks)
  {
    var data_start := DataStart(total_blocks);
    fs.superblock := SuperBlock(FS_MAGIC, total_blocks, (total_blocks - data_start) % 0x1_0000_0000, NUM_INODES,
                                INODE_START, BITMAP_START);
    ok := ClearMetadata(fs);
    if !ok {
      return false;
    }
    WriteSuperblock(fs);
    assert fs.Mounted();
    ok := MakeRoot(fs);
    if ok { assert HeaderStored(fs.superblock, fs.header, fs.blocks, 0); }
  }
}
