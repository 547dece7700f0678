/** The state of the file system and the operations on its metadata blocks.

    `blocks` is the block store; `acquire` of a block is a read of `blocks[b]` and `write_back` stores
    the changed bytes.  A store that reports no errors and behaves as one array of blocks is what the
    buffer cache of module `BufferCache` provides. */
module FileSystem {
  import opened Bytes
  import opened DiskFormat
  import opened Fsck
  import opened Wrappers

  /** A slot of the in-memory inode table; free when `refcnt` is 0. */
  datatype Inode = Inode(number: nat, refcnt: nat, valid: bool, disk: DiskInode)

  function SuperFor(size: u32): SuperBlock
  {
    SuperBlock(FS_MAGIC, size, (size - DataStart(size)) % 0x1_0000_0000, NUM_INODES, INODE_START, BITMAP_START)
  }

  /** The bits of one bitmap block are those of the 4096 disk blocks from `base` on. */
  lemma BitsOfGroup(d: Image, base: nat)
    requires Packed(d) && base % 4096 == 0 && base < |d.blocks|
    ensures forall b | base <= b < base + 4096 && b < |d.blocks| ::
              d.used[b] <==> BitAt(d.blocks[BITMAP_START + base / 4096], b - base)
  {
    forall b | base <= b < base + 4096 && b < |d.blocks|
      ensures d.used[b] <==> BitAt(d.blocks[BITMAP_START + base / 4096], b - base)
    {
      assert BitStored(d, b);
      assert b / 4096 == base / 4096 && b % 4096 == b - base;
    }
  }

  /** The scan of one bitmap block: the first clear bit below `limit`, or `limit` when there is none. */
  method FirstClearBit(bitmap: Block, limit: nat) returns (offset: nat)
    requires limit <= BLOCKS_PER_BITMAP_BLOCK
    ensures offset <= limit
    ensures forall i | 0 <= i < offset :: BitAt(bitmap, i)
    ensures offset < limit ==> !BitAt(bitmap, offset)
  {
    offset := 0;
    while offset < limit && BitAt(bitmap, offset)
      invariant offset <= limit
      invariant forall i | 0 <= i < offset :: BitAt(bitmap, i)
    {
      offset := offset + 1;
    }
  }

  class State {
    var superblock: SuperBlock
    var blocks: seq<Block>
    var table: seq<Inode>

    // What the metadata blocks hold, and which slot each used data block belongs to.
    ghost var inodes: seq<DiskInode>
    ghost var used: seq<bool>
    ghost var owner: Owner

    // The boot block and the block of the superblock, which no operation on a formatted disk writes.
    ghost var header: seq<Block>

    ghost function Disk(): Image
      reads this
    {
      Image(blocks, inodes, used)
    }

    /** The metadata blocks can be read and written: the layout is known and boot, super, inode and
        bitmap blocks are reserved. */
    ghost predicate Mounted()
      reads this
    {
      && Packed(Disk())
      && superblock == SuperFor(|blocks|)
      && HeaderOk(superblock, header, blocks)
      && forall b | 0 <= b < DataStart(|blocks|) :: used[b]
    }

    /** What `get_disk_inode` finds under a number: the inode, or, for a number behind the inode area, whatever
        the block there happens to hold. */
    ghost function DiskInodeAt(n: nat): Option<DiskInode>
      reads this
    {
      var at := INODE_START + n / INODES_PER_BLOCK;
      if n < |inodes| then Some(inodes[n])
      else if at < |blocks| then Some(LoadInode(blocks[at], n % INODES_PER_BLOCK))
      else None
    }

    method GetDiskInode(n: nat) returns (ino: Option<DiskInode>)
      requires Mounted()
      ensures ino == DiskInodeAt(n)
    {
      var at := superblock.inode_start + n / INODES_PER_BLOCK;
      if at >= |blocks| {
        return None;
      }
      ino := Some(LoadInode(blocks[at], n % INODES_PER_BLOCK));
      if n < NUM_INODES { assert InodeStored(Disk(), n); }
    }

    method WriteDiskInode(n: nat, ino: DiskInode)
      requires Mounted() && n < NUM_INODES
      modifies this`blocks, this`inodes
      ensures Mounted()
      ensures inodes == old(inodes)[n := ino]
      ensures |blocks| == old(|blocks|)
      ensures forall b | DataStart(|blocks|) <= b < |blocks| :: blocks[b] == old(blocks)[b]
    {
      PackedAfterInodeWrite(Disk(), n, ino);
      var at := superblock.inode_start + n / INODES_PER_BLOCK;
      blocks := blocks[at := StoreInode(blocks[at], n % INODES_PER_BLOCK, ino)];
      inodes := inodes[n := ino];
      HeaderSurvives(superblock, header, old(blocks), blocks);
    }

    /** Fills a block with zeros; refused when the device has no such block. */
    method ZeroBlock(b: nat) returns (ok: bool)
      modifies this`blocks
      ensures ok <==> b < |old(blocks)|
      ensures blocks == if ok then old(blocks)[b := ZeroedBlock()] else old(blocks)
    {
      ok := b < |blocks|;
      if ok {
        blocks := blocks[b := ZeroedBlock()];
      }
    }

    method MarkBlockUsed(b: nat)
      requires Packed(Disk()) && superblock.bitmap_start == BITMAP_START && b < |blocks|
      modifies this`blocks, this`used
      ensures Packed(Disk()) && |blocks| == old(|blocks|) && used == old(used)[b := true]
      ensures blocks[0] == old(blocks)[0] && blocks[1] == old(blocks)[1]
      ensures forall c | DataStart(|blocks|) <= c < |blocks| :: blocks[c] == old(blocks)[c]
    {
      PackedAfterBitWrite(Disk(), b, true);
      var at := superblock.bitmap_start + b / BLOCKS_PER_BITMAP_BLOCK;
      var bitmap := blocks[at];
      var bit := b % BLOCKS_PER_BITMAP_BLOCK;
      blocks := blocks[at := BitmapAfter(bitmap, bit, true)];
      used := used[b := true];
    }

    /** The two writes that end a successful scan: mark the block, then clear it. */
    method TakeBlock(b: nat)
      requires Mounted() && DataStart(|blocks|) <= b < |blocks|
      modifies this`blocks, this`used
      ensures Mounted() && |blocks| == old(|blocks|) && used == old(used)[b := true]
      ensures blocks[b] == ZeroedBlock()
      ensures forall c | DataStart(|blocks|) <= c < |blocks| && c != b :: blocks[c] == old(blocks)[c]
    {
      MarkBlockUsed(b);
      PackedAfterDataWrite(Disk(), b, ZeroedBlock());
      var ok := ZeroBlock(b);
      HeaderSurvives(superblock, header, old(blocks), blocks);
    }

    /** The first free block among the 4096 whose bits share one bitmap block; when there is none, the end
        of the group or of the disk. */
    method ScanGroup(base: nat) returns (b: nat)
      requires Mounted() && base % BLOCKS_PER_BITMAP_BLOCK == 0 && base < |blocks|
      ensures base <= b <= |blocks| && b <= base + BLOCKS_PER_BITMAP_BLOCK
      ensures forall c | base <= c < b :: used[c]
      ensures b < |blocks| && b < base + BLOCKS_PER_BITMAP_BLOCK ==> !used[b]
    {
      var bitmap := blocks[superblock.bitmap_start + base / BLOCKS_PER_BITMAP_BLOCK];
      var limit := if superblock.size - base < BLOCKS_PER_BITMAP_BLOCK then superblock.size - base
                   else BLOCKS_PER_BITMAP_BLOCK;
      var offset := FirstClearBit(bitmap, limit);
      BitsOfGroup(Disk(), base);
      b := base + offset;
    }

    /** Takes the lowest free block, marks it used and clears it.  Fails exactly when the bitmap is full. */
    method AllocateBlock() returns (r: Option<nat>)
      requires Mounted()
      modifies this`blocks, this`used
      ensures Mounted()
      ensures r.None? ==> blocks == old(blocks) && used == old(used) && forall b | 0 <= b < |used| :: used[b]
      ensures r.Some? ==>
                && DataStart(|blocks|) <= r.value < |blocks| == old(|blocks|)
                && !old(used)[r.value] && (forall b | 0 <= b < r.value :: old(used)[b])
                && used == old(used)[r.value := true]
                && blocks[r.value] == ZeroedBlock()
                && forall b | DataStart(|blocks|) <= b < |blocks| && b != r.value :: blocks[b] == old(blocks)[b]
    {
      var base := 0;
      while base < superblock.size
        invariant blocks == old(blocks) && used == old(used)
        invariant base % BLOCKS_PER_BITMAP_BLOCK == 0
        invariant forall b | 0 <= b < base && b < |used| :: used[b]
      {
        var b := ScanGroup(base);
        if b < superblock.size && b < base + BLOCKS_PER_BITMAP_BLOCK {
          TakeBlock(b);
          return Some(b);
        }
        base := base + BLOCKS_PER_BITMAP_BLOCK;
      }
      return None;
    }

    method FreeBlock(b: nat)
      requires Mounted() && DataStart(|blocks|) <= b < |blocks|
      modifies this`blocks, this`used
      ensures Mounted()
      ensures |blocks| == old(|blocks|) && used == old(used)[b := false]
      ensures forall c | DataStart(|blocks|) <= c < |blocks| :: blocks[c] == old(blocks)[c]
    {
      PackedAfterBitWrite(Disk(), b, false);
      var at := superblock.bitmap_start + b / BLOCKS_PER_BITMAP_BLOCK;
      var bitmap := blocks[at];
      var bit := b % BLOCKS_PER_BITMAP_BLOCK;
      blocks := blocks[at := BitmapAfter(bitmap, bit, false)];
      used := used[b := false];
      HeaderSurvives(superblock, header, old(blocks), blocks);
    }
  }
}
