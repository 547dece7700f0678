/** The on-disk format: 512-byte blocks, eight 64-byte inodes to a block, 128 block numbers to an
    indirect block, 4096 bitmap bits to a bitmap block, and the superblock in block 1. */
module DiskFormat {
  import opened Bytes

  const FSBLOCK_SIZE := 512
  const NDIRECT := 12
  const INDIRECT_INDEX := 12
  const NINDIRECT := 128
  const MAXFILE := 140
  const INODES_PER_BLOCK := 8
  const BLOCKS_PER_BITMAP_BLOCK := 4096
  const NUM_INODES := 200
  const FS_MAGIC := 0x10203040
  const ROOT_INODE := 1
  const INODE_START := 2
  const BITMAP_START := 27

  type Block = b: seq<byte> | |b| == 512 witness seq(512, _ => 0)

  function ZeroedBlock(): (b: Block)
    ensures forall i | 0 <= i < 512 :: b[i] == 0
  {
    seq(512, _ => 0)
  }

  // InodeType is an enum over uint16_t: every 16-bit value is a legal one.
  const UNUSED: u16 := 0
  const DIRECTORY: u16 := 1
  const REGULAR: u16 := 2

  type Addrs = a: seq<u32> | |a| == 13 witness seq(13, _ => 0)

  const NO_ADDRS: Addrs := [0, 0, 0, 0, 0, 0, 0, 0, 0, 0, 0, 0, 0]

  datatype DiskInode = DiskInode(kind: u16, major: u16, minor: u16, nlink: u16, size: u32, addrs: Addrs)

  const FRESH_INODE := DiskInode(UNUSED, 0, 0, 0, 0, NO_ADDRS)

  datatype SuperBlock = SuperBlock(magic: u32, size: u32, nblocks: u32, ninodes: u32,
                                   inode_start: u32, bitmap_start: u32)

  // ----- inodes packed eight to a block

  type InodeImage = p: seq<byte> | |p| == 64 witness seq(64, _ => 0)

  /** Byte `i` of the 64-byte form of an inode. */
  function InodeByte(ino: DiskInode, i: nat): byte
    requires i < 64
  {
    if i < 2 then ByteOf(ino.kind, i)
    else if i < 4 then ByteOf(ino.major, i - 2)
    else if i < 6 then ByteOf(ino.minor, i - 4)
    else if i < 8 then ByteOf(ino.nlink, i - 6)
    else if i < 12 then ByteOf(ino.size, i - 8)
    else ByteOf(ino.addrs[(i - 12) / 4], (i - 12) % 4)
  }

  function EncodeInode(ino: DiskInode): (p: InodeImage) {
    seq(64, i requires 0 <= i < 64 => InodeByte(ino, i))
  }

  function DecodeInode(p: InodeImage): DiskInode {
    DiskInode(U16(p, 0), U16(p, 2), U16(p, 4), U16(p, 6), U32(p, 8),
              seq(13, j requires 0 <= j < 13 => U32(p, 12 + 4 * j)))
  }

  lemma DecodeEncodedAddr(ino: DiskInode, j: nat)
    requires j < 13
    ensures U32(EncodeInode(ino), 12 + 4 * j) == ino.addrs[j]
  {
    var p := EncodeInode(ino);
    forall i | 0 <= i < 4 ensures p[12 + 4 * j + i] == ByteOf(ino.addrs[j], i) {
      assert (4 * j + i) / 4 == j && (4 * j + i) % 4 == i;
    }
    BytesOfWord(p, 12 + 4 * j, ino.addrs[j]);
  }

  lemma DecodeEncodedInode(ino: DiskInode)
    ensures DecodeInode(EncodeInode(ino)) == ino
  {
    var p := EncodeInode(ino);
    BytesOfHalf(p, 0, ino.kind);
    BytesOfHalf(p, 2, ino.major);
    BytesOfHalf(p, 4, ino.minor);
    BytesOfHalf(p, 6, ino.nlink);
    BytesOfWord(p, 8, ino.size);
    forall j | 0 <= j < 13 ensures DecodeInode(p).addrs[j] == ino.addrs[j] {
      DecodeEncodedAddr(ino, j);
    }
    assert DecodeInode(p).addrs == ino.addrs;
  }

  function LoadInode(b: Block, k: nat): DiskInode
    requires k < 8
  {
    DecodeInode(b[64 * k..64 * k + 64])
  }

  function StoreInode(b: Block, k: nat, ino: DiskInode): Block
    requires k < 8
  {
    b[..64 * k] + EncodeInode(ino) + b[64 * k + 64..]
  }

  /** Storing an inode in its place and loading that place gives the inode back; the other seven
      inodes of the block are untouched. */
  lemma LoadStoredInode(b: Block, k: nat, ino: DiskInode)
    requires k < 8
    ensures LoadInode(StoreInode(b, k, ino), k) == ino
    ensures forall j | 0 <= j < 8 && j != k :: LoadInode(StoreInode(b, k, ino), j) == LoadInode(b, j)
  {
    var s := StoreInode(b, k, ino);
    assert s[64 * k..64 * k + 64] == EncodeInode(ino);
    DecodeEncodedInode(ino);
    forall j | 0 <= j < 8 && j != k ensures LoadInode(s, j) == LoadInode(b, j) {
      assert s[64 * j..64 * j + 64] == b[64 * j..64 * j + 64];
    }
  }

  /** Where the fields of an inode stand in its block. */
  lemma InodeLayout(b: Block, k: nat)
    requires k < 8
    ensures var ino, at := LoadInode(b, k), 64 * k;
      && ino.kind == U16(b, at) && ino.major == U16(b, at + 2) && ino.minor == U16(b, at + 4)
      && ino.nlink == U16(b, at + 6) && ino.size == U32(b, at + 8)
      && forall j | 0 <= j < 13 :: ino.addrs[j] == U32(b, at + 12 + 4 * j)
  {
  }

  lemma ZeroBlockHoldsFreshInodes(k: nat)
    requires k < 8
    ensures LoadInode(ZeroedBlock(), k) == FRESH_INODE
  {
    assert LoadInode(ZeroedBlock(), k).addrs == NO_ADDRS;
  }

  // ----- tables of block numbers

  function TableEntry(b: Block, i: nat): u32
    requires i < 128
  {
    U32(b, 4 * i)
  }

  function PutTableEntry(b: Block, i: nat, w: u32): Block
    requires i < 128
  {
    b[..4 * i] + [ByteOf(w, 0), ByteOf(w, 1), ByteOf(w, 2), ByteOf(w, 3)] + b[4 * i + 4..]
  }

  lemma TableEntryAfterPut(b: Block, i: nat, w: u32)
    requires i < 128
    ensures TableEntry(PutTableEntry(b, i, w), i) == w
    ensures forall j | 0 <= j < 128 && j != i :: TableEntry(PutTableEntry(b, i, w), j) == TableEntry(b, j)
  {
    BytesOfWord(PutTableEntry(b, i, w), 4 * i, w);
  }

  // ----- the superblock

  function SuperByte(sb: SuperBlock, i: nat): byte
    requires i < 24
  {
    if i < 4 then ByteOf(sb.magic, i)
    else if i < 8 then ByteOf(sb.size, i - 4)
    else if i < 12 then ByteOf(sb.nblocks, i - 8)
    else if i < 16 then ByteOf(sb.ninodes, i - 12)
    else if i < 20 then ByteOf(sb.inode_start, i - 16)
    else ByteOf(sb.bitmap_start, i - 20)
  }

  function LoadSuper(b: Block): SuperBlock {
    SuperBlock(U32(b, 0), U32(b, 4), U32(b, 8), U32(b, 12), U32(b, 16), U32(b, 20))
  }

  /** The block that `format` writes: the superblock followed by zeros. */
  function SuperImage(sb: SuperBlock): Block {
    seq(512, i requires 0 <= i < 512 => if i < 24 then SuperByte(sb, i) else 0)
  }

  lemma LoadStoredSuper(sb: SuperBlock)
    ensures LoadSuper(SuperImage(sb)) == sb
  {
    var b := SuperImage(sb);
    BytesOfWord(b, 0, sb.magic);
    BytesOfWord(b, 4, sb.size);
    BytesOfWord(b, 8, sb.nblocks);
    BytesOfWord(b, 12, sb.ninodes);
    BytesOfWord(b, 16, sb.inode_start);
    BytesOfWord(b, 20, sb.bitmap_start);
  }
}
