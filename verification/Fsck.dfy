/** What the bytes of the disk mean, and the whole-disk invariant.

    An `Image` holds the raw blocks next to what is packed into the metadata blocks: the inodes and
    the allocation bits.  `Packed` says that the blocks really hold them.  Its two clauses go through
    `InodeStored` and `BitStored`, so that reasoning about files never looks at the byte encoding. */
module Fsck {
  import opened Bytes
  import opened DiskFormat

  datatype Image = Image(blocks: seq<Block>, inodes: seq<DiskInode>, used: seq<bool>)

  /** The first data block of a disk of `size` blocks: boot, super, 25 inode blocks, then the bitmap. */
  function DataStart(size: nat): nat {
    BITMAP_START + (size + BLOCKS_PER_BITMAP_BLOCK - 1) / BLOCKS_PER_BITMAP_BLOCK
  }

  predicate InodeStored(d: Image, n: nat)
    requires n < |d.inodes| && INODE_START + n / 8 < |d.blocks|
  {
    d.inodes[n] == LoadInode(d.blocks[INODE_START + n / 8], n % 8)
  }

  predicate BitStored(d: Image, b: nat)
    requires b < |d.used| && BITMAP_START + b / 4096 < |d.blocks|
  {
    d.used[b] <==> BitAt(d.blocks[BITMAP_START + b / 4096], b % 4096)
  }

  ghost predicate Shape(d: Image) {
    && |d.inodes| == NUM_INODES
    && |d.used| == |d.blocks| <= 0xFFFF_FFFF
    && DataStart(|d.blocks|) <= |d.blocks|
  }

  ghost predicate Packed(d: Image) {
    && Shape(d)
    && (forall n | 0 <= n < NUM_INODES :: InodeStored(d, n))
    && (forall b | 0 <= b < |d.blocks| :: BitStored(d, b))
  }

  /** Where the metadata stand on the disk, byte for byte: inode `n` at byte 64 * (n % 8) of block 2 + n / 8 ... */
  lemma InodesStandAt(d: Image, n: nat)
    requires Packed(d) && n < NUM_INODES
    ensures var block, at := d.blocks[2 + n / 8], 64 * (n % 8);
      && d.inodes[n].kind == U16(block, at) && d.inodes[n].major == U16(block, at + 2)
      && d.inodes[n].minor == U16(block, at + 4) && d.inodes[n].nlink == U16(block, at + 6)
      && d.inodes[n].size == U32(block, at + 8)
      && forall j | 0 <= j < 13 :: d.inodes[n].addrs[j] == U32(block, at + 12 + 4 * j)
  {
    assert InodeStored(d, n);
    InodeLayout(d.blocks[2 + n / 8], n % 8);
  }

  /** ... and the bit of block `b` in the bitmap from block 27 on, the lowest bit of a byte first. */
  lemma BitsStandAt(d: Image, b: nat)
    requires Packed(d) && b < |d.blocks|
    ensures d.used[b] <==> d.blocks[27 + b / 4096][b % 4096 / 8] / Pow2(b % 8) % 2 == 1
  {
    assert BitStored(d, b);
    BitIsDigit(d.blocks[27 + b / 4096][b % 4096 / 8], b % 8);
    var r := b % 4096;
    assert b == (512 * (b / 4096) + r / 8) * 8 + r % 8;
    QuotientIs(b, 8, 512 * (b / 4096) + r / 8, r % 8);
  }

  predicate HeaderStored(super: SuperBlock, header: seq<Block>, blocks: seq<Block>, b: nat)
    requires b < |blocks|
  {
    (b < |header| ==> blocks[b] == header[b]) && (b == 1 ==> LoadSuper(blocks[b]) == super)
  }

  /** The boot block and block 1 are as they have been since formatting, and block 1 holds the superblock, so that the
      disk can be mounted again. */
  ghost predicate HeaderOk(super: SuperBlock, header: seq<Block>, blocks: seq<Block>) {
    INODE_START == |header| <= |blocks| && forall b | 0 <= b < INODE_START :: HeaderStored(super, header, blocks, b)
  }

  lemma HeaderSurvives(super: SuperBlock, header: seq<Block>, blocks: seq<Block>, blocks': seq<Block>)
    requires HeaderOk(super, header, blocks) && |blocks'| == |blocks|
    requires blocks'[0] == blocks[0] && blocks'[1] == blocks[1]
    ensures HeaderOk(super, header, blocks')
  {
    forall b | 0 <= b < INODE_START ensures HeaderStored(super, header, blocks', b) {
      assert HeaderStored(super, header, blocks, b);
    }
  }

  /** Inodes are read from the inode blocks only, bits from the bitmap blocks only. */
  lemma InodesSurvive(d: Image, e: Image)
    requires Packed(d) && |e.blocks| == |d.blocks| && e.inodes == d.inodes
    requires forall b | INODE_START <= b < BITMAP_START :: e.blocks[b] == d.blocks[b]
    ensures forall n | 0 <= n < NUM_INODES :: InodeStored(e, n)
  {
    forall n | 0 <= n < NUM_INODES ensures InodeStored(e, n) {
      assert InodeStored(d, n);
    }
  }

  lemma BitsSurvive(d: Image, e: Image)
    requires Packed(d) && |e.blocks| == |d.blocks| && e.used == d.used
    requires forall b | BITMAP_START <= b < DataStart(|d.blocks|) :: e.blocks[b] == d.blocks[b]
    ensures forall b | 0 <= b < |d.blocks| :: BitStored(e, b)
  {
    forall b | 0 <= b < |d.blocks| ensures BitStored(e, b) {
      assert BitStored(d, b);
    }
  }

  lemma PackedAfterDataWrite(d: Image, b: nat, data: Block)
    requires Packed(d) && DataStart(|d.blocks|) <= b < |d.blocks|
    ensures Packed(d.(blocks := d.blocks[b := data]))
  {
    var e := d.(blocks := d.blocks[b := data]);
    InodesSurvive(d, e);
    BitsSurvive(d, e);
  }

  lemma InodeStoredAfterWrite(d: Image, e: Image, n: nat, m: nat, ino: DiskInode)
    requires Packed(d) && n < NUM_INODES && m < NUM_INODES
    requires var at := INODE_START + n / 8;
      && e.blocks == d.blocks[at := StoreInode(d.blocks[at], n % 8, ino)]
      && e.inodes == d.inodes[n := ino]
    ensures InodeStored(e, m)
  {
    var at := INODE_START + n / 8;
    assert InodeStored(d, m);
    if m / 8 == n / 8 {
      LoadStoredInode(d.blocks[at], n % 8, ino);
      if m % 8 == n % 8 { assert m == n; }
    }
  }

  lemma PackedAfterInodeWrite(d: Image, n: nat, ino: DiskInode)
    requires Packed(d) && n < NUM_INODES
    ensures var at := INODE_START + n / 8;
      Packed(d.(blocks := d.blocks[at := StoreInode(d.blocks[at], n % 8, ino)], inodes := d.inodes[n := ino]))
  {
    var at := INODE_START + n / 8;
    var e := d.(blocks := d.blocks[at := StoreInode(d.blocks[at], n % 8, ino)], inodes := d.inodes[n := ino]);
    forall m | 0 <= m < NUM_INODES ensures InodeStored(e, m) {
      InodeStoredAfterWrite(d, e, n, m, ino);
    }
    BitsSurvive(d, e);
  }

  function BitmapAfter(bitmap: Block, k: nat, on: bool): (r: Block)
    requires k < 4096
    ensures forall j | 0 <= j < 4096 :: BitAt(r, j) <==> if j == k then on else BitAt(bitmap, j)
  {
    if on then WithBit(bitmap, k) else WithoutBit(bitmap, k)
  }

  lemma BitStoredAfterWrite(d: Image, e: Image, b: nat, c: nat, on: bool)
    requires Packed(d) && b < |d.blocks| && c < |d.blocks|
    requires var at := BITMAP_START + b / 4096;
      && e.blocks == d.blocks[at := BitmapAfter(d.blocks[at], b % 4096, on)]
      && e.used == d.used[b := on]
    ensures BitStored(e, c)
  {
    assert BitStored(d, c);
    if c / 4096 == b / 4096 && c % 4096 == b % 4096 { assert c == b; }
  }

  lemma PackedAfterBitWrite(d: Image, b: nat, on: bool)
    requires Packed(d) && b < |d.blocks|
    ensures var at := BITMAP_START + b / 4096;
      Packed(d.(blocks := d.blocks[at := BitmapAfter(d.blocks[at], b % 4096, on)], used := d.used[b := on]))
  {
    var at := BITMAP_START + b / 4096;
    var e := d.(blocks := d.blocks[at := BitmapAfter(d.blocks[at], b % 4096, on)], used := d.used[b := on]);
    InodesSurvive(d, e);
    forall c | 0 <= c < |e.blocks| ensures BitStored(e, c) {
      BitStoredAfterWrite(d, e, b, c, on);
    }
  }

  // ----- block references

  /** Slots 0..139 of an inode are the blocks of the file in order; slot 140 is the indirect block. */
  const INDIRECT_SLOT := 140

  /** The block number in slot `q`, 0 when there is none. */
  function RefOf(blocks: seq<Block>, ino: DiskInode, q: nat): nat
    requires q <= INDIRECT_SLOT
  {
    if q < NDIRECT then ino.addrs[q]
    else if q == INDIRECT_SLOT then ino.addrs[INDIRECT_INDEX]
    else if ino.addrs[INDIRECT_INDEX] == 0 || ino.addrs[INDIRECT_INDEX] >= |blocks| then 0
    else TableEntry(blocks[ino.addrs[INDIRECT_INDEX]], q - NDIRECT)
  }

  /** Slot `slot` of inode `ino`. */
  datatype Ref = Ref(ino: nat, slot: nat)

  type Owner = map<nat, Ref>

  ghost predicate RefOk(d: Image, owner: Owner, n: nat, q: nat)
    requires n < |d.inodes| && |d.used| == |d.blocks| && q <= INDIRECT_SLOT
  {
    var b := RefOf(d.blocks, d.inodes[n], q);
    b != 0 ==> DataStart(|d.blocks|) <= b < |d.blocks| && d.used[b] && b in owner && owner[b] == Ref(n, q)
  }

  /** Metadata blocks are marked used; a used data block is owned; an owned block sits in the slot that
      `owner` says. */
  ghost predicate BlockOk(d: Image, owner: Owner, b: nat)
    requires |d.used| == |d.blocks|
  {
    && (b < DataStart(|d.blocks|) && b < |d.blocks| ==> d.used[b])
    && (DataStart(|d.blocks|) <= b < |d.blocks| && d.used[b] ==> b in owner)
    && (b in owner ==>
          && DataStart(|d.blocks|) <= b < |d.blocks|
          && owner[b].ino < |d.inodes| && owner[b].slot <= INDIRECT_SLOT
          && RefOf(d.blocks, d.inodes[owner[b].ino], owner[b].slot) == b)
  }

  /** A file is at most 140 blocks long and every position below its size is mapped. */
  ghost predicate SizeOk(d: Image, n: nat)
    requires n < |d.inodes|
  {
    && d.inodes[n].size <= MAXFILE * FSBLOCK_SIZE
    && forall p | 0 <= p && p * FSBLOCK_SIZE < d.inodes[n].size :: RefOf(d.blocks, d.inodes[n], p) != 0
  }

  /** Every non-zero block number in a slot is a data block marked used, and `owner` leads back to that
      one slot; every used data block is in some slot; metadata stays marked; files have no holes. */
  ghost predicate Sound(d: Image, owner: Owner) {
    && Shape(d)
    && (forall n, q | 0 <= n < NUM_INODES && 0 <= q <= INDIRECT_SLOT :: RefOk(d, owner, n, q))
    && (forall b: nat :: BlockOk(d, owner, b))
    && (forall n | 0 <= n < NUM_INODES :: SizeOk(d, n))
  }

  ghost predicate Fsck(d: Image, owner: Owner) {
    Packed(d) && Sound(d, owner)
  }

  /** No block number occurs in two places of a sound disk: not twice in one inode, not in two inodes,
      not as a data block here and an indirect block there. */
  lemma NoBlockIsShared(d: Image, owner: Owner, n: nat, q: nat, m: nat, r: nat)
    requires Sound(d, owner)
    requires n < NUM_INODES && m < NUM_INODES && q <= INDIRECT_SLOT && r <= INDIRECT_SLOT
    requires RefOf(d.blocks, d.inodes[n], q) == RefOf(d.blocks, d.inodes[m], r) != 0
    ensures n == m && q == r
  {
    assert RefOk(d, owner, n, q) && RefOk(d, owner, m, r);
  }

  /** The bitmap is exact: a data block is marked used if and only if some slot of some inode names it. */
  lemma UsedIffReferenced(d: Image, owner: Owner, b: nat)
    requires Sound(d, owner) && DataStart(|d.blocks|) <= b < |d.blocks|
    ensures d.used[b] <==> exists n, q | 0 <= n < NUM_INODES && 0 <= q <= INDIRECT_SLOT ::
                             RefOf(d.blocks, d.inodes[n], q) == b
  {
    if d.used[b] {
      assert BlockOk(d, owner, b);
      var r := owner[b];
      assert RefOf(d.blocks, d.inodes[r.ino], r.slot) == b;
    }
    if n, q :| 0 <= n < NUM_INODES && 0 <= q <= INDIRECT_SLOT && RefOf(d.blocks, d.inodes[n], q) == b {
      assert RefOk(d, owner, n, q);
    }
  }

  // ----- the steps that change references

  /** The indirect block of an inode, or nothing, is the only block whose content its slots depend on. */
  lemma RefsDependOnIndirect(blocks: seq<Block>, blocks': seq<Block>, ino: DiskInode, q: nat)
    requires q <= INDIRECT_SLOT && |blocks| == |blocks'|
    requires var t := ino.addrs[INDIRECT_INDEX]; 0 < t < |blocks| ==> blocks'[t] == blocks[t]
    ensures RefOf(blocks', ino, q) == RefOf(blocks, ino, q)
  {
  }

  /** `t` is the indirect block of inode `n`, so no other slot is about to be disturbed by writing it. */
  lemma IndirectBlockIsPrivate(d: Image, owner: Owner, n: nat, m: nat)
    requires Sound(d, owner) && n < NUM_INODES && m < NUM_INODES && m != n
    requires d.inodes[n].addrs[INDIRECT_INDEX] != 0
    ensures d.inodes[m].addrs[INDIRECT_INDEX] != d.inodes[n].addrs[INDIRECT_INDEX]
  {
    assert RefOk(d, owner, n, INDIRECT_SLOT) && RefOk(d, owner, m, INDIRECT_SLOT);
  }

  /** Changing the content of blocks that are nobody's indirect block keeps the disk sound. */
  lemma SoundAfterContentChange(d: Image, owner: Owner, blocks': seq<Block>)
    requires Sound(d, owner) && |blocks'| == |d.blocks|
    requires forall b | b in owner && owner[b].slot == INDIRECT_SLOT && b < |blocks'| :: blocks'[b] == d.blocks[b]
    ensures Sound(d.(blocks := blocks'), owner)
    ensures forall n, q | 0 <= n < NUM_INODES && 0 <= q <= INDIRECT_SLOT ::
              RefOf(blocks', d.inodes[n], q) == RefOf(d.blocks, d.inodes[n], q)
  {
    var e := d.(blocks := blocks');
    forall n, q | 0 <= n < NUM_INODES && 0 <= q <= INDIRECT_SLOT
      ensures RefOf(blocks', d.inodes[n], q) == RefOf(d.blocks, d.inodes[n], q)
    {
      assert RefOk(d, owner, n, INDIRECT_SLOT);
      RefsDependOnIndirect(d.blocks, blocks', d.inodes[n], q);
    }
    forall n, q | 0 <= n < NUM_INODES && 0 <= q <= INDIRECT_SLOT ensures RefOk(e, owner, n, q) {
      assert RefOk(d, owner, n, q);
    }
    forall b: nat ensures BlockOk(e, owner, b) {
      assert BlockOk(d, owner, b);
    }
    forall n | 0 <= n < NUM_INODES ensures SizeOk(e, n) {
      assert SizeOk(d, n);
    }
  }

  /** Taking the free block `b`, whatever it is filled with, disturbs no slot. */
  lemma RefsAfterTaking(d: Image, owner: Owner, b: nat, blocks': seq<Block>)
    requires Sound(d, owner) && b < |d.used| && !d.used[b]
    requires |blocks'| == |d.blocks|
    requires forall c | DataStart(|d.blocks|) <= c < |d.blocks| && c != b :: blocks'[c] == d.blocks[c]
    ensures forall n, q | 0 <= n < NUM_INODES && 0 <= q <= INDIRECT_SLOT ::
              RefOf(blocks', d.inodes[n], q) == RefOf(d.blocks, d.inodes[n], q)
  {
    forall n, q | 0 <= n < NUM_INODES && 0 <= q <= INDIRECT_SLOT
      ensures RefOf(blocks', d.inodes[n], q) == RefOf(d.blocks, d.inodes[n], q)
    {
      assert RefOk(d, owner, n, INDIRECT_SLOT);
      RefsDependOnIndirect(d.blocks, blocks', d.inodes[n], q);
    }
  }

  /** Putting a newly taken block `b` into the empty slot `q` of inode `n`, and nothing else. */
  lemma SoundAfterLink(d: Image, owner: Owner, e: Image, n: nat, q: nat, b: nat)
    requires Sound(d, owner)
    requires DataStart(|d.blocks|) <= b < |d.blocks| && !d.used[b]
    requires |e.blocks| == |d.blocks| && |e.inodes| == |d.inodes| && e.used == d.used[b := true]
    requires forall m | 0 <= m < NUM_INODES :: e.inodes[m].size == d.inodes[m].size
    requires n < NUM_INODES && q <= INDIRECT_SLOT && RefOf(d.blocks, d.inodes[n], q) == 0
    requires forall m, r | 0 <= m < NUM_INODES && 0 <= r <= INDIRECT_SLOT ::
               RefOf(e.blocks, e.inodes[m], r) == if m == n && r == q then b else RefOf(d.blocks, d.inodes[m], r)
    ensures Sound(e, owner[b := Ref(n, q)])
  {
    var owner' := owner[b := Ref(n, q)];
    forall m, r | 0 <= m < NUM_INODES && 0 <= r <= INDIRECT_SLOT ensures RefOk(e, owner', m, r) {
      assert RefOk(d, owner, m, r);
    }
    forall c: nat ensures BlockOk(e, owner', c) {
      assert BlockOk(d, owner, c);
    }
    forall m | 0 <= m < NUM_INODES ensures SizeOk(e, m) {
      assert SizeOk(d, m);
    }
  }

  /** Only the size of inode `n` changes, and no further than its mapped blocks reach. */
  lemma SoundAfterResize(d: Image, owner: Owner, n: nat, size: u32)
    requires Sound(d, owner) && n < NUM_INODES && size <= MAXFILE * FSBLOCK_SIZE
    requires forall p | 0 <= p && p * FSBLOCK_SIZE < size :: RefOf(d.blocks, d.inodes[n], p) != 0
    ensures Sound(d.(inodes := d.inodes[n := d.inodes[n].(size := size)]), owner)
  {
    var e := d.(inodes := d.inodes[n := d.inodes[n].(size := size)]);
    forall m, r | 0 <= m < NUM_INODES && 0 <= r <= INDIRECT_SLOT
      ensures RefOf(e.blocks, e.inodes[m], r) == RefOf(d.blocks, d.inodes[m], r)
    {
    }
    forall m, r | 0 <= m < NUM_INODES && 0 <= r <= INDIRECT_SLOT ensures RefOk(e, owner, m, r) {
      assert RefOk(d, owner, m, r);
    }
    forall c: nat ensures BlockOk(e, owner, c) {
      assert BlockOk(d, owner, c);
    }
    forall m | 0 <= m < NUM_INODES ensures SizeOk(e, m) {
      assert SizeOk(d, m);
      if m == n {
        forall p | 0 <= p && p * FSBLOCK_SIZE < size ensures RefOf(e.blocks, e.inodes[n], p) != 0 {
          assert RefOf(d.blocks, d.inodes[n], p) != 0;
        }
      }
    }
  }

  // ----- the bytes of a file

  /** Byte `i` of a file: byte `i % 512` of the block in slot `i / 512`. */
  function ByteAt(blocks: seq<Block>, ino: DiskInode, i: nat): byte {
    var b := if i < MAXFILE * FSBLOCK_SIZE then RefOf(blocks, ino, i / FSBLOCK_SIZE) else 0;
    if b < |blocks| then blocks[b][i % FSBLOCK_SIZE] else 0
  }

  /** The first `k` bytes of a file. */
  function Prefix(blocks: seq<Block>, ino: DiskInode, k: nat): (c: seq<byte>)
    ensures |c| == k
  {
    if k == 0 then [] else Prefix(blocks, ino, k - 1) + [ByteAt(blocks, ino, k - 1)]
  }

  function Content(blocks: seq<Block>, ino: DiskInode): (c: seq<byte>)
    ensures |c| == ino.size
  {
    Prefix(blocks, ino, ino.size)
  }

  lemma {:induction false} PrefixAt(blocks: seq<Block>, ino: DiskInode, k: nat)
    ensures forall i | 0 <= i < k :: Prefix(blocks, ino, k)[i] == ByteAt(blocks, ino, i)
  {
    if k > 0 { PrefixAt(blocks, ino, k - 1); }
  }

  lemma ContentAt(blocks: seq<Block>, ino: DiskInode)
    ensures forall i | 0 <= i < ino.size :: Content(blocks, ino)[i] == ByteAt(blocks, ino, i)
  {
    PrefixAt(blocks, ino, ino.size);
  }

  /** Where byte `i` of a file stands on a sound disk: in the block of the address `i / 512`, and from the twelfth on
      of the number that stands at that place in the indirect block. */
  lemma BytesStandAt(d: Image, owner: Owner, n: nat, i: nat)
    requires Sound(d, owner) && n < NUM_INODES && i < d.inodes[n].size
    ensures var addrs, p := d.inodes[n].addrs, i / 512;
      && p < 140 && (p >= 12 ==> addrs[12] < |d.blocks|)
      && var b := if p < 12 then addrs[p] else U32(d.blocks[addrs[12]], 4 * (p - 12));
      && 0 < b < |d.blocks| && Content(d.blocks, d.inodes[n])[i] == d.blocks[b][i % 512]
  {
    var p := i / 512;
    assert SizeOk(d, n) && p * FSBLOCK_SIZE <= i;
    assert RefOk(d, owner, n, p) && RefOk(d, owner, n, INDIRECT_SLOT);
    ContentAt(d.blocks, d.inodes[n]);
  }

  lemma SameContent(blocks: seq<Block>, ino: DiskInode, blocks': seq<Block>, ino': DiskInode)
    requires ino.size == ino'.size
    requires forall i | 0 <= i < ino.size :: ByteAt(blocks, ino, i) == ByteAt(blocks', ino', i)
    ensures Content(blocks, ino) == Content(blocks', ino')
  {
    ContentAt(blocks, ino);
    ContentAt(blocks', ino');
  }
}
