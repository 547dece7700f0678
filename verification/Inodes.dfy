/** The inode layer: the in-memory inode table, and files as byte sequences over direct and indirect
    blocks. */
module Inodes {
  import opened BlockUse
  import opened Bytes
  import opened DiskFormat
  import opened Fsck
  import opened Growth
  import opened FileSystem
  import opened Wrappers

  const NUM_INODE := 10

  // ----- the invariant between calls

  ghost predicate Live(table: seq<Inode>, s: nat) {
    s < |table| && table[s].refcnt > 0
  }

  /** A live slot holds the current disk copy of its inode, and no two live slots hold the same one. */
  ghost predicate TableOk(table: seq<Inode>, inodes: seq<DiskInode>) {
    && |table| == NUM_INODE && |inodes| == NUM_INODES
    && (forall s: nat | Live(table, s) :: table[s].number < NUM_INODES && table[s].disk == inodes[table[s].number])
    && (forall s: nat, t: nat | Live(table, s) && Live(table, t) && table[s].number == table[t].number :: s == t)
  }

  ghost predicate Valid(fs: State)
    reads fs
  {
    && fs.Mounted()
    && Sound(fs.Disk(), fs.owner)
    && TableOk(fs.table, fs.inodes)
  }

  /** The disk as it will be once the in-memory inode of slot `s` has been written back. */
  ghost function Pending(fs: State, s: nat): Image
    reads fs
    requires s < |fs.table| && fs.table[s].number < |fs.inodes|
  {
    fs.Disk().(inodes := fs.inodes[fs.table[s].number := fs.table[s].disk])
  }

  ghost predicate Writable(fs: State, s: nat)
    reads fs
  {
    WritableAs(fs, s, fs.owner)
  }

  ghost predicate WritableAs(fs: State, s: nat, owner: Owner)
    reads fs
  {
    && fs.Mounted() && |fs.table| == NUM_INODE && s < NUM_INODE && fs.table[s].number < NUM_INODES
    && Sound(Pending(fs, s), owner)
  }

  /** Whatever has been done since the disk was formatted, mounting it again finds the same superblock. */
  lemma CanBeRemounted(fs: State)
    requires Valid(fs)
    ensures LoadSuper(fs.blocks[1]) == fs.superblock
    ensures var block, size := fs.blocks[1], |fs.blocks|;
      && U32(block, 0) == 0x10203040 && U32(block, 4) == size && U32(block, 8) == size - DataStart(size)
      && U32(block, 12) == 200 && U32(block, 16) == 2 && U32(block, 20) == 27
  {
    assert HeaderStored(fs.superblock, fs.header, fs.blocks, 1);
  }

  lemma ValidIsWritable(fs: State, s: nat)
    requires Valid(fs) && Live(fs.table, s)
    ensures Writable(fs, s) && Pending(fs, s) == fs.Disk()
  {
    assert fs.inodes[fs.table[s].number := fs.table[s].disk] == fs.inodes;
  }

  // ----- logical block to disk block

  method FindBlock(fs: State, s: nat, p: nat) returns (r: Option<nat>)
    requires Writable(fs, s)
    ensures p >= MAXFILE ==> r == None
    ensures p < MAXFILE ==>
              var b := RefOf(fs.blocks, fs.table[s].disk, p);
              if b == 0 then r == None else r == Some(b) && DataStart(|fs.blocks|) <= b < |fs.blocks|
  {
    var addrs := fs.table[s].disk.addrs;
    ghost var n := fs.table[s].number;
    assert p < MAXFILE ==> RefOk(Pending(fs, s), fs.owner, n, p);
    if p < NDIRECT {
      if addrs[p] == 0 {
        return None;
      }
      return Some(addrs[p]);
    }
    var i := p - NDIRECT;
    if i >= NINDIRECT {
      return None;
    }
    if addrs[INDIRECT_INDEX] == 0 {
      return None;
    }
    assert RefOk(Pending(fs, s), fs.owner, n, INDIRECT_SLOT);
    var block := fs.blocks[addrs[INDIRECT_INDEX]];
    if TableEntry(block, i) == 0 {
      return None;
    }
    return Some(TableEntry(block, i));
  }

  /** Only the addresses of the in-memory inode in slot `s` may differ. */
  predicate OnlyAddrs(table: seq<Inode>, table': seq<Inode>, s: nat) {
    && s < |table| == |table'|
    && table' == table[s := table[s].(disk := table[s].disk.(addrs := table'[s].disk.addrs))]
  }

  /** Address `a` of the inode in slot `s` is filled with a new block if it is empty. */
  method FillAddr(fs: State, s: nat, a: nat) returns (ok: bool)
    requires Writable(fs, s) && a < 13
    modifies fs`blocks, fs`used, fs`table, fs`owner
    ensures Writable(fs, s) && OnlyAddrs(old(fs.table), fs.table, s)
    ensures ok <==> fs.table[s].disk.addrs[a] != 0
    ensures !ok ==> forall b | 0 <= b < |fs.used| :: fs.used[b]
    ensures Linked(old(Pending(fs, s)), old(fs.owner), Pending(fs, s), fs.owner, fs.table[s].number)
    ensures forall q | 0 <= q <= INDIRECT_SLOT && q != SlotOfAddr(a) ::
              RefOf(fs.blocks, fs.table[s].disk, q) == old(RefOf(fs.blocks, fs.table[s].disk, q))
  {
    if fs.table[s].disk.addrs[a] == 0 {
      ghost var d, owner := Pending(fs, s), fs.owner;
      ghost var n := fs.table[s].number;
      var r := fs.AllocateBlock();
      if r == None {
        return false;
      }
      var b := r.value;
      fs.table := fs.table[s := fs.table[s].(disk := WithAddr(fs.table[s].disk, a, b))];
      fs.owner := fs.owner[b := Ref(n, SlotOfAddr(a))];
      LinkAddr(d, owner, Pending(fs, s), n, a, b);
    }
    return true;
  }

  /** Stores `b` in entry `i` of the indirect block of the inode in slot `s` and writes the block back.
      `d` and `owner` describe the disk before `b` was taken. */
  method PutEntry(fs: State, s: nat, i: nat, b: nat, ghost d: Image, ghost owner: Owner)
    requires fs.Mounted() && |fs.table| == NUM_INODE && s < NUM_INODE && fs.table[s].number < NUM_INODES
    requires Sound(d, owner) && Taken(d, Pending(fs, s), b) && d.inodes == Pending(fs, s).inodes && i < NINDIRECT
    requires fs.table[s].disk.addrs[INDIRECT_INDEX] != 0 && RefOf(d.blocks, fs.table[s].disk, NDIRECT + i) == 0
    modifies fs`blocks
    ensures WritableAs(fs, s, owner[b := Ref(fs.table[s].number, NDIRECT + i)])
    ensures Linked(d, owner, Pending(fs, s), owner[b := Ref(fs.table[s].number, NDIRECT + i)], fs.table[s].number)
    ensures FilledSlot(d, Pending(fs, s), fs.table[s].number, NDIRECT + i, b)
  {
    ghost var n := fs.table[s].number;
    ghost var e := Pending(fs, s);
    var t := fs.table[s].disk.addrs[INDIRECT_INDEX];
    assert RefOk(d, owner, n, INDIRECT_SLOT);
    PackedAfterDataWrite(fs.Disk(), t, PutTableEntry(fs.blocks[t], i, b));
    fs.blocks := fs.blocks[t := PutTableEntry(fs.blocks[t], i, b)];
    HeaderSurvives(fs.superblock, fs.header, old(fs.blocks), fs.blocks);
    LinkEntry(d, owner, e, Pending(fs, s), n, i, b);
  }

  /** Entry `i` of the indirect block is filled with a new block if it is empty. */
  method FillEntry(fs: State, s: nat, i: nat) returns (ok: bool)
    requires Writable(fs, s) && i < NINDIRECT && fs.table[s].disk.addrs[INDIRECT_INDEX] != 0
    modifies fs`blocks, fs`used, fs`owner
    ensures Writable(fs, s)
    ensures ok <==> RefOf(fs.blocks, fs.table[s].disk, NDIRECT + i) != 0
    ensures !ok ==> forall b | 0 <= b < |fs.used| :: fs.used[b]
    ensures Linked(old(Pending(fs, s)), old(fs.owner), Pending(fs, s), fs.owner, fs.table[s].number)
    ensures forall q | 0 <= q <= INDIRECT_SLOT && q != NDIRECT + i ::
              RefOf(fs.blocks, fs.table[s].disk, q) == old(RefOf(fs.blocks, fs.table[s].disk, q))
  {
    ghost var d, owner := Pending(fs, s), fs.owner;
    var t := fs.table[s].disk.addrs[INDIRECT_INDEX];
    assert RefOk(d, owner, fs.table[s].number, INDIRECT_SLOT);
    if TableEntry(fs.blocks[t], i) == 0 {
      var r := fs.AllocateBlock();
      if r == None {
        return false;
      }
      PutEntry(fs, s, i, r.value, d, owner);
      fs.owner := owner[r.value := Ref(fs.table[s].number, NDIRECT + i)];
    }
    return true;
  }

  /** What has been taken on the way to block `p`, whether it has been reached or not. */
  lemma BlockReached(d: Image, owner: Owner, e: Image, owner': Owner, n: nat, p: nat)
    requires Sound(d, owner) && Sound(e, owner') && n < NUM_INODES && p < MAXFILE && Linked(d, owner, e, owner', n)
    requires forall q | 0 <= q <= INDIRECT_SLOT && q != p && (q < INDIRECT_SLOT || p < NDIRECT) ::
               RefOf(e.blocks, e.inodes[n], q) == RefOf(d.blocks, d.inodes[n], q)
    ensures TakenForSlots(d, e, n)
    ensures if RefOf(e.blocks, e.inodes[n], p) != 0 then FilledSlots(d, e, n) == SlotsFor(d, n, p)
            else FilledSlots(d, e, n) <= SlotsFor(d, n, p) - {p}
  {
    GrownTakesForSlots(d, owner, e, owner', n);
  }

  /** The block behind a logical index, with a new one taken where there is none, and a new indirect block where
      that is missing too.  Nothing else is taken, and it fails only if the disk is full. */
  method AllocateOrFindBlock(fs: State, s: nat, p: nat) returns (r: Option<nat>)
    requires Writable(fs, s)
    modifies fs`blocks, fs`used, fs`table, fs`owner
    ensures Writable(fs, s) && OnlyAddrs(old(fs.table), fs.table, s)
    ensures p < MAXFILE && r == None ==> forall b | 0 <= b < |fs.used| :: fs.used[b]
    ensures p < MAXFILE && r == None ==> RefOf(fs.blocks, fs.table[s].disk, p) == 0
    ensures r.Some? ==> p < MAXFILE && r.value == RefOf(fs.blocks, fs.table[s].disk, p) != 0
    ensures Linked(old(Pending(fs, s)), old(fs.owner), Pending(fs, s), fs.owner, fs.table[s].number)
    ensures forall q | 0 <= q <= INDIRECT_SLOT && q != p && (q < INDIRECT_SLOT || p < NDIRECT) ::
              RefOf(fs.blocks, fs.table[s].disk, q) == old(RefOf(fs.blocks, fs.table[s].disk, q))
    ensures p >= MAXFILE ==> Pending(fs, s) == old(Pending(fs, s))
    ensures var d, e, n := old(Pending(fs, s)), Pending(fs, s), old(fs.table[s].number);
      && TakenForSlots(d, e, n)
      && (p < MAXFILE ==> if r.Some? then FilledSlots(d, e, n) == SlotsFor(d, n, p)
                          else FilledSlots(d, e, n) <= SlotsFor(d, n, p) - {p})
  {
    ghost var d, owner := Pending(fs, s), fs.owner;
    ghost var n := fs.table[s].number;
    if p < NDIRECT {
      var ok := FillAddr(fs, s, p);
      BlockReached(d, owner, Pending(fs, s), fs.owner, n, p);
      if !ok {
        return None;
      }
      return Some(fs.table[s].disk.addrs[p]);
    }
    var i := p - NDIRECT;
    if i >= NINDIRECT {
      GrownTakesForSlots(d, owner, d, owner, n);
      return None;
    }
    r := ReachIndirect(fs, s, i);
  }

  /** The same for a block behind the indirect block. */
  method ReachIndirect(fs: State, s: nat, i: nat) returns (r: Option<nat>)
    requires Writable(fs, s) && i < NINDIRECT
    modifies fs`blocks, fs`used, fs`table, fs`owner
    ensures Writable(fs, s) && OnlyAddrs(old(fs.table), fs.table, s)
    ensures r == None ==> (forall b | 0 <= b < |fs.used| :: fs.used[b])
                          && RefOf(fs.blocks, fs.table[s].disk, NDIRECT + i) == 0
    ensures r.Some? ==> r.value == RefOf(fs.blocks, fs.table[s].disk, NDIRECT + i) != 0
    ensures Linked(old(Pending(fs, s)), old(fs.owner), Pending(fs, s), fs.owner, fs.table[s].number)
    ensures forall q | 0 <= q < INDIRECT_SLOT && q != NDIRECT + i ::
              RefOf(fs.blocks, fs.table[s].disk, q) == old(RefOf(fs.blocks, fs.table[s].disk, q))
    ensures var d, e, n := old(Pending(fs, s)), Pending(fs, s), old(fs.table[s].number);
      && TakenForSlots(d, e, n)
      && if r.Some? then FilledSlots(d, e, n) == SlotsFor(d, n, NDIRECT + i)
         else FilledSlots(d, e, n) <= SlotsFor(d, n, NDIRECT + i) - {NDIRECT + i}
  {
    ghost var d, owner := Pending(fs, s), fs.owner;
    ghost var n, p := fs.table[s].number, NDIRECT + i;
    var ok := FillAddr(fs, s, INDIRECT_INDEX);
    if !ok {
      BlockReached(d, owner, Pending(fs, s), fs.owner, n, p);
      return None;
    }
    ghost var e, owner' := Pending(fs, s), fs.owner;
    ok := FillEntry(fs, s, i);
    LinkedTwice(d, owner, e, owner', Pending(fs, s), fs.owner, n);
    BlockReached(d, owner, Pending(fs, s), fs.owner, n, p);
    if !ok {
      return None;
    }
    assert RefOk(Pending(fs, s), fs.owner, n, INDIRECT_SLOT);
    return Some(TableEntry(fs.blocks[fs.table[s].disk.addrs[INDIRECT_INDEX]], i));
  }

  // ----- reading and writing bytes

  /** The part of block `pos / 512` from `pos` on, at most `left` bytes. */
  method ReadChunk(fs: State, s: nat, pos: nat, left: nat) returns (bytes: seq<byte>)
    requires Valid(fs) && Live(fs.table, s) && fs.table[s].disk.size <= MAXFILE * FSBLOCK_SIZE
    requires 0 < left && pos + left <= fs.table[s].disk.size
    ensures 0 < |bytes| <= left && bytes == Content(fs.blocks, fs.table[s].disk)[pos..pos + |bytes|]
  {
    ValidIsWritable(fs, s);
    assert SizeOk(fs.Disk(), fs.table[s].number);
    assert pos / FSBLOCK_SIZE * FSBLOCK_SIZE <= pos;
    var block_number := FindBlock(fs, s, pos / FSBLOCK_SIZE);
    if block_number == None {
      assert false;
    }
    var block := fs.blocks[block_number.value];
    var in_block := pos % FSBLOCK_SIZE;
    var chunk := if left < FSBLOCK_SIZE - in_block then left else FSBLOCK_SIZE - in_block;
    ChunkIsContent(fs.blocks, fs.table[s].disk, pos, chunk);
    bytes := block[in_block..in_block + chunk];
  }

  lemma SlicesMeet<T>(c: seq<T>, i: nat, j: nat, k: nat)
    requires i <= j <= k <= |c|
    ensures c[i..j] + c[j..k] == c[i..k]
  {
  }

  /** The bytes from `offset` on, at most `count` of them and none past the end of the file. */
  method ReadData(fs: State, s: nat, offset: nat, count: nat) returns (r: Option<seq<byte>>)
    requires Valid(fs) && Live(fs.table, s)
    ensures fs.table[s].disk.size <= MAXFILE * FSBLOCK_SIZE
    ensures r == None <==> offset > fs.table[s].disk.size
    ensures r.Some? ==>
              var c := Content(fs.blocks, fs.table[s].disk);
              r.value == c[offset..if offset + count < |c| then offset + count else |c|]
  {
    ValidIsWritable(fs, s);
    ghost var n := fs.table[s].number;
    assert SizeOk(fs.Disk(), n);
    var size := fs.table[s].disk.size;
    if offset > size {
      return None;
    }
    var wanted := if count > size - offset then size - offset else count;
    ghost var c := Content(fs.blocks, fs.table[s].disk);
    var dest, done := [], 0;
    while done < wanted
      invariant 0 <= done <= wanted && |dest| == done
      invariant dest == c[offset..offset + done]
    {
      var bytes := ReadChunk(fs, s, offset + done, wanted - done);
      SlicesMeet(c, offset, offset + done, offset + done + |bytes|);
      dest, done := dest + bytes, done + |bytes|;
    }
    return Some(dest);
  }

  lemma ChunkIsContent(blocks: seq<Block>, ino: DiskInode, pos: nat, chunk: nat)
    requires ino.size <= MAXFILE * FSBLOCK_SIZE && pos + chunk <= ino.size && pos < ino.size
    requires pos % FSBLOCK_SIZE + chunk <= FSBLOCK_SIZE
    requires RefOf(blocks, ino, pos / FSBLOCK_SIZE) < |blocks|
    ensures blocks[RefOf(blocks, ino, pos / FSBLOCK_SIZE)][pos % FSBLOCK_SIZE..pos % FSBLOCK_SIZE + chunk]
         == Content(blocks, ino)[pos..pos + chunk]
  {
    ContentAt(blocks, ino);
    forall i | pos <= i < pos + chunk
      ensures i / FSBLOCK_SIZE == pos / FSBLOCK_SIZE && i % FSBLOCK_SIZE == pos % FSBLOCK_SIZE + (i - pos)
    {
    }
  }

  /** Copies `chunk` into block `p` of the file at `at` and writes the block back. */
  method StoreChunk(fs: State, s: nat, p: nat, at: nat, chunk: seq<byte>, b: nat)
    requires Writable(fs, s) && p < MAXFILE && at + |chunk| <= FSBLOCK_SIZE
    requires b == RefOf(fs.blocks, fs.table[s].disk, p) != 0
    modifies fs`blocks
    ensures Writable(fs, s)
    ensures Grown(old(Pending(fs, s)), fs.owner, Pending(fs, s), fs.owner, fs.table[s].number)
    ensures forall q | 0 <= q <= INDIRECT_SLOT ::
              RefOf(fs.blocks, fs.table[s].disk, q) == old(RefOf(fs.blocks, fs.table[s].disk, q))
    ensures forall i | 0 <= i < MAXFILE * FSBLOCK_SIZE
            && old(RefOf(fs.blocks, fs.table[s].disk, i / FSBLOCK_SIZE)) != 0 ::
              ByteAt(fs.blocks, fs.table[s].disk, i) ==
              if p * FSBLOCK_SIZE + at <= i < p * FSBLOCK_SIZE + at + |chunk| then chunk[i - p * FSBLOCK_SIZE - at]
              else old(ByteAt(fs.blocks, fs.table[s].disk, i))
  {
    ghost var d := Pending(fs, s);
    ghost var n := fs.table[s].number;
    assert RefOk(d, fs.owner, n, p);
    PackedAfterDataWrite(fs.Disk(), b, Patch(fs.blocks[b], at, chunk));
    fs.blocks := fs.blocks[b := Patch(fs.blocks[b], at, chunk)];
    HeaderSurvives(fs.superblock, fs.header, old(fs.blocks), fs.blocks);
    BytesAfterPatch(d, fs.owner, Pending(fs, s), n, p, at, chunk);
  }

  /** The copy loop of `write_data` has put `source[..done]` at `offset` into inode `n` of disk `d`;
      `e` is the disk now, with the in-memory inode in place of the stored one. */
  ghost predicate Progress(d: Image, owner: Owner, e: Image, owner': Owner, n: nat, offset: nat, source: seq<byte>,
                           done: nat)
    requires Shape(d) && Shape(e) && n < NUM_INODES && d.inodes[n].size <= MAXFILE * FSBLOCK_SIZE
    requires done <= |source| && offset + |source| <= MAXFILE * FSBLOCK_SIZE
  {
    && Grown(d, owner, e, owner', n)
    && MappedTo(e, n, Max(d.inodes[n].size, offset + done))
    && Spliced(d, e, n, offset, source[..done])
  }

  lemma ProgressAfterLink(d: Image, owner: Owner, e: Image, owner': Owner, f: Image, owner'': Owner,
                          n: nat, offset: nat, source: seq<byte>, done: nat)
    requires Shape(d) && Sound(e, owner') && Shape(f) && n < NUM_INODES && d.inodes[n].size <= MAXFILE * FSBLOCK_SIZE
    requires done <= |source| && offset + |source| <= MAXFILE * FSBLOCK_SIZE
    requires Progress(d, owner, e, owner', n, offset, source, done)
    requires Linked(e, owner', f, owner'', n)
    ensures Progress(d, owner, f, owner'', n, offset, source, done)
  {
    GrownTwice(d, owner, e, owner', f, owner'', n);
    forall i | 0 <= i < Max(d.inodes[n].size, offset + done)
      ensures ByteAt(f.blocks, f.inodes[n], i) == ByteAt(e.blocks, e.inodes[n], i)
    {
      assert i / FSBLOCK_SIZE * FSBLOCK_SIZE <= i;
      assert RefOf(e.blocks, e.inodes[n], i / FSBLOCK_SIZE) != 0;
      BytesAfterLink(e, owner', f, owner'', n, i);
    }
  }

  /** Storing the next `chunk` bytes of the source, which lie inside the mapped block `p`. */
  lemma ProgressAfterStore(d: Image, owner: Owner, e: Image, f: Image, owner': Owner,
                           n: nat, offset: nat, source: seq<byte>, done: nat, p: nat, chunk: nat)
    requires Shape(d) && Shape(e) && Shape(f) && n < NUM_INODES && d.inodes[n].size <= MAXFILE * FSBLOCK_SIZE
    requires offset <= d.inodes[n].size && offset + |source| <= MAXFILE * FSBLOCK_SIZE
    requires done + chunk <= |source| && p == (offset + done) / FSBLOCK_SIZE
    requires chunk > 0 && offset + done + chunk <= (p + 1) * FSBLOCK_SIZE
    requires Progress(d, owner, e, owner', n, offset, source, done)
    requires p < MAXFILE && RefOf(e.blocks, e.inodes[n], p) != 0
    requires Grown(e, owner', f, owner', n)
    requires forall q | 0 <= q <= INDIRECT_SLOT :: RefOf(f.blocks, f.inodes[n], q) == RefOf(e.blocks, e.inodes[n], q)
    requires forall i | 0 <= i < MAXFILE * FSBLOCK_SIZE && RefOf(e.blocks, e.inodes[n], i / FSBLOCK_SIZE) != 0 ::
               ByteAt(f.blocks, f.inodes[n], i) ==
               if offset + done <= i < offset + done + chunk then source[i - offset]
               else ByteAt(e.blocks, e.inodes[n], i)
    ensures Progress(d, owner, f, owner', n, offset, source, done + chunk)
  {
    GrownTwice(d, owner, e, owner', f, owner', n);
    forall q | 0 <= q < MAXFILE && q * FSBLOCK_SIZE < Max(d.inodes[n].size, offset + done + chunk)
      ensures RefOf(f.blocks, f.inodes[n], q) != 0
    {
      assert q != p ==> q * FSBLOCK_SIZE < Max(d.inodes[n].size, offset + done);
    }
    forall i | 0 <= i < Max(d.inodes[n].size, offset + done + chunk)
      ensures ByteAt(f.blocks, f.inodes[n], i) ==
              if offset <= i < offset + done + chunk then source[i - offset] else ByteAt(d.blocks, d.inodes[n], i)
    {
      assert i / FSBLOCK_SIZE * FSBLOCK_SIZE <= i;
      assert RefOf(e.blocks, e.inodes[n], i / FSBLOCK_SIZE) != 0;
    }
  }

  /** A chunk ends with the source or with the block. */
  lemma ChunkEnds(pos: nat, left: nat, chunk: nat)
    requires left > 0 && chunk == if left < 512 - pos % 512 then left else 512 - pos % 512
    ensures 0 < chunk <= left && pos % 512 + chunk <= 512 && pos / 512 * 512 + pos % 512 == pos
    ensures chunk == left || (pos + chunk) % 512 == 0
  {
    if chunk != left { assert pos + chunk == 512 * (pos / 512 + 1); }
  }

  /** Copies as much of the rest of the source as fits into the block at the current position. */
  method StoreNext(fs: State, s: nat, source: seq<byte>, offset: nat, done: nat, b: nat, ghost d: Image,
                   ghost owner: Owner)
    returns (chunk: nat)
    requires Writable(fs, s)
    requires Shape(d) && offset <= d.inodes[fs.table[s].number].size <= MAXFILE * FSBLOCK_SIZE
    requires done < |source| && offset + |source| <= MAXFILE * FSBLOCK_SIZE
    requires Progress(d, owner, Pending(fs, s), fs.owner, fs.table[s].number, offset, source, done)
    requires b == RefOf(fs.blocks, fs.table[s].disk, (offset + done) / FSBLOCK_SIZE) != 0
    modifies fs`blocks
    ensures Writable(fs, s)
    ensures 0 < chunk <= |source| - done
    ensures chunk == |source| - done || (offset + done + chunk) % FSBLOCK_SIZE == 0
    ensures (offset + done) % FSBLOCK_SIZE + chunk <= FSBLOCK_SIZE
    ensures SameSlots(old(Pending(fs, s)), Pending(fs, s), old(fs.table[s].number))
    ensures Progress(d, owner, Pending(fs, s), fs.owner, fs.table[s].number, offset, source, done + chunk)
  {
    ghost var e := Pending(fs, s);
    var pos := offset + done;
    var in_block := pos % FSBLOCK_SIZE;
    var left := |source| - done;
    chunk := if left < FSBLOCK_SIZE - in_block then left else FSBLOCK_SIZE - in_block;
    ChunkEnds(pos, left, chunk);
    StoreChunk(fs, s, pos / FSBLOCK_SIZE, in_block, source[done..done + chunk], b);
    ProgressAfterStore(d, owner, e, Pending(fs, s), fs.owner, fs.table[s].number, offset, source, done,
                       pos / FSBLOCK_SIZE, chunk);
  }

  lemma UnmappedIsPastEnd(e: Image, n: nat, len: nat, pos: nat)
    requires n < |e.inodes| && pos < MAXFILE * FSBLOCK_SIZE && MappedTo(e, n, len)
    requires RefOf(e.blocks, e.inodes[n], pos / FSBLOCK_SIZE) == 0
    ensures pos >= len
  {
    assert pos / FSBLOCK_SIZE * FSBLOCK_SIZE <= pos;
  }

  /** A round that does not reach its block. */
  lemma RoundIsShort(d: Image, owner: Owner, e: Image, owner': Owner, f: Image, owner'': Owner,
                     n: nat, offset: nat, source: seq<byte>, done: nat)
    requires Sound(d, owner) && Sound(e, owner') && Sound(f, owner'') && n < NUM_INODES
    requires d.inodes[n].size <= MAXFILE * FSBLOCK_SIZE
    requires done < |source| && offset + |source| <= MAXFILE * FSBLOCK_SIZE
    requires Progress(d, owner, e, owner', n, offset, source, done) && Linked(e, owner', f, owner'', n)
    requires FilledSlots(d, e, n) == Needed(d, n, offset, done)
    requires var p := (offset + done) / FSBLOCK_SIZE;
      FilledSlots(e, f, n) <= SlotsFor(e, n, p) && RefOf(f.blocks, f.inodes[n], p) == 0
    requires forall b | 0 <= b < |f.used| :: f.used[b]
    ensures Progress(d, owner, f, owner'', n, offset, source, done) && Short(d, f, n, offset, done)
    ensures offset + done >= d.inodes[n].size
  {
    ProgressAfterLink(d, owner, e, owner', f, owner'', n, offset, source, done);
    UnmappedIsPastEnd(f, n, Max(d.inodes[n].size, offset + done), offset + done);
    RoundFallsShort(d, owner, e, owner', f, owner'', n, offset, done);
  }

  /** The first half of a round: the block at the current position, with a new one where there is none. */
  method NextBlock(fs: State, s: nat, source: seq<byte>, offset: nat, done: nat, ghost d: Image, ghost owner: Owner)
    returns (r: Option<nat>)
    requires Writable(fs, s) && Sound(d, owner)
    requires offset <= d.inodes[fs.table[s].number].size <= MAXFILE * FSBLOCK_SIZE
    requires done < |source| && offset + |source| <= MAXFILE * FSBLOCK_SIZE
    requires Progress(d, owner, Pending(fs, s), fs.owner, fs.table[s].number, offset, source, done)
    requires FilledSlots(d, Pending(fs, s), fs.table[s].number) == Needed(d, fs.table[s].number, offset, done)
    modifies fs`blocks, fs`used, fs`table, fs`owner
    ensures Writable(fs, s) && OnlyAddrs(old(fs.table), fs.table, s)
    ensures r == None ==> (forall b | 0 <= b < |fs.used| :: fs.used[b])
                          && offset + done >= d.inodes[fs.table[s].number].size
    ensures r.Some? ==> r.value == RefOf(fs.blocks, fs.table[s].disk, (offset + done) / FSBLOCK_SIZE) != 0
    ensures Progress(d, owner, Pending(fs, s), fs.owner, fs.table[s].number, offset, source, done)
    ensures var n := old(fs.table[s].number);
      if r == None then Short(d, Pending(fs, s), n, offset, done)
      else FilledSlots(d, Pending(fs, s), n) ==
             Needed(d, n, offset, done) + SlotsFor(d, n, (offset + done) / FSBLOCK_SIZE)
  {
    ghost var n := fs.table[s].number;
    ghost var e, owner' := Pending(fs, s), fs.owner;
    r := AllocateOrFindBlock(fs, s, (offset + done) / FSBLOCK_SIZE);
    if r == None {
      RoundIsShort(d, owner, e, owner', Pending(fs, s), fs.owner, n, offset, source, done);
    } else {
      ProgressAfterLink(d, owner, e, owner', Pending(fs, s), fs.owner, n, offset, source, done);
      BlockFills(d, owner, e, owner', Pending(fs, s), fs.owner, n, offset, done);
    }
  }

  /** One round of the copy loop: at least one byte is copied, unless the disk is full. */
  method CopyRound(fs: State, s: nat, source: seq<byte>, offset: nat, done: nat, ghost d: Image, ghost owner: Owner)
    returns (r: Option<nat>)
    requires Writable(fs, s) && Sound(d, owner)
    requires offset <= d.inodes[fs.table[s].number].size <= MAXFILE * FSBLOCK_SIZE
    requires done < |source| && offset + |source| <= MAXFILE * FSBLOCK_SIZE
    requires Progress(d, owner, Pending(fs, s), fs.owner, fs.table[s].number, offset, source, done)
    requires FilledSlots(d, Pending(fs, s), fs.table[s].number) == Needed(d, fs.table[s].number, offset, done)
    modifies fs`blocks, fs`used, fs`table, fs`owner
    ensures Writable(fs, s) && OnlyAddrs(old(fs.table), fs.table, s)
    ensures r == None ==> (forall b | 0 <= b < |fs.used| :: fs.used[b])
                          && offset + done >= d.inodes[fs.table[s].number].size
    ensures r.Some? ==> 0 < r.value <= |source| - done
    ensures r.Some? ==> RoundEnd(offset, done + r.value, |source|)
    ensures Progress(d, owner, Pending(fs, s), fs.owner, fs.table[s].number, offset, source,
                     if r == None then done else done + r.value)
    ensures var n := old(fs.table[s].number);
      if r == None then Short(d, Pending(fs, s), n, offset, done)
      else FilledSlots(d, Pending(fs, s), n) == Needed(d, n, offset, done + r.value)
  {
    ghost var n := fs.table[s].number;
    var block_number := NextBlock(fs, s, source, offset, done, d, owner);
    if block_number == None {
      return None;
    }
    ghost var f := Pending(fs, s);
    var chunk := StoreNext(fs, s, source, offset, done, block_number.value, d, owner);
    NeededMore(d, n, offset, done, chunk);
    SameSlotsFilled(d, f, Pending(fs, s), n);
    return Some(chunk);
  }

  lemma ProgressAtStart(d: Image, owner: Owner, n: nat, offset: nat, source: seq<byte>)
    requires Sound(d, owner) && n < NUM_INODES
    requires offset <= d.inodes[n].size && offset + |source| <= MAXFILE * FSBLOCK_SIZE
    ensures d.inodes[n].size <= MAXFILE * FSBLOCK_SIZE
    ensures Progress(d, owner, d, owner, n, offset, source, 0)
  {
    assert SizeOk(d, n);
  }

  /** The last two statements of `write_data`: extend the size if needed and write the inode back. */
  method FinishWrite(fs: State, s: nat, size: u32)
    requires Writable(fs, s) && fs.table[s].disk.size <= size <= MAXFILE * FSBLOCK_SIZE
    requires MappedTo(Pending(fs, s), fs.table[s].number, size)
    modifies fs`blocks, fs`inodes, fs`table
    ensures fs.Mounted() && Sound(fs.Disk(), fs.owner) && |fs.blocks| == old(|fs.blocks|)
    ensures fs.table == old(fs.table)[s := old(fs.table)[s].(disk := old(fs.table)[s].disk.(size := size))]
    ensures fs.inodes == old(fs.inodes)[fs.table[s].number := fs.table[s].disk]
    ensures SameSlots(old(Pending(fs, s)), fs.Disk(), old(fs.table[s].number))
    ensures forall b | DataStart(|fs.blocks|) <= b < |fs.blocks| :: fs.blocks[b] == old(fs.blocks)[b]
  {
    ghost var n := fs.table[s].number;
    ghost var e := Pending(fs, s);
    if size > fs.table[s].disk.size {
      SoundAfterResize(e, fs.owner, n, size);
      fs.table := fs.table[s := fs.table[s].(disk := fs.table[s].disk.(size := size))];
    }
    assert Pending(fs, s).inodes == e.inodes[n := e.inodes[n].(size := size)];
    e := Pending(fs, s);
    fs.WriteDiskInode(fs.table[s].number, fs.table[s].disk);
    MetadataWrite(e, fs.owner, fs.Disk());
  }

  /** The bytes of inode `n`. */
  ghost function File(fs: State, n: nat): seq<byte>
    reads fs
    requires n < |fs.inodes|
  {
    Content(fs.blocks, fs.inodes[n])
  }

  /** Inode `n` may have other bytes and another size; nothing else about any inode has changed. */
  twostate predicate OnlyFile(fs: State, n: nat)
    reads fs
  {
    && n < |old(fs.inodes)| == |fs.inodes|
    && fs.inodes[n] == old(fs.inodes[n]).(size := fs.inodes[n].size, addrs := fs.inodes[n].addrs)
    && forall m | 0 <= m < |fs.inodes| && m != n :: fs.inodes[m] == old(fs.inodes[m]) && File(fs, m) == old(File(fs, m))
  }

  /** Blocks in use stay in use. */
  twostate predicate UsedGrows(fs: State)
    reads fs
  {
    |fs.used| == |old(fs.used)| && forall b | 0 <= b < |fs.used| && old(fs.used[b]) :: fs.used[b]
  }

  ghost predicate DiskFull(fs: State)
    reads fs
  {
    forall b | 0 <= b < |fs.used| :: fs.used[b]
  }

  /** A position at which a round may end: at the beginning, at the end of the source, or between two blocks. */
  predicate RoundEnd(offset: nat, done: nat, len: nat) {
    done == 0 || done == len || (offset + done) % FSBLOCK_SIZE == 0
  }

  /** Where a write may be cut short: at or past the old end of the file, between two blocks. */
  predicate Cut(offset: nat, done: nat, size: nat) {
    offset + done >= size && (done == 0 || (offset + done) % FSBLOCK_SIZE == 0)
  }

  /** The loop of `write_data`: it stops early only when the disk is full. */
  method CopyLoop(fs: State, s: nat, source: seq<byte>, offset: nat) returns (done: nat)
    requires Valid(fs) && Live(fs.table, s)
    requires offset <= fs.table[s].disk.size && offset + |source| <= MAXFILE * FSBLOCK_SIZE
    modifies fs`blocks, fs`used, fs`table, fs`owner
    ensures done <= |source| && (done < |source| ==> forall b | 0 <= b < |fs.used| :: fs.used[b])
    ensures done < |source| ==> Cut(offset, done, old(fs.table[s].disk.size))
    ensures Writable(fs, s) && OnlyAddrs(old(fs.table), fs.table, s)
    ensures old(fs.table[s].disk.size) <= MAXFILE * FSBLOCK_SIZE
    ensures Took(old(fs.Disk()), Pending(fs, s), old(fs.table[s].number), offset, |source|, done)
    ensures Progress(old(fs.Disk()), old(fs.owner), Pending(fs, s), fs.owner, old(fs.table[s].number), offset, source,
                     done)
  {
    ValidIsWritable(fs, s);
    ghost var d, owner := fs.Disk(), fs.owner;
    ghost var n := fs.table[s].number;
    ProgressAtStart(d, owner, n, offset, source);
    done := 0;
    while done < |source|
      invariant done <= |source|
      invariant RoundEnd(offset, done, |source|)
      invariant Writable(fs, s) && OnlyAddrs(old(fs.table), fs.table, s)
      invariant Progress(d, owner, Pending(fs, s), fs.owner, n, offset, source, done)
      invariant FilledSlots(d, Pending(fs, s), n) == Needed(d, n, offset, done)
    {
      var copied := CopyRound(fs, s, source, offset, done, d, owner);
      if copied == None {
        LoopTook(d, owner, Pending(fs, s), fs.owner, n, offset, |source|, done);
        return;
      }
      done := done + copied.value;
    }
    LoopTook(d, owner, Pending(fs, s), fs.owner, n, offset, |source|, done);
  }

  /** Writing an inode back together with the slot that holds it. */
  lemma TableAfterUpdate(table: seq<Inode>, inodes: seq<DiskInode>, s: nat, disk: DiskInode)
    requires TableOk(table, inodes) && Live(table, s)
    ensures TableOk(table[s := table[s].(disk := disk)], inodes[table[s].number := disk])
  {
    var table', inodes' := table[s := table[s].(disk := disk)], inodes[table[s].number := disk];
    forall t: nat | Live(table', t)
      ensures table'[t].number < NUM_INODES && table'[t].disk == inodes'[table'[t].number]
    {
      assert Live(table, t);
    }
    forall t: nat, u: nat | Live(table', t) && Live(table', u) && table'[t].number == table'[u].number
      ensures t == u
    {
      assert Live(table, t) && Live(table, u);
    }
  }

  /** What follows the loop of `write_data`; `d`, `owner` and `table` are the state before the loop. */
  method Commit(fs: State, s: nat, source: seq<byte>, offset: nat, done: nat,
                ghost d: Image, ghost owner: Owner, ghost table: seq<Inode>)
    requires Writable(fs, s) && OnlyAddrs(table, fs.table, s) && fs.inodes == d.inodes
    requires Sound(d, owner) && TableOk(table, d.inodes) && Live(table, s)
    requires offset <= table[s].disk.size <= MAXFILE * FSBLOCK_SIZE
    requires done <= |source| && offset + |source| <= MAXFILE * FSBLOCK_SIZE
    requires Progress(d, owner, Pending(fs, s), fs.owner, table[s].number, offset, source, done)
    modifies fs`blocks, fs`inodes, fs`table
    ensures Valid(fs) && SameSlots(old(Pending(fs, s)), fs.Disk(), table[s].number)
    ensures File(fs, table[s].number) == Splice(Content(d.blocks, d.inodes[table[s].number]), offset, source[..done])
    ensures forall m | 0 <= m < NUM_INODES && m != table[s].number ::
              fs.inodes[m] == d.inodes[m] && File(fs, m) == Content(d.blocks, d.inodes[m])
    ensures fs.table == table[s := table[s].(disk := fs.inodes[table[s].number])]
    ensures var ino := fs.inodes[table[s].number];
      ino == d.inodes[table[s].number].(size := ino.size, addrs := ino.addrs)
  {
    ghost var n := table[s].number;
    ghost var e, owner' := Pending(fs, s), fs.owner;
    var size := if offset + done > fs.table[s].disk.size then offset + done else fs.table[s].disk.size;
    FinishWrite(fs, s, size);
    WriteIsSplice(d, owner, e, owner', fs.Disk(), n, offset, source, done);
    TableAfterUpdate(table, d.inodes, s, fs.table[s].disk);
  }

  /** Writes `source` at `offset`: the file is spliced with the bytes that fit on the disk, and grows to
      hold them.  A file has no holes, so a write may start at most at its end.  It takes a block for every block of
      the range that the file lacks, and one for the indirect block if it lacks that and needs it, and no others;
      it is complete exactly if so many are free. */
  method WriteData(fs: State, s: nat, source: seq<byte>, offset: nat) returns (r: Option<nat>)
    requires Valid(fs) && Live(fs.table, s)
    modifies fs`blocks, fs`inodes, fs`used, fs`owner, fs`table
    ensures Valid(fs) && fs.superblock == old(fs.superblock) && UsedGrows(fs)
    ensures r == None <==> offset > old(fs.table[s].disk.size) || offset + |source| > MAXFILE * FSBLOCK_SIZE
    ensures r == None ==> fs.Disk() == old(fs.Disk()) && fs.table == old(fs.table)
    ensures r.Some? ==>
              var n := old(fs.table[s].number);
              && r.value <= |source|
              && (r.value < |source| ==> DiskFull(fs))
              && (r.value < |source| ==> Cut(offset, r.value, old(fs.table[s].disk.size)))
              && Took(old(fs.Disk()), fs.Disk(), n, offset, |source|, r.value)
              && (r.value == |source| <==>
                    |Needed(old(fs.Disk()), n, offset, |source|)| <= |ClearBits(old(fs.used))|)
              && File(fs, n) == Splice(old(File(fs, fs.table[s].number)), offset, source[..r.value])
              && OnlyFile(fs, n)
              && fs.table == old(fs.table)[s := old(fs.table[s]).(disk := fs.inodes[n])]
  {
    ValidIsWritable(fs, s);
    ghost var d, owner := fs.Disk(), fs.owner;
    ghost var n := fs.table[s].number;
    assert SizeOk(d, n);
    if offset > fs.table[s].disk.size {
      return None;
    }
    if offset > MAXFILE * FSBLOCK_SIZE || |source| > MAXFILE * FSBLOCK_SIZE - offset {
      return None;
    }
    var done := CopyLoop(fs, s, source, offset);
    ghost var e := Pending(fs, s);
    Commit(fs, s, source, offset, done, d, owner, old(fs.table));
    SameSlotsTook(d, e, fs.Disk(), n, offset, |source|, done);
    CompleteIff(d, fs.Disk(), n, offset, |source|, done);
    return Some(done);
  }

  /** What the copy loop achieved, seen on the disk after the inode has been written back. */
  lemma WriteIsSplice(d: Image, owner: Owner, e: Image, owner': Owner, f: Image,
                      n: nat, offset: nat, source: seq<byte>, done: nat)
    requires Sound(d, owner) && Sound(e, owner') && Shape(f) && n < NUM_INODES
    requires offset <= d.inodes[n].size <= MAXFILE * FSBLOCK_SIZE
    requires done <= |source| && offset + |source| <= MAXFILE * FSBLOCK_SIZE
    requires Progress(d, owner, e, owner', n, offset, source, done)
    requires |f.blocks| == |e.blocks| && forall b | DataStart(|e.blocks|) <= b < |e.blocks| ::
                                           f.blocks[b] == e.blocks[b]
    requires f.inodes == e.inodes[n := e.inodes[n].(size := Max(d.inodes[n].size, offset + done))]
    ensures Content(f.blocks, f.inodes[n]) == Splice(Content(d.blocks, d.inodes[n]), offset, source[..done])
    ensures forall m | 0 <= m < NUM_INODES && m != n ::
              f.inodes[m] == d.inodes[m] && Content(f.blocks, f.inodes[m]) == Content(d.blocks, d.inodes[m])
  {
    var g := e.(blocks := f.blocks);
    MetadataWrite(e, owner', g);
    forall i | 0 <= i < Max(d.inodes[n].size, offset + done)
      ensures ByteAt(f.blocks, f.inodes[n], i) == ByteAt(e.blocks, e.inodes[n], i)
    {
      assert i / FSBLOCK_SIZE * FSBLOCK_SIZE <= i;
      assert RefOf(e.blocks, e.inodes[n], i / FSBLOCK_SIZE) != 0;
      assert RefOf(f.blocks, f.inodes[n], i / FSBLOCK_SIZE) == RefOf(g.blocks, g.inodes[n], i / FSBLOCK_SIZE);
    }
    SplicedContent(d, f, n, offset, source[..done]);
    forall m | 0 <= m < NUM_INODES && m != n
      ensures f.inodes[m] == d.inodes[m] && Content(f.blocks, f.inodes[m]) == Content(d.blocks, d.inodes[m])
    {
      OthersUnchanged(d, owner, e, owner', n, m);
      assert SizeOk(d, m);
      ContentAt(d.blocks, d.inodes[m]);
      ContentAt(e.blocks, e.inodes[m]);
      forall i | 0 <= i < d.inodes[m].size
        ensures ByteAt(f.blocks, f.inodes[m], i) == ByteAt(d.blocks, d.inodes[m], i)
      {
        assert i / FSBLOCK_SIZE * FSBLOCK_SIZE <= i;
        assert ByteAt(d.blocks, d.inodes[m], i) == Content(d.blocks, d.inodes[m])[i];
        assert ByteAt(e.blocks, e.inodes[m], i) == Content(e.blocks, e.inodes[m])[i];
        assert RefOf(e.blocks, e.inodes[m], i / FSBLOCK_SIZE) != 0;
      }
      SameContent(f.blocks, f.inodes[m], d.blocks, d.inodes[m]);
    }
  }
}
