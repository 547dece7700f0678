/** How a file grows: the value-level steps of `allocate_or_find_block` and of the copy loop of
    `write_data`, each shown to keep the disk sound and to disturb nothing else. */
module Growth {
  import opened Bytes
  import opened DiskFormat
  import opened Fsck

  /** `e` is `d` with inode `n` grown: used blocks stay used and keep their owner, the slots of `n` that
      were filled stay as they were, new blocks belong to `n`, and no block of another inode changed. */
  ghost predicate Grown(d: Image, owner: Owner, e: Image, owner': Owner, n: nat)
    requires |d.inodes| == |e.inodes| == NUM_INODES && n < NUM_INODES
    requires |d.used| == |d.blocks| && |e.used| == |e.blocks|
  {
    && |e.blocks| == |d.blocks|
    && (forall b | 0 <= b < |d.used| && d.used[b] :: e.used[b])
    && (forall b | b in owner :: b in owner' && owner'[b] == owner[b])
    && (forall b | b in owner' && b !in owner :: owner'[b].ino == n)
    && (forall b | b in owner && owner[b].ino != n && b < |d.blocks| :: e.blocks[b] == d.blocks[b])
    && (forall q | 0 <= q <= INDIRECT_SLOT && RefOf(d.blocks, d.inodes[n], q) != 0 ::
          RefOf(e.blocks, e.inodes[n], q) == RefOf(d.blocks, d.inodes[n], q))
    && (forall m | 0 <= m < NUM_INODES && m != n :: e.inodes[m] == d.inodes[m])
  }

  /** In addition, the file blocks of `n` itself keep their bytes. */
  ghost predicate Linked(d: Image, owner: Owner, e: Image, owner': Owner, n: nat)
    requires |d.inodes| == |e.inodes| == NUM_INODES && n < NUM_INODES
    requires |d.used| == |d.blocks| && |e.used| == |e.blocks|
  {
    && Grown(d, owner, e, owner', n)
    && forall b | b in owner && owner[b] != Ref(n, INDIRECT_SLOT) && b < |d.blocks| :: e.blocks[b] == d.blocks[b]
  }

  lemma GrownTwice(d: Image, owner: Owner, e: Image, owner': Owner, f: Image, owner'': Owner, n: nat)
    requires |d.inodes| == |e.inodes| == |f.inodes| == NUM_INODES && n < NUM_INODES
    requires |d.used| == |d.blocks| && |e.used| == |e.blocks| && |f.used| == |f.blocks|
    requires Grown(d, owner, e, owner', n) && Grown(e, owner', f, owner'', n)
    ensures Grown(d, owner, f, owner'', n)
  {
  }

  lemma LinkedTwice(d: Image, owner: Owner, e: Image, owner': Owner, f: Image, owner'': Owner, n: nat)
    requires |d.inodes| == |e.inodes| == |f.inodes| == NUM_INODES && n < NUM_INODES
    requires |d.used| == |d.blocks| && |e.used| == |e.blocks| && |f.used| == |f.blocks|
    requires Linked(d, owner, e, owner', n) && Linked(e, owner', f, owner'', n)
    ensures Linked(d, owner, f, owner'', n)
  {
    GrownTwice(d, owner, e, owner', f, owner'', n);
  }

  /** The files of the other inodes, byte for byte, survive the growth of `n`. */
  lemma OthersUnchanged(d: Image, owner: Owner, e: Image, owner': Owner, n: nat, m: nat)
    requires Sound(d, owner) && |e.inodes| == NUM_INODES && |e.used| == |e.blocks|
    requires n < NUM_INODES && m < NUM_INODES && m != n
    requires Grown(d, owner, e, owner', n)
    ensures e.inodes[m] == d.inodes[m]
    ensures forall q | 0 <= q <= INDIRECT_SLOT :: RefOf(e.blocks, e.inodes[m], q) == RefOf(d.blocks, d.inodes[m], q)
    ensures e.inodes[m].size <= MAXFILE * FSBLOCK_SIZE
    ensures Content(e.blocks, e.inodes[m]) == Content(d.blocks, d.inodes[m])
  {
    assert SizeOk(d, m);
    assert RefOk(d, owner, m, INDIRECT_SLOT);
    forall q | 0 <= q <= INDIRECT_SLOT
      ensures RefOf(e.blocks, e.inodes[m], q) == RefOf(d.blocks, d.inodes[m], q)
    {
      RefsDependOnIndirect(d.blocks, e.blocks, d.inodes[m], q);
    }
    forall i | 0 <= i < d.inodes[m].size
      ensures ByteAt(e.blocks, e.inodes[m], i) == ByteAt(d.blocks, d.inodes[m], i)
    {
      assert RefOk(d, owner, m, i / FSBLOCK_SIZE);
      assert i / FSBLOCK_SIZE * FSBLOCK_SIZE < d.inodes[m].size;
    }
    SameContent(e.blocks, e.inodes[m], d.blocks, d.inodes[m]);
  }

  // ----- filling one empty slot with a newly taken block

  /** The blocks after the taken block `b` has been cleared: data blocks other than `b` are as before. */
  ghost predicate Taken(d: Image, e: Image, b: nat) {
    && |d.used| == |d.blocks| == |e.blocks|
    && DataStart(|d.blocks|) <= b < |d.blocks|
    && !d.used[b] && e.used == d.used[b := true]
    && e.blocks[b] == ZeroedBlock()
    && forall c | DataStart(|d.blocks|) <= c < |d.blocks| && c != b :: e.blocks[c] == d.blocks[c]
  }

  /** Slot `q` of inode `n` now holds `b`, and its other slots hold what they held. */
  ghost predicate FilledSlot(d: Image, e: Image, n: nat, q: nat, b: nat)
    requires n < |d.inodes| == |e.inodes| && q <= INDIRECT_SLOT
  {
    && RefOf(e.blocks, e.inodes[n], q) == b
    && forall r | 0 <= r <= INDIRECT_SLOT && r != q ::
         RefOf(e.blocks, e.inodes[n], r) == RefOf(d.blocks, d.inodes[n], r)
  }

  /** The inode with address `a` set: entry 0..11 is a file block, entry 12 the indirect block. */
  function WithAddr(ino: DiskInode, a: nat, b: u32): DiskInode
    requires a < 13
  {
    ino.(addrs := ino.addrs[a := b])
  }

  function SlotOfAddr(a: nat): nat {
    if a == INDIRECT_INDEX then INDIRECT_SLOT else a
  }

  lemma ZeroTableIsEmpty(i: nat)
    requires i < NINDIRECT
    ensures TableEntry(ZeroedBlock(), i) == 0
  {
  }

  lemma LinkAddr(d: Image, owner: Owner, e: Image, n: nat, a: nat, b: nat)
    requires Sound(d, owner) && Taken(d, e, b)
    requires n < NUM_INODES && a < 13 && d.inodes[n].addrs[a] == 0
    requires e.inodes == d.inodes[n := WithAddr(d.inodes[n], a, b)]
    ensures Sound(e, owner[b := Ref(n, SlotOfAddr(a))])
    ensures Linked(d, owner, e, owner[b := Ref(n, SlotOfAddr(a))], n)
    ensures FilledSlot(d, e, n, SlotOfAddr(a), b)
  {
    var q := SlotOfAddr(a);
    RefsAfterTaking(d, owner, b, e.blocks);
    forall r | 0 <= r <= INDIRECT_SLOT
      ensures RefOf(e.blocks, e.inodes[n], r) == if r == q then b else RefOf(d.blocks, d.inodes[n], r)
    {
      assert RefOf(e.blocks, d.inodes[n], r) == RefOf(d.blocks, d.inodes[n], r);
      if a == INDIRECT_INDEX && NDIRECT <= r < INDIRECT_SLOT { ZeroTableIsEmpty(r - NDIRECT); }
    }
    forall m, r | 0 <= m < NUM_INODES && 0 <= r <= INDIRECT_SLOT
      ensures RefOf(e.blocks, e.inodes[m], r) == if m == n && r == q then b else RefOf(d.blocks, d.inodes[m], r)
    {
      assert RefOf(e.blocks, d.inodes[m], r) == RefOf(d.blocks, d.inodes[m], r);
    }
    SoundAfterLink(d, owner, e, n, q, b);
    TakenIsNew(d, owner, b);
  }

  lemma TakenIsNew(d: Image, owner: Owner, b: nat)
    requires Sound(d, owner) && b < |d.used| && !d.used[b]
    ensures b !in owner
    ensures forall c | c in owner :: DataStart(|d.blocks|) <= c < |d.blocks|
  {
    forall c | c in owner ensures DataStart(|d.blocks|) <= c < |d.blocks| && c != b {
      assert BlockOk(d, owner, c);
      assert RefOk(d, owner, owner[c].ino, owner[c].slot);
    }
  }

  /** The same for an entry of the indirect block `t` of inode `n`. */
  lemma LinkEntry(d: Image, owner: Owner, e: Image, f: Image, n: nat, i: nat, b: nat)
    requires Sound(d, owner) && Taken(d, e, b) && e.inodes == d.inodes
    requires n < NUM_INODES && i < NINDIRECT
    requires var t := d.inodes[n].addrs[INDIRECT_INDEX];
      && 0 < t < |d.blocks| && TableEntry(d.blocks[t], i) == 0
      && f == e.(blocks := e.blocks[t := PutTableEntry(e.blocks[t], i, b)])
    ensures Sound(f, owner[b := Ref(n, NDIRECT + i)])
    ensures Linked(d, owner, f, owner[b := Ref(n, NDIRECT + i)], n)
    ensures FilledSlot(d, f, n, NDIRECT + i, b)
  {
    var q := NDIRECT + i;
    var t := d.inodes[n].addrs[INDIRECT_INDEX];
    assert RefOk(d, owner, n, INDIRECT_SLOT);
    RefsAfterTaking(d, owner, b, e.blocks);
    TableEntryAfterPut(e.blocks[t], i, b);
    forall r | 0 <= r <= INDIRECT_SLOT
      ensures RefOf(f.blocks, f.inodes[n], r) == if r == q then b else RefOf(d.blocks, d.inodes[n], r)
    {
      assert RefOf(e.blocks, d.inodes[n], r) == RefOf(d.blocks, d.inodes[n], r);
    }
    forall m, r | 0 <= m < NUM_INODES && 0 <= r <= INDIRECT_SLOT
      ensures RefOf(f.blocks, f.inodes[m], r) == if m == n && r == q then b else RefOf(d.blocks, d.inodes[m], r)
    {
      assert RefOf(e.blocks, d.inodes[m], r) == RefOf(d.blocks, d.inodes[m], r);
      if m != n {
        IndirectBlockIsPrivate(d, owner, n, m);
        RefsDependOnIndirect(e.blocks, f.blocks, d.inodes[m], r);
      }
    }
    SoundAfterLink(d, owner, f, n, q, b);
    TakenIsNew(d, owner, b);
    forall c | c in owner && owner[c] != Ref(n, INDIRECT_SLOT) && c < |d.blocks| ensures f.blocks[c] == d.blocks[c] {
      assert BlockOk(d, owner, c);
    }
  }

  // ----- writing into a mapped block

  function Patch(data: Block, at: nat, chunk: seq<byte>): Block
    requires at + |chunk| <= FSBLOCK_SIZE
  {
    data[..at] + chunk + data[at + |chunk|..]
  }

  /** Writing `chunk` into block `p` of inode `n` changes exactly those bytes of the file. */
  lemma BytesAfterPatch(d: Image, owner: Owner, e: Image, n: nat, p: nat, at: nat, chunk: seq<byte>)
    requires Sound(d, owner) && n < NUM_INODES && p < MAXFILE && at + |chunk| <= FSBLOCK_SIZE
    requires RefOf(d.blocks, d.inodes[n], p) != 0
    requires var b := RefOf(d.blocks, d.inodes[n], p);
      b < |d.blocks| && e == d.(blocks := d.blocks[b := Patch(d.blocks[b], at, chunk)])
    ensures DataStart(|d.blocks|) <= RefOf(d.blocks, d.inodes[n], p)
    ensures Sound(e, owner) && Grown(d, owner, e, owner, n)
    ensures forall q | 0 <= q <= INDIRECT_SLOT :: RefOf(e.blocks, e.inodes[n], q) == RefOf(d.blocks, d.inodes[n], q)
    ensures forall i | 0 <= i < MAXFILE * FSBLOCK_SIZE && RefOf(d.blocks, d.inodes[n], i / FSBLOCK_SIZE) != 0 ::
              ByteAt(e.blocks, e.inodes[n], i) ==
              if p * FSBLOCK_SIZE + at <= i < p * FSBLOCK_SIZE + at + |chunk| then chunk[i - p * FSBLOCK_SIZE - at]
              else ByteAt(d.blocks, d.inodes[n], i)
  {
    assert RefOk(d, owner, n, p);
    var b := RefOf(d.blocks, d.inodes[n], p);
    SoundAfterContentChange(d, owner, e.blocks);
    forall i | 0 <= i < MAXFILE * FSBLOCK_SIZE && RefOf(d.blocks, d.inodes[n], i / FSBLOCK_SIZE) != 0
      ensures ByteAt(e.blocks, e.inodes[n], i) ==
              if p * FSBLOCK_SIZE + at <= i < p * FSBLOCK_SIZE + at + |chunk| then chunk[i - p * FSBLOCK_SIZE - at]
              else ByteAt(d.blocks, d.inodes[n], i)
    {
      var q := i / FSBLOCK_SIZE;
      assert RefOf(e.blocks, e.inodes[n], q) == RefOf(d.blocks, d.inodes[n], q);
      assert RefOk(d, owner, n, q);
    }
  }

  /** Linking a block to `n` keeps every byte of `n` that was already mapped. */
  lemma BytesAfterLink(d: Image, owner: Owner, e: Image, owner': Owner, n: nat, i: nat)
    requires Sound(d, owner) && |e.inodes| == NUM_INODES && |e.used| == |e.blocks| && n < NUM_INODES
    requires Linked(d, owner, e, owner', n)
    requires i < MAXFILE * FSBLOCK_SIZE && RefOf(d.blocks, d.inodes[n], i / FSBLOCK_SIZE) != 0
    ensures ByteAt(e.blocks, e.inodes[n], i) == ByteAt(d.blocks, d.inodes[n], i)
  {
    assert RefOk(d, owner, n, i / FSBLOCK_SIZE);
  }

  /** Rewriting metadata blocks leaves every slot and every byte of every file alone. */
  lemma MetadataWrite(d: Image, owner: Owner, e: Image)
    requires Sound(d, owner) && e == d.(blocks := e.blocks) && |e.blocks| == |d.blocks|
    requires forall b | DataStart(|d.blocks|) <= b < |d.blocks| :: e.blocks[b] == d.blocks[b]
    ensures Sound(e, owner)
    ensures forall n, q | 0 <= n < NUM_INODES && 0 <= q <= INDIRECT_SLOT ::
              RefOf(e.blocks, e.inodes[n], q) == RefOf(d.blocks, d.inodes[n], q)
    ensures forall n, i | 0 <= n < NUM_INODES && 0 <= i < MAXFILE * FSBLOCK_SIZE
                          && RefOf(d.blocks, d.inodes[n], i / FSBLOCK_SIZE) != 0 ::
              ByteAt(e.blocks, e.inodes[n], i) == ByteAt(d.blocks, d.inodes[n], i)
  {
    forall b | b in owner && owner[b].slot == INDIRECT_SLOT && b < |d.blocks| ensures e.blocks[b] == d.blocks[b] {
      assert BlockOk(d, owner, b);
    }
    SoundAfterContentChange(d, owner, e.blocks);
    forall n, i | 0 <= n < NUM_INODES && 0 <= i < MAXFILE * FSBLOCK_SIZE
                  && RefOf(d.blocks, d.inodes[n], i / FSBLOCK_SIZE) != 0
      ensures ByteAt(e.blocks, e.inodes[n], i) == ByteAt(d.blocks, d.inodes[n], i)
    {
      var q := i / FSBLOCK_SIZE;
      assert RefOk(d, owner, n, q);
      assert RefOf(e.blocks, e.inodes[n], q) == RefOf(d.blocks, d.inodes[n], q);
    }
  }

  // ----- the copy loop of write_data

  /** `c` with the bytes from `offset` on replaced by `s`, longer when `s` reaches past the end. */
  function Splice(c: seq<byte>, offset: nat, s: seq<byte>): (r: seq<byte>)
    requires offset <= |c|
    ensures |r| == Max(|c|, offset + |s|)
    ensures forall i | 0 <= i < |r| :: r[i] == if offset <= i < offset + |s| then s[i - offset] else c[i]
  {
    c[..offset] + s + if offset + |s| <= |c| then c[offset + |s|..] else []
  }

  function Max(a: nat, b: nat): nat {
    if a < b then b else a
  }

  /** The first `len` bytes of inode `n` are mapped. */
  ghost predicate MappedTo(e: Image, n: nat, len: nat)
    requires n < |e.inodes|
  {
    forall q | 0 <= q < MAXFILE && q * FSBLOCK_SIZE < len :: RefOf(e.blocks, e.inodes[n], q) != 0
  }

  /** The bytes of inode `n` after `source` has been written at `offset`, over the bytes `d` had. */
  ghost predicate Spliced(d: Image, e: Image, n: nat, offset: nat, source: seq<byte>)
    requires n < |d.inodes| == |e.inodes| && d.inodes[n].size <= MAXFILE * FSBLOCK_SIZE
    requires offset + |source| <= MAXFILE * FSBLOCK_SIZE
  {
    forall i | 0 <= i < Max(d.inodes[n].size, offset + |source|) ::
      ByteAt(e.blocks, e.inodes[n], i) ==
      if offset <= i < offset + |source| then source[i - offset] else ByteAt(d.blocks, d.inodes[n], i)
  }

  lemma SplicedContent(d: Image, e: Image, n: nat, offset: nat, source: seq<byte>)
    requires n < |d.inodes| == |e.inodes| && d.inodes[n].size <= MAXFILE * FSBLOCK_SIZE
    requires offset <= d.inodes[n].size && offset + |source| <= MAXFILE * FSBLOCK_SIZE
    requires Spliced(d, e, n, offset, source)
    requires e.inodes[n].size == Max(d.inodes[n].size, offset + |source|)
    ensures Content(e.blocks, e.inodes[n]) == Splice(Content(d.blocks, d.inodes[n]), offset, source)
  {
    ContentAt(d.blocks, d.inodes[n]);
    ContentAt(e.blocks, e.inodes[n]);
  }
}
