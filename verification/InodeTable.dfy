/** The in-memory inode table: shared, reference-counted slots, and the allocation of a fresh inode. */
module InodeTable {
  import opened Bytes
  import opened DiskFormat
  import opened Fsck
  import opened Growth
  import opened FileSystem
  import opened Inodes
  import opened Wrappers

  /** Some live slot holds inode `n`. */
  ghost predicate Held(table: seq<Inode>, n: nat) {
    exists s: nat :: Live(table, s) && table[s].number == n
  }

  /** The number of references to inode `n`. */
  ghost function Refs(table: seq<Inode>, n: nat): nat {
    if Held(table, n) then
      var s: nat :| Live(table, s) && table[s].number == n;
      table[s].refcnt
    else 0
  }

  lemma RefsOfSlot(table: seq<Inode>, inodes: seq<DiskInode>, s: nat)
    requires TableOk(table, inodes) && Live(table, s)
    ensures Refs(table, table[s].number) == table[s].refcnt
  {
  }

  /** If slot `s` is free, no slot before it is. */
  ghost predicate FirstFree(table: seq<Inode>, s: nat) {
    s < |table| && (table[s].refcnt == 0 ==> forall t | 0 <= t < s :: table[t].refcnt > 0)
  }

  ghost predicate HasFreeSlot(table: seq<Inode>) {
    exists s :: 0 <= s < |table| && table[s].refcnt == 0
  }

  /** A reference to inode `n`: the slot that already holds it, or the first free slot, filled from the disk.
      There is no check of the number: one behind the inode area puts an inode into the table that the disk does
      not have. */
  method GetInode(fs: State, n: nat) returns (r: Option<nat>)
    requires fs.Mounted() && |fs.table| == NUM_INODE
    modifies fs`table
    ensures r == None <==> !old(Held(fs.table, n)) && (!old(HasFreeSlot(fs.table)) || fs.DiskInodeAt(n) == None)
    ensures r == None ==> fs.table == old(fs.table)
    ensures r.Some? ==> |fs.table| == NUM_INODE && Filled(old(fs.table), fs.table, fs.DiskInodeAt(n), r.value, n)
    ensures r.Some? ==> FirstFree(old(fs.table), r.value)
    ensures old(Valid(fs)) ==> (Valid(fs) <==> r == None || n < NUM_INODES)
    ensures old(Valid(fs)) && n < NUM_INODES ==>
              forall m: nat :: Refs(fs.table, m) == old(Refs(fs.table, m)) + if r.Some? && m == n then 1 else 0
  {
    var empty: Option<nat> := None;
    var s := 0;
    while s < |fs.table|
      invariant 0 <= s <= |fs.table| && fs.table == old(fs.table)
      invariant forall t: nat | t < s && Live(fs.table, t) :: fs.table[t].number != n
      invariant empty == None ==> forall t | 0 <= t < s :: fs.table[t].refcnt > 0
      invariant empty.Some? ==> empty.value < s && fs.table[empty.value].refcnt == 0
                                && forall t | 0 <= t < empty.value :: fs.table[t].refcnt > 0
    {
      var inode := fs.table[s];
      if inode.refcnt > 0 && inode.number == n {
        fs.table := fs.table[s := inode.(refcnt := inode.refcnt + 1)];
        assert Live(old(fs.table), s);
        if old(Valid(fs)) { SlotTaken(old(fs.table), fs.table, fs.inodes, s, n); }
        return Some(s);
      }
      if empty == None && inode.refcnt == 0 {
        empty := Some(s);
      }
      s := s + 1;
    }
    if empty == None {
      return None;
    }
    var disk := fs.GetDiskInode(n);
    if disk == None {
      return None;
    }
    fs.table := fs.table[empty.value := Inode(n, 1, true, disk.value)];
    assert Live(fs.table, empty.value);
    if n < NUM_INODES && old(Valid(fs)) { SlotTaken(old(fs.table), fs.table, fs.inodes, empty.value, n); }
    return empty;
  }

  /** Slot `s` has one more reference to `n`, whose copy on disk is `disk`; it is the only slot that changed. */
  ghost predicate Filled(table: seq<Inode>, table': seq<Inode>, disk: Option<DiskInode>, s: nat, n: nat) {
    && s < |table'| == |table| && table' == table[s := table'[s]]
    && if Live(table, s) then table[s].number == n && table'[s] == table[s].(refcnt := table[s].refcnt + 1)
       else !Held(table, n) && disk.Some? && table'[s] == Inode(n, 1, true, disk.value)
  }

  ghost predicate GotSlot(table: seq<Inode>, table': seq<Inode>, inodes: seq<DiskInode>, s: nat, n: nat)
    requires n < |inodes|
  {
    Filled(table, table', Some(inodes[n]), s, n)
  }

  lemma SlotTaken(table: seq<Inode>, table': seq<Inode>, inodes: seq<DiskInode>, s: nat, n: nat)
    requires TableOk(table, inodes) && n < NUM_INODES && GotSlot(table, table', inodes, s, n)
    ensures TableOk(table', inodes)
    ensures forall m: nat :: Refs(table', m) == Refs(table, m) + if m == n then 1 else 0
  {
    forall t: nat | Live(table', t)
      ensures table'[t].number < NUM_INODES && table'[t].disk == inodes[table'[t].number]
    {
      assert t != s ==> Live(table, t);
    }
    forall t: nat, u: nat | Live(table', t) && Live(table', u) && table'[t].number == table'[u].number ensures t == u {
      assert t != s ==> Live(table, t);
      assert u != s ==> Live(table, u);
    }
    assert Live(table', s);
    forall m: nat ensures Refs(table', m) == Refs(table, m) + if m == n then 1 else 0 {
      RefsElsewhere(table, table', inodes, s, m);
    }
  }

  /** References to inodes other than the ones slot `s` held and holds are not affected by a change of it. */
  lemma RefsElsewhere(table: seq<Inode>, table': seq<Inode>, inodes: seq<DiskInode>, s: nat, m: nat)
    requires TableOk(table, inodes) && TableOk(table', inodes) && s < |table|
    requires table' == table[s := table'[s]]
    ensures (Live(table, s) ==> table[s].number != m) && (Live(table', s) ==> table'[s].number != m) ==>
              Refs(table', m) == Refs(table, m)
    ensures Live(table', s) && table'[s].number == m ==> Refs(table', m) == table'[s].refcnt
    ensures Live(table, s) && table[s].number == m ==> Refs(table, m) == table[s].refcnt
  {
    if (Live(table, s) ==> table[s].number != m) && (Live(table', s) ==> table'[s].number != m) {
      forall t: nat ensures Live(table, t) && table[t].number == m <==> Live(table', t) && table'[t].number == m {
      }
    }
  }

  /** Drops one reference. */
  method PutInode(fs: State, s: nat)
    requires Valid(fs) && s < NUM_INODE
    modifies fs`table
    ensures Valid(fs)
    ensures fs.table == if old(Live(fs.table, s))
                        then old(fs.table)[s := old(fs.table[s]).(refcnt := old(fs.table[s].refcnt) - 1)]
                        else old(fs.table)
    ensures forall m: nat ::
              Refs(fs.table, m) == old(Refs(fs.table, m))
                                   - if old(Live(fs.table, s) && fs.table[s].number == m) then 1 else 0
  {
    if fs.table[s].refcnt > 0 {
      fs.table := fs.table[s := fs.table[s].(refcnt := fs.table[s].refcnt - 1)];
      SlotDropped(old(fs.table), fs.table, fs.inodes, s);
    }
  }

  lemma SlotDropped(table: seq<Inode>, table': seq<Inode>, inodes: seq<DiskInode>, s: nat)
    requires TableOk(table, inodes) && Live(table, s)
    requires table' == table[s := table[s].(refcnt := table[s].refcnt - 1)]
    ensures TableOk(table', inodes)
    ensures forall m: nat :: Refs(table', m) == Refs(table, m) - if m == table[s].number then 1 else 0
  {
    forall t: nat | Live(table', t)
      ensures table'[t].number < NUM_INODES && table'[t].disk == inodes[table'[t].number]
    {
      assert Live(table, t);
    }
    forall t: nat, u: nat | Live(table', t) && Live(table', u) && table'[t].number == table'[u].number ensures t == u {
      assert Live(table, t) && Live(table, u);
    }
    forall m: nat ensures Refs(table', m) == Refs(table, m) - if m == table[s].number then 1 else 0 {
      RefsElsewhere(table, table', inodes, s, m);
      if m == table[s].number && !Live(table', s) {
        assert forall t: nat | Live(table', t) :: Live(table, t);
      }
    }
  }

  // ----- allocating an inode

  ghost predicate FirstUnused(inodes: seq<DiskInode>, n: nat) {
    && 1 <= n < |inodes| && inodes[n].kind == UNUSED
    && forall m | 1 <= m < n :: inodes[m].kind != UNUSED
  }

  /** Inode `n` can be handed out afresh: no slot of the table still holds it, and it names no block. */
  ghost predicate Reusable(fs: State, n: nat)
    reads fs
    requires n < |fs.inodes|
  {
    !Held(fs.table, n) && fs.inodes[n].addrs == NO_ADDRS
  }

  function FreshInode(kind: u16): DiskInode {
    FRESH_INODE.(kind := kind)
  }

  /** The chosen inode `n` is made fresh on disk and looked up. */
  method TakeInode(fs: State, n: nat, kind: u16) returns (r: Option<nat>)
    requires Valid(fs) && FirstUnused(fs.inodes, n) && kind != UNUSED
    modifies fs`blocks, fs`inodes, fs`table
    ensures fs.inodes == old(fs.inodes)[n := FreshInode(kind)]
    ensures forall m | 0 <= m < NUM_INODES && m != n :: File(fs, m) == old(File(fs, m))
    ensures Valid(fs) <==> old(Reusable(fs, n))
    ensures r == None <==> !old(Held(fs.table, n)) && !old(HasFreeSlot(fs.table))
    ensures r == None ==> fs.table == old(fs.table)
    ensures r.Some? ==> |fs.table| == NUM_INODE && GotSlot(old(fs.table), fs.table, fs.inodes, r.value, n)
    ensures r.Some? ==> FirstFree(old(fs.table), r.value)
  {
    ghost var d := fs.Disk();
    fs.WriteDiskInode(n, FreshInode(kind));
    ghost var e := fs.Disk();
    MetadataWrite(d, fs.owner, d.(blocks := e.blocks));
    forall m | 0 <= m < NUM_INODES && m != n ensures Content(e.blocks, e.inodes[m]) == Content(d.blocks, d.inodes[m]) {
      SameFile(d, fs.owner, e.blocks, m);
    }
    if d.inodes[n].addrs == NO_ADDRS {
      SoundAfterFresh(d.(blocks := e.blocks), fs.owner, n, kind);
    } else {
      FreshLeaks(d.(blocks := e.blocks), fs.owner, n, kind);
    }
    FreshTable(fs.table, d.inodes, n, kind);
    r := GetInode(fs, n);
    if r.Some? { StaleStays(old(fs.table), fs.table, d.inodes, n, kind, r.value); }
  }

  lemma SameFile(d: Image, owner: Owner, blocks': seq<Block>, m: nat)
    requires Sound(d, owner) && |blocks'| == |d.blocks| && m < NUM_INODES
    requires forall b | DataStart(|d.blocks|) <= b < |d.blocks| :: blocks'[b] == d.blocks[b]
    ensures Content(blocks', d.inodes[m]) == Content(d.blocks, d.inodes[m])
  {
    var e := d.(blocks := blocks');
    MetadataWrite(d, owner, e);
    assert SizeOk(d, m);
    forall i | 0 <= i < d.inodes[m].size ensures ByteAt(blocks', d.inodes[m], i) == ByteAt(d.blocks, d.inodes[m], i) {
      assert i / FSBLOCK_SIZE * FSBLOCK_SIZE <= i;
      assert RefOf(d.blocks, d.inodes[m], i / FSBLOCK_SIZE) != 0;
      assert ByteAt(e.blocks, e.inodes[m], i) == ByteAt(d.blocks, d.inodes[m], i);
    }
    SameContent(blocks', d.inodes[m], d.blocks, d.inodes[m]);
  }

  /** The table agrees with the disk after inode `n` was made fresh exactly when no slot holds it. */
  lemma FreshTable(table: seq<Inode>, inodes: seq<DiskInode>, n: nat, kind: u16)
    requires TableOk(table, inodes) && n < NUM_INODES && inodes[n].kind == UNUSED != kind
    ensures TableOk(table, inodes[n := FreshInode(kind)]) <==> !Held(table, n)
  {
    if s: nat :| Live(table, s) && table[s].number == n {
      assert table[s].disk == inodes[n];
    }
  }

  /** A stale slot stays stale when it is looked up. */
  lemma StaleStays(table: seq<Inode>, table': seq<Inode>, inodes: seq<DiskInode>, n: nat, kind: u16, s: nat)
    requires TableOk(table, inodes) && n < NUM_INODES && inodes[n].kind == UNUSED != kind
    requires GotSlot(table, table', inodes[n := FreshInode(kind)], s, n)
    ensures TableOk(table', inodes[n := FreshInode(kind)]) <==> !Held(table, n)
  {
    if t: nat :| Live(table, t) && table[t].number == n {
      assert table[t].disk == inodes[n];
      assert Live(table', t) && table'[t].number == n && table'[t].disk == inodes[n];
    } else {
      FreshTable(table, inodes, n, kind);
      SlotTaken(table, table', inodes[n := FreshInode(kind)], s, n);
    }
  }

  /** Making an inode that names no block fresh keeps the disk sound ... */
  lemma SoundAfterFresh(d: Image, owner: Owner, n: nat, kind: u16)
    requires Sound(d, owner) && n < NUM_INODES && d.inodes[n].addrs == NO_ADDRS
    ensures Sound(d.(inodes := d.inodes[n := FreshInode(kind)]), owner)
  {
    var e := d.(inodes := d.inodes[n := FreshInode(kind)]);
    forall m, r | 0 <= m < NUM_INODES && 0 <= r <= INDIRECT_SLOT
      ensures RefOf(e.blocks, e.inodes[m], r) == RefOf(d.blocks, d.inodes[m], r)
    {
    }
    forall m, r | 0 <= m < NUM_INODES && 0 <= r <= INDIRECT_SLOT ensures RefOk(e, owner, m, r) {
      assert RefOk(d, owner, m, r);
    }
    forall b: nat ensures BlockOk(e, owner, b) {
      assert BlockOk(d, owner, b);
    }
    forall m | 0 <= m < NUM_INODES ensures SizeOk(e, m) {
      assert SizeOk(d, m);
    }
  }

  /** ... and making one fresh that still names a block leaks that block. */
  lemma FreshLeaks(d: Image, owner: Owner, n: nat, kind: u16)
    requires Sound(d, owner) && n < NUM_INODES && d.inodes[n].addrs != NO_ADDRS
    ensures !Sound(d.(inodes := d.inodes[n := FreshInode(kind)]), owner)
  {
    var e := d.(inodes := d.inodes[n := FreshInode(kind)]);
    var a :| 0 <= a < 13 && d.inodes[n].addrs[a] != NO_ADDRS[a];
    var b := RefOf(d.blocks, d.inodes[n], SlotOfAddr(a));
    assert RefOk(d, owner, n, SlotOfAddr(a));
    assert !BlockOk(e, owner, b);
  }

  /** An inode of type `kind` with nothing in it. */
  predicate IsEmptyFile(ino: DiskInode, kind: u16) {
    && ino.kind == kind && ino.major == ino.minor == ino.nlink == 0 && ino.size == 0
    && forall a | 0 <= a < 13 :: ino.addrs[a] == 0
  }

  /** Takes the first inode from 1 on whose type is unused, makes it an empty file of type `kind`, and
      returns a reference to it.  When the table is full the inode is taken but no reference is returned.

      The invariant survives exactly when the inode taken was `Reusable`: a slot that already held the
      unused inode keeps showing the old, unused copy. */
  method AllocateInode(fs: State, kind: u16) returns (r: Option<nat>, ghost taken: Option<nat>)
    requires Valid(fs)
    modifies fs`blocks, fs`inodes, fs`table
    ensures taken.Some? ==> kind != UNUSED && FirstUnused(old(fs.inodes), taken.value)
    ensures taken == None ==> r == None && fs.Disk() == old(fs.Disk()) && fs.table == old(fs.table)
    ensures taken == None ==> kind == UNUSED || forall n | 1 <= n < NUM_INODES :: fs.inodes[n].kind != UNUSED
    ensures taken.Some? ==>
              && taken.value < |fs.inodes| && IsEmptyFile(fs.inodes[taken.value], kind)
              && fs.inodes == old(fs.inodes)[taken.value := FreshInode(kind)]
    ensures |fs.inodes| == NUM_INODES && forall m | 0 <= m < NUM_INODES && Some(m) != taken ::
                                           File(fs, m) == old(File(fs, m))
    ensures r == None ==> fs.table == old(fs.table)
    ensures r.Some? ==> taken.Some? && |fs.table| == NUM_INODE
                        && GotSlot(old(fs.table), fs.table, fs.inodes, r.value, taken.value)
    ensures taken.Some? ==>
              && (r == None <==> !old(Held(fs.table, taken.value)) && !old(HasFreeSlot(fs.table)))
              && (r.Some? ==> FirstFree(old(fs.table), r.value))
    ensures Valid(fs) <==> (taken.Some? ==> old(Reusable(fs, taken.value)))
    ensures Valid(fs) && taken.Some? ==>
              && (r == None <==> !old(HasFreeSlot(fs.table)))
              && (r.Some? ==> Live(fs.table, r.value) && fs.table[r.value].number == taken.value
                              && fs.table[r.value].disk == fs.inodes[taken.value])
  {
    if kind == UNUSED {
      return None, None;
    }
    var n := 1;
    while n < fs.superblock.ninodes
      invariant 1 <= n <= NUM_INODES
      invariant fs.Disk() == old(fs.Disk()) && fs.table == old(fs.table)
      invariant forall m | 1 <= m < n :: fs.inodes[m].kind != UNUSED
    {
      var disk := fs.GetDiskInode(n);
      if disk == None {
        return None, None;
      }
      if disk.value.kind == UNUSED {
        r := TakeInode(fs, n, kind);
        return r, Some(n);
      }
      n := n + 1;
    }
    return None, None;
  }
}
