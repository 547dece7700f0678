/** Which blocks a file takes when it grows, and how many. */
module BlockUse {
  import opened DiskFormat
  import opened Fsck
  import opened Growth

  /** The block number in slot `q` of inode `n`. */
  function SlotOf(d: Image, n: nat, q: nat): nat {
    if n < |d.inodes| && q <= INDIRECT_SLOT then RefOf(d.blocks, d.inodes[n], q) else 0
  }

  /** The slots of inode `n` that were empty and no longer are. */
  ghost function FilledSlots(d: Image, e: Image, n: nat): set<nat> {
    set q: nat | q <= INDIRECT_SLOT && SlotOf(d, n, q) == 0 && SlotOf(e, n, q) != 0
  }

  /** The blocks that are marked used and were not. */
  ghost function NewBlocks(d: Image, e: Image): set<nat> {
    set b: nat | b < |d.used| && b < |e.used| && e.used[b] && !d.used[b]
  }

  ghost function ClearBits(used: seq<bool>): set<nat> {
    set b: nat | b < |used| && !used[b]
  }

  /** The blocks that a file has taken are those in its newly filled slots, one in each. */
  ghost predicate TakenForSlots(d: Image, e: Image, n: nat) {
    && NewBlocks(d, e) == (set q | q in FilledSlots(d, e, n) :: SlotOf(e, n, q))
    && |NewBlocks(d, e)| == |FilledSlots(d, e, n)|
  }

  lemma {:induction false} SameCount(slots: set<nat>, blocks: set<nat>, e: Image, n: nat)
    requires blocks == (set q | q in slots :: SlotOf(e, n, q))
    requires forall q, r | q in slots && r in slots && SlotOf(e, n, q) == SlotOf(e, n, r) :: q == r
    ensures |blocks| == |slots|
    decreases slots
  {
    if slots == {} {
      assert blocks == {};
    } else {
      var q :| q in slots;
      var b := SlotOf(e, n, q);
      assert blocks - {b} == (set r | r in slots - {q} :: SlotOf(e, n, r));
      SameCount(slots - {q}, blocks - {b}, e, n);
    }
  }

  /** When inode `n` has grown on a sound disk. */
  lemma GrownTakesForSlots(d: Image, owner: Owner, e: Image, owner': Owner, n: nat)
    requires Sound(d, owner) && Sound(e, owner') && n < NUM_INODES && Grown(d, owner, e, owner', n)
    ensures TakenForSlots(d, e, n)
  {
    var slots := FilledSlots(d, e, n);
    forall b: nat | b in NewBlocks(d, e) ensures exists q :: q in slots && SlotOf(e, n, q) == b {
      NewBlockHasSlot(d, owner, e, owner', n, b);
    }
    forall q | q in slots ensures SlotOf(e, n, q) in NewBlocks(d, e) {
      FilledSlotIsNew(d, owner, e, owner', n, q);
    }
    assert NewBlocks(d, e) == (set q | q in slots :: SlotOf(e, n, q));
    forall q, r | q in slots && r in slots && SlotOf(e, n, q) == SlotOf(e, n, r) ensures q == r {
      NoBlockIsShared(e, owner', n, q, n, r);
    }
    SameCount(slots, NewBlocks(d, e), e, n);
  }

  lemma NewBlockHasSlot(d: Image, owner: Owner, e: Image, owner': Owner, n: nat, b: nat)
    requires Sound(d, owner) && Sound(e, owner') && n < NUM_INODES && Grown(d, owner, e, owner', n)
    requires b in NewBlocks(d, e)
    ensures exists q :: q in FilledSlots(d, e, n) && SlotOf(e, n, q) == b
  {
    assert BlockOk(d, owner, b) && BlockOk(e, owner', b);
    TakenIsNew(d, owner, b);
    var q := owner'[b].slot;
    assert RefOk(d, owner, n, q);
    assert q in FilledSlots(d, e, n) && SlotOf(e, n, q) == b;
  }

  lemma FilledSlotIsNew(d: Image, owner: Owner, e: Image, owner': Owner, n: nat, q: nat)
    requires Sound(d, owner) && Sound(e, owner') && n < NUM_INODES && Grown(d, owner, e, owner', n)
    requires q in FilledSlots(d, e, n)
    ensures SlotOf(e, n, q) in NewBlocks(d, e)
  {
    var b := SlotOf(e, n, q);
    assert RefOk(e, owner', n, q);
    assert BlockOk(d, owner, b);
  }

  lemma FilledTwice(d: Image, owner: Owner, e: Image, owner': Owner, f: Image, owner'': Owner, n: nat)
    requires |d.inodes| == |e.inodes| == |f.inodes| == NUM_INODES && n < NUM_INODES
    requires |d.used| == |d.blocks| && |e.used| == |e.blocks| && |f.used| == |f.blocks|
    requires Grown(d, owner, e, owner', n) && Grown(e, owner', f, owner'', n)
    ensures FilledSlots(d, f, n) == FilledSlots(d, e, n) + FilledSlots(e, f, n)
    ensures FilledSlots(d, e, n) !! FilledSlots(e, f, n)
  {
  }

  /** The slots of inode `n` and the bitmap are the same. */
  predicate SameSlots(e: Image, f: Image, n: nat) {
    f.used == e.used && forall q: nat | q <= INDIRECT_SLOT :: SlotOf(f, n, q) == SlotOf(e, n, q)
  }

  lemma SameSlotsFilled(d: Image, e: Image, f: Image, n: nat)
    requires SameSlots(e, f, n)
    ensures FilledSlots(d, f, n) == FilledSlots(d, e, n)
  {
  }

  // ----- what a write needs

  /** The slots that have to be filled to reach block `p` of the file: its own, and from block 12 on that of the
      indirect block; as far as they are empty. */
  ghost function SlotsFor(d: Image, n: nat, p: nat): set<nat> {
    set q: nat | q <= INDIRECT_SLOT && SlotOf(d, n, q) == 0 && (q == p || (q == INDIRECT_SLOT && p >= NDIRECT))
  }

  /** Slot `q` is that of a block that holds one of the bytes from `offset` up to `offset + len`, or the indirect
      block and one of them lies behind the first twelve blocks. */
  predicate Touches(q: nat, offset: nat, len: nat) {
    len > 0 && if q == INDIRECT_SLOT then offset + len > NDIRECT * FSBLOCK_SIZE
               else q * FSBLOCK_SIZE < offset + len && offset < (q + 1) * FSBLOCK_SIZE
  }

  /** The slots that writing `len` bytes at `offset` has to fill. */
  ghost function Needed(d: Image, n: nat, offset: nat, len: nat): set<nat> {
    set q: nat | q <= INDIRECT_SLOT && SlotOf(d, n, q) == 0 && Touches(q, offset, len)
  }

  lemma NeededMore(d: Image, n: nat, offset: nat, done: nat, chunk: nat)
    requires 0 < chunk && offset + done + chunk <= MAXFILE * FSBLOCK_SIZE
    requires (offset + done) % FSBLOCK_SIZE + chunk <= FSBLOCK_SIZE
    ensures Needed(d, n, offset, done + chunk)
         == Needed(d, n, offset, done) + SlotsFor(d, n, (offset + done) / FSBLOCK_SIZE)
  {
    var p := (offset + done) / FSBLOCK_SIZE;
    assert p * FSBLOCK_SIZE <= offset + done < offset + done + chunk <= (p + 1) * FSBLOCK_SIZE;
    forall q: nat | q <= INDIRECT_SLOT
      ensures Touches(q, offset, done + chunk)
              <==> Touches(q, offset, done) || q == p || (q == INDIRECT_SLOT && p >= NDIRECT)
    {
      if q < p { assert (q + 1) * FSBLOCK_SIZE <= p * FSBLOCK_SIZE; }
      if q > p { assert (p + 1) * FSBLOCK_SIZE <= q * FSBLOCK_SIZE; }
    }
  }

  /** What is still empty of what is needed for one more block. */
  lemma SlotsStillFor(d: Image, owner: Owner, e: Image, owner': Owner, n: nat, p: nat)
    requires |d.inodes| == |e.inodes| == NUM_INODES && n < NUM_INODES
    requires |d.used| == |d.blocks| && |e.used| == |e.blocks| && Grown(d, owner, e, owner', n)
    ensures SlotsFor(d, n, p) == SlotsFor(e, n, p) + SlotsFor(d, n, p) * FilledSlots(d, e, n)
  {
  }

  lemma NeededGrows(d: Image, n: nat, offset: nat, len: nat, len': nat)
    requires len <= len'
    ensures Needed(d, n, offset, len) <= Needed(d, n, offset, len')
    ensures |Needed(d, n, offset, len)| <= |Needed(d, n, offset, len')|
  {
    SubsetSize(Needed(d, n, offset, len), Needed(d, n, offset, len'));
  }

  lemma SubsetSize(a: set<nat>, b: set<nat>)
    requires a <= b
    ensures |a| <= |b| && (a != b ==> |a| < |b|)
  {
    assert b == a + (b - a);
  }

  /** A round of the copy loop has filled what was missing for the block it has come to. */
  lemma BlockFills(d: Image, owner: Owner, e: Image, owner': Owner, f: Image, owner'': Owner, n: nat, offset: nat,
                   done: nat)
    requires |d.inodes| == |e.inodes| == |f.inodes| == NUM_INODES && n < NUM_INODES
    requires |d.used| == |d.blocks| && |e.used| == |e.blocks| && |f.used| == |f.blocks|
    requires Grown(d, owner, e, owner', n) && Grown(e, owner', f, owner'', n)
    requires FilledSlots(d, e, n) == Needed(d, n, offset, done)
    requires FilledSlots(e, f, n) == SlotsFor(e, n, (offset + done) / FSBLOCK_SIZE)
    ensures FilledSlots(d, f, n) == Needed(d, n, offset, done) + SlotsFor(d, n, (offset + done) / FSBLOCK_SIZE)
  {
    FilledTwice(d, owner, e, owner', f, owner'', n);
    SlotsStillFor(d, owner, e, owner', n, (offset + done) / FSBLOCK_SIZE);
  }

  /** A write that has been cut short after `done` bytes, for want of blocks: the disk has become full, nothing has
      been taken that one more byte does not need, and that byte needs more than there was. */
  ghost predicate Short(d: Image, e: Image, n: nat, offset: nat, done: nat) {
    && Needed(d, n, offset, done) <= FilledSlots(d, e, n) < Needed(d, n, offset, done + 1)
    && NewBlocks(d, e) == ClearBits(d.used)
    && |ClearBits(d.used)| < |Needed(d, n, offset, done + 1)|
  }

  lemma ShortForBlock(d: Image, f: Image, n: nat, offset: nat, done: nat, p: nat)
    requires p in SlotsFor(d, n, p) && p !in FilledSlots(d, f, n)
    requires Needed(d, n, offset, done) <= FilledSlots(d, f, n) <= Needed(d, n, offset, done) + SlotsFor(d, n, p)
    requires Needed(d, n, offset, done + 1) == Needed(d, n, offset, done) + SlotsFor(d, n, p)
    requires NewBlocks(d, f) == ClearBits(d.used) && |NewBlocks(d, f)| == |FilledSlots(d, f, n)|
    ensures Short(d, f, n, offset, done)
  {
    SubsetSize(FilledSlots(d, f, n), Needed(d, n, offset, done + 1));
  }

  lemma FilledInPart(d: Image, owner: Owner, e: Image, owner': Owner, f: Image, owner'': Owner, n: nat, offset: nat,
                     done: nat, p: nat)
    requires |d.inodes| == |e.inodes| == |f.inodes| == NUM_INODES && n < NUM_INODES
    requires |d.used| == |d.blocks| && |e.used| == |e.blocks| && |f.used| == |f.blocks|
    requires Grown(d, owner, e, owner', n) && Grown(e, owner', f, owner'', n)
    requires FilledSlots(d, e, n) == Needed(d, n, offset, done) && FilledSlots(e, f, n) <= SlotsFor(e, n, p)
    ensures Needed(d, n, offset, done) <= FilledSlots(d, f, n) <= Needed(d, n, offset, done) + SlotsFor(d, n, p)
  {
    FilledTwice(d, owner, e, owner', f, owner'', n);
    SlotsStillFor(d, owner, e, owner', n, p);
  }

  lemma RoundFallsShort(d: Image, owner: Owner, e: Image, owner': Owner, f: Image, owner'': Owner, n: nat, offset: nat,
                        done: nat)
    requires Sound(d, owner) && |e.inodes| == NUM_INODES && |e.used| == |e.blocks| && Sound(f, owner'')
             && n < NUM_INODES
    requires Grown(d, owner, e, owner', n) && Grown(e, owner', f, owner'', n)
    requires offset + done < MAXFILE * FSBLOCK_SIZE
    requires FilledSlots(d, e, n) == Needed(d, n, offset, done)
    requires var p := (offset + done) / FSBLOCK_SIZE;
      FilledSlots(e, f, n) <= SlotsFor(e, n, p) && SlotOf(f, n, p) == 0
    requires forall b | 0 <= b < |f.used| :: f.used[b]
    ensures Short(d, f, n, offset, done)
  {
    var p := (offset + done) / FSBLOCK_SIZE;
    GrownTwice(d, owner, e, owner', f, owner'', n);
    FilledInPart(d, owner, e, owner', f, owner'', n, offset, done, p);
    NeededMore(d, n, offset, done, 1);
    NothingLeft(d, owner, f, owner'', n);
    EmptyStays(d, owner, f, owner'', n, p);
    ShortForBlock(d, f, n, offset, done, p);
  }

  /** On a disk that has become full all that was clear has been taken. */
  lemma NothingLeft(d: Image, owner: Owner, f: Image, owner': Owner, n: nat)
    requires Sound(d, owner) && Sound(f, owner') && n < NUM_INODES && Grown(d, owner, f, owner', n)
    requires forall b | 0 <= b < |f.used| :: f.used[b]
    ensures NewBlocks(d, f) == ClearBits(d.used) && |NewBlocks(d, f)| == |FilledSlots(d, f, n)|
  {
    GrownTakesForSlots(d, owner, f, owner', n);
    assert NewBlocks(d, f) == ClearBits(d.used);
  }

  lemma EmptyStays(d: Image, owner: Owner, f: Image, owner': Owner, n: nat, p: nat)
    requires |d.inodes| == |f.inodes| == NUM_INODES && n < NUM_INODES && p < INDIRECT_SLOT
    requires |d.used| == |d.blocks| && |f.used| == |f.blocks| && Grown(d, owner, f, owner', n) && SlotOf(f, n, p) == 0
    ensures p in SlotsFor(d, n, p) && p !in FilledSlots(d, f, n)
  {
    assert SlotOf(d, n, p) == 0;
  }

  /** What a write of `len` bytes of which `done` have been written has taken. */
  ghost predicate Took(d: Image, e: Image, n: nat, offset: nat, len: nat, done: nat) {
    && TakenForSlots(d, e, n)
    && (if done == len then FilledSlots(d, e, n) == Needed(d, n, offset, len) else Short(d, e, n, offset, done))
  }

  lemma LoopTook(d: Image, owner: Owner, e: Image, owner': Owner, n: nat, offset: nat, len: nat, done: nat)
    requires Sound(d, owner) && Sound(e, owner') && n < NUM_INODES && Grown(d, owner, e, owner', n)
    requires if done == len then FilledSlots(d, e, n) == Needed(d, n, offset, len) else Short(d, e, n, offset, done)
    ensures Took(d, e, n, offset, len, done)
  {
    GrownTakesForSlots(d, owner, e, owner', n);
  }

  lemma SameSlotsTook(d: Image, e: Image, f: Image, n: nat, offset: nat, len: nat, done: nat)
    requires Took(d, e, n, offset, len, done) && SameSlots(e, f, n)
    ensures Took(d, f, n, offset, len, done)
  {
    SameSlotsFilled(d, e, f, n);
  }

  /** A write is complete exactly if there are as many free blocks as it needs. */
  lemma CompleteIff(d: Image, e: Image, n: nat, offset: nat, len: nat, done: nat)
    requires done <= len && Took(d, e, n, offset, len, done)
    ensures done == len <==> |Needed(d, n, offset, len)| <= |ClearBits(d.used)|
  {
    if done == len {
      assert NewBlocks(d, e) <= ClearBits(d.used);
      SubsetSize(NewBlocks(d, e), ClearBits(d.used));
    } else {
      NeededGrows(d, n, offset, done + 1, len);
    }
  }
}
