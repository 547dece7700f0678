/** The block list of the kernel heap as a value: what a well-formed list is, and what splitting, merging and
    growing do to it. */
module HeapBlocks {
  import opened Machine
  import opened Wrappers

  const ALIGN := 8
  const MIN_SPLIT_SIZE := 32
  const HEADER := 32          // sizeof(Block)

  /** `Block`: the header in front of every payload.  `size` is that of the payload alone. */
  datatype Header = Header(size: nat, free: bool, next: Option<nat>, prev: Option<nat>)

  /** The headers in memory, which of them are blocks of the list, and the range they cover. */
  datatype List = List(blocks: map<nat, Header>, members: set<nat>, start: nat, brk: nat)

  /** The address behind the payload of the block at `a`. */
  function End(l: List, a: nat): nat {
    if a in l.blocks then a + HEADER + l.blocks[a].size else a
  }

  predicate IsFree(l: List, a: nat) {
    a in l.blocks && l.blocks[a].free
  }

  /** A block ends where the next one begins, or at the break, and the links say the same both ways. */
  predicate BlockOk(l: List, a: nat) {
    a in l.members ==>
      && a in l.blocks && l.start <= a && l.blocks[a].size >= ALIGN
      && End(l, a) <= l.brk
      && l.blocks[a].next == (if End(l, a) == l.brk then None else Some(End(l, a)))
      && (End(l, a) < l.brk ==> End(l, a) in l.members && End(l, a) in l.blocks && l.blocks[End(l, a)].prev == Some(a))
      && (if a == l.start then l.blocks[a].prev == None
          else l.blocks[a].prev.Some? && l.blocks[a].prev.value in l.members && End(l, l.blocks[a].prev.value) == a)
  }

  predicate Aligned(l: List, a: nat) {
    a in l.members && a in l.blocks ==> a % ALIGN == 0 && l.blocks[a].size % ALIGN == 0
  }

  predicate Apart(l: List, a: nat, b: nat) {
    a in l.members && b in l.members && a < b ==> End(l, a) <= b
  }

  /** No two neighbours are both free. */
  predicate Coalesced(l: List, a: nat) {
    a in l.members && End(l, a) < l.brk ==> !(IsFree(l, a) && IsFree(l, End(l, a)))
  }

  ghost predicate Tiled(l: List) {
    && l.start in l.members && l.start < l.brk && l.start % PAGE_SIZE == 0 && l.brk % PAGE_SIZE == 0
    && (forall a: nat :: BlockOk(l, a))
    && (forall a: nat :: Aligned(l, a))
    && (forall a: nat, b: nat :: Apart(l, a, b))
  }

  ghost predicate ListOk(l: List) {
    Tiled(l) && forall a: nat :: Coalesced(l, a)
  }

  // ----- what a well-formed list means

  /** The blocks in use: the address of each, and the size of its payload. */
  function Live(l: List): map<nat, nat> {
    map a | a in l.members && a in l.blocks && !l.blocks[a].free :: l.blocks[a].size
  }

  /** The block that covers address `x`, searched from block `a` on. */
  ghost function Covering(l: List, a: nat, x: nat): (r: nat)
    requires Tiled(l) && a in l.members && a <= x < l.brk
    ensures r in l.members && r <= x < End(l, r)
    decreases l.brk - a
  {
    assert BlockOk(l, a);
    if x < End(l, a) then a else Covering(l, End(l, a), x)
  }

  /** The blocks, headers included, tile the range up to the break: every address lies in exactly one. */
  lemma BlocksTile(l: List, x: nat)
    requires Tiled(l) && l.start <= x < l.brk
    ensures exists a: nat ::
              && a in l.members && a <= x < End(l, a)
              && forall b: nat :: b in l.members && b <= x < End(l, b) ==> b == a
  {
    var a := Covering(l, l.start, x);
    forall b: nat | b in l.members && b <= x < End(l, b) ensures b == a {
      assert Apart(l, a, b) && Apart(l, b, a);
    }
  }

  /** Payloads are aligned, inside the range, and disjoint from each other and from all headers. */
  lemma PayloadsAreDisjoint(l: List, a: nat, b: nat)
    requires Tiled(l) && a in l.members && b in l.members && a != b
    ensures (a + HEADER) % ALIGN == 0 && l.start <= a && End(l, a) <= l.brk
    ensures End(l, a) <= b || End(l, b) <= a
  {
    assert BlockOk(l, a) && Aligned(l, a) && Apart(l, a, b) && Apart(l, b, a);
  }

  /** One free block of `brk - start - 32` bytes. */
  predicate OneFreeBlock(l: List) {
    && l.members == {l.start} && l.start in l.blocks
    && l.blocks[l.start].free && l.blocks[l.start].next == None == l.blocks[l.start].prev
    && l.start + HEADER + l.blocks[l.start].size == l.brk
  }

  /** When nothing is in use there is one block, and it is everything. */
  lemma AllFreeIsOneBlock(l: List)
    requires ListOk(l) && Live(l) == map[]
    ensures OneFreeBlock(l)
  {
    assert BlockOk(l, l.start) && Coalesced(l, l.start);
    assert l.start !in Live(l);
    assert End(l, l.start) == l.brk by {
      assert BlockOk(l, End(l, l.start)) && End(l, l.start) !in Live(l);
    }
    forall b: nat | b in l.members ensures b == l.start {
      assert BlockOk(l, b) && Apart(l, l.start, b);
    }
  }

  // ----- the blocks in use determine the list

  /** From a common block on, two lists with the same blocks in use have the same blocks. */
  lemma {:induction false} SameFrom(l: List, m: List, a: nat, x: nat)
    requires ListOk(l) && ListOk(m) && l.start == m.start && l.brk == m.brk && Live(l) == Live(m)
    requires a in l.members && a in m.members && x in l.members && a <= x
    ensures x in m.members && x in l.blocks && x in m.blocks && l.blocks[x].size == m.blocks[x].size
            && IsFree(l, x) == IsFree(m, x)
    decreases l.brk - a
  {
    SameBlock(l, m, a);
    assert BlockOk(l, a) && BlockOk(m, a) && BlockOk(l, x);
    if a < x {
      assert Apart(l, a, x);
      SameFrom(l, m, End(l, a), x);
    }
  }

  lemma SameBlock(l: List, m: List, a: nat)
    requires ListOk(l) && ListOk(m) && l.start == m.start && l.brk == m.brk && Live(l) == Live(m)
    requires a in l.members && a in m.members
    ensures a in l.blocks && a in m.blocks && l.blocks[a].size == m.blocks[a].size && IsFree(l, a) == IsFree(m, a)
  {
    assert BlockOk(l, a) && BlockOk(m, a);
    assert a in Live(l) <==> a in Live(m);
    if a in Live(l) {
      assert Live(l)[a] == Live(m)[a];
    } else {
      FreeUpToNextLive(l, m, a);
      FreeUpToNextLive(m, l, a);
    }
  }

  /** A free block does not end before the free block of the other list at the same place does. */
  lemma FreeUpToNextLive(l: List, m: List, a: nat)
    requires ListOk(l) && ListOk(m) && l.start == m.start && l.brk == m.brk && Live(l) == Live(m)
    requires a in l.members && a in m.members && IsFree(l, a) && IsFree(m, a)
    ensures End(m, a) <= End(l, a)
  {
    assert BlockOk(l, a) && BlockOk(m, a) && Coalesced(l, a);
    var e := End(l, a);
    if e < l.brk {
      assert BlockOk(l, e) && e in Live(l) && e in Live(m);
      assert Apart(m, a, e);
    }
  }

  /** The blocks in use and the break determine the whole list: there is no other well-formed list. */
  lemma LiveDeterminesList(l: List, m: List)
    requires ListOk(l) && ListOk(m) && l.start == m.start && l.brk == m.brk && Live(l) == Live(m)
    ensures l.members == m.members
    ensures forall a: nat | a in l.members :: a in l.blocks && a in m.blocks && l.blocks[a] == m.blocks[a]
  {
    forall x: nat | x in l.members || x in m.members
      ensures x in l.members && x in m.members && x in l.blocks && x in m.blocks
      ensures l.blocks[x].size == m.blocks[x].size && IsFree(l, x) == IsFree(m, x)
    {
      assert BlockOk(l, x) && BlockOk(m, x);
      if x in l.members { SameFrom(l, m, l.start, x); } else { SameFrom(m, l, l.start, x); }
    }
    forall a: nat | a in l.members ensures a in l.blocks && a in m.blocks && l.blocks[a] == m.blocks[a] {
      assert BlockOk(l, a) && BlockOk(m, a);
      if a != l.start {
        var p, q := l.blocks[a].prev.value, m.blocks[a].prev.value;
        assert BlockOk(l, p) && BlockOk(l, q) && BlockOk(m, q) && Apart(l, p, q) && Apart(l, q, p);
      }
    }
  }

  lemma SumIsAligned(a: nat, b: nat)
    requires a % ALIGN == 0 && b % ALIGN == 0
    ensures (a + b) % ALIGN == 0 && (a + HEADER + b) % ALIGN == 0
  {
    var x, y := a / ALIGN, b / ALIGN;
    assert a == 8 * x && b == 8 * y;
    assert a + b == 8 * (x + y) && a + HEADER + b == 8 * (x + y + 4);
  }

  lemma PagesAreAligned(a: nat)
    requires a % PAGE_SIZE == 0
    ensures a % ALIGN == 0
  {
  }

  lemma RestIsAligned(size: nat, total: nat)
    requires size % ALIGN == 0 && total % ALIGN == 0 && size >= total + HEADER
    ensures (size - total - HEADER) % ALIGN == 0
  {
    var x, y := size / ALIGN, total / ALIGN;
    assert size - total - HEADER == 8 * (x - y - 4);
  }

  lemma LessHeaderIsAligned(a: nat)
    requires a % ALIGN == 0 && a >= HEADER
    ensures (a - HEADER) % ALIGN == 0
  {
  }

  // ----- the four changes to a list

  function SetPrev(blocks: map<nat, Header>, a: Option<nat>, prev: nat): map<nat, Header> {
    if a.Some? && a.value in blocks then blocks[a.value := blocks[a.value].(prev := Some(prev))] else blocks
  }

  /** The block at `a` keeps `total` bytes, the rest becomes a free block of its own. */
  function Split(l: List, a: nat, total: nat): List
    requires a in l.blocks && l.blocks[a].size >= total + HEADER
  {
    var h, b := l.blocks[a], a + HEADER + total;
    var blocks := SetPrev(l.blocks[b := Header(h.size - total - HEADER, true, h.next, Some(a))], h.next, b);
    l.(blocks := blocks[a := blocks[a].(next := Some(b), size := total)], members := l.members + {b})
  }

  function Mark(l: List, a: nat, free: bool): List
    requires a in l.blocks
  {
    l.(blocks := l.blocks[a := l.blocks[a].(free := free)])
  }

  /** The block at `a` takes in the one behind it. */
  function Merge(l: List, a: nat): List
    requires a in l.blocks && l.blocks[a].next.Some? && l.blocks[a].next.value in l.blocks
  {
    var n := l.blocks[a].next.value;
    var h := l.blocks[n];
    var blocks := l.blocks[a := l.blocks[a].(size := l.blocks[a].size + HEADER + h.size, next := h.next)];
    l.(blocks := SetPrev(blocks, h.next, a), members := l.members - {n})
  }

  /** `bytes` more at the end: for the last block if that is free, else as a new one. */
  function Extend(l: List, last: nat, bytes: nat): List
    requires last in l.blocks && bytes >= HEADER
  {
    var h := l.blocks[last];
    if h.free then
      l.(blocks := l.blocks[last := h.(size := h.size + bytes)], brk := l.brk + bytes)
    else
      l.(blocks := l.blocks[l.brk := Header(bytes - HEADER, true, None, Some(last))][last := h.(next := Some(l.brk))],
         members := l.members + {l.brk}, brk := l.brk + bytes)
  }

  /** Memory has been written only where a block of the list had or has its header. */
  ghost predicate WritesOnlyHeaders(l: List, m: List) {
    forall x: nat | x !in l.members && x !in m.members ::
      (x in l.blocks <==> x in m.blocks) && (x in l.blocks ==> m.blocks[x] == l.blocks[x])
  }

  lemma WritesTwice(l: List, m: List, n: List)
    requires WritesOnlyHeaders(l, m) && WritesOnlyHeaders(m, n)
    requires m.members <= l.members + n.members
    ensures WritesOnlyHeaders(l, n)
  {
  }

  /** A heap of one page is one free block. */
  lemma OnlyBlockOk(l: List, start: nat)
    requires start % PAGE_SIZE == 0 && l.members == {start} && l.start == start && l.brk == start + PAGE_SIZE
    requires start in l.blocks && l.blocks[start] == Header(PAGE_SIZE - HEADER, true, None, None)
    ensures ListOk(l) && Live(l) == map[]
  {
    forall a: nat ensures BlockOk(l, a) && Aligned(l, a) && Coalesced(l, a) {
    }
    forall a: nat, b: nat ensures Apart(l, a, b) {
    }
  }

  // ----- splitting

  ghost predicate Splittable(l: List, a: nat, total: nat) {
    && Tiled(l) && a in l.members && IsFree(l, a) && total >= ALIGN && total % ALIGN == 0
    && l.blocks[a].size >= total + HEADER + MIN_SPLIT_SIZE
  }

  lemma RestIsNew(l: List, a: nat, total: nat)
    requires Splittable(l, a, total)
    ensures a + HEADER + total !in l.members
    ensures BlockOk(l, a)
  {
    assert Apart(l, a, a + HEADER + total) && BlockOk(l, a);
  }

  lemma SplitHalves(l: List, a: nat, total: nat)
    requires Splittable(l, a, total)
    ensures BlockOk(Split(l, a, total), a) && BlockOk(Split(l, a, total), a + HEADER + total)
  {
    RestIsNew(l, a, total);
    if a != l.start { assert BlockOk(l, l.blocks[a].prev.value); }
  }

  lemma SplitOther(l: List, a: nat, total: nat, x: nat)
    requires Splittable(l, a, total) && x != a && x != a + HEADER + total
    ensures BlockOk(Split(l, a, total), x)
  {
    RestIsNew(l, a, total);
    assert BlockOk(l, x);
    if x in l.members {
      assert End(l, x) != a + HEADER + total;
      if x != l.start { assert BlockOk(l, l.blocks[x].prev.value); }
    }
  }

  lemma SplitBlockOk(l: List, a: nat, total: nat, x: nat)
    requires Splittable(l, a, total)
    ensures BlockOk(Split(l, a, total), x)
  {
    if x == a || x == a + HEADER + total {
      SplitHalves(l, a, total);
    } else {
      SplitOther(l, a, total, x);
    }
  }

  lemma SplitAligned(l: List, a: nat, total: nat, x: nat)
    requires Splittable(l, a, total)
    ensures Aligned(Split(l, a, total), x)
  {
    RestIsNew(l, a, total);
    assert Aligned(l, x) && Aligned(l, a);
    SumIsAligned(a, total);
    RestIsAligned(l.blocks[a].size, total);
  }

  lemma SplitApart(l: List, a: nat, total: nat, x: nat, y: nat)
    requires Splittable(l, a, total)
    ensures Apart(Split(l, a, total), x, y)
  {
    RestIsNew(l, a, total);
    assert Apart(l, x, y) && Apart(l, a, y) && Apart(l, x, a) && Apart(l, a, x);
    assert BlockOk(l, x) && BlockOk(l, y);
  }

  lemma SplitLive(l: List, a: nat, total: nat)
    requires Splittable(l, a, total)
    ensures Live(Split(l, a, total)) == Live(l) && WritesOnlyHeaders(l, Split(l, a, total))
  {
    RestIsNew(l, a, total);
  }

  lemma SplitKeepsOrder(l: List, a: nat, total: nat)
    requires Splittable(l, a, total)
    ensures Tiled(Split(l, a, total)) && Live(Split(l, a, total)) == Live(l) && WritesOnlyHeaders(l, Split(l, a, total))
  {
    var m := Split(l, a, total);
    RestIsNew(l, a, total);
    forall x: nat ensures BlockOk(m, x) {
      SplitBlockOk(l, a, total, x);
    }
    forall x: nat ensures Aligned(m, x) {
      SplitAligned(l, a, total, x);
    }
    forall x: nat, y: nat ensures Apart(m, x, y) {
      SplitApart(l, a, total, x, y);
    }
    SplitLive(l, a, total);
  }

  // ----- marking

  lemma MarkKeepsOrder(l: List, a: nat, free: bool)
    requires Tiled(l) && a in l.members && a in l.blocks
    ensures Tiled(Mark(l, a, free)) && WritesOnlyHeaders(l, Mark(l, a, free))
    ensures Live(Mark(l, a, free)) == if free then Live(l) - {a} else Live(l)[a := l.blocks[a].size]
  {
    var m := Mark(l, a, free);
    forall x: nat ensures BlockOk(m, x) && Aligned(m, x) {
      assert BlockOk(l, x) && Aligned(l, x);
    }
    forall x: nat, y: nat ensures Apart(m, x, y) {
      assert Apart(l, x, y);
    }
  }

  // ----- merging

  ghost predicate Mergeable(l: List, a: nat) {
    Tiled(l) && a in l.members && IsFree(l, a) && l.blocks[a].next.Some? && IsFree(l, l.blocks[a].next.value)
  }

  lemma NextIsNeighbour(l: List, a: nat)
    requires Mergeable(l, a)
    ensures l.blocks[a].next.value == End(l, a) && End(l, a) in l.members && End(l, a) != l.start
    ensures BlockOk(l, a) && BlockOk(l, End(l, a))
  {
    assert BlockOk(l, a) && BlockOk(l, End(l, a));
  }

  lemma MergeBlockOk(l: List, a: nat, x: nat)
    requires Mergeable(l, a)
    ensures BlockOk(Merge(l, a), x)
  {
    NextIsNeighbour(l, a);
    var n := End(l, a);
    assert BlockOk(l, x);
    if x in l.members && x != a && x != n {
      assert End(l, x) != n by {
        assert Apart(l, x, a) && Apart(l, a, x);
      }
      if x != l.start {
        var p := l.blocks[x].prev.value;
        assert BlockOk(l, p);
      }
    }
  }

  lemma MergeApart(l: List, a: nat, x: nat, y: nat)
    requires Mergeable(l, a)
    ensures Apart(Merge(l, a), x, y)
  {
    NextIsNeighbour(l, a);
    assert Apart(l, x, y) && Apart(l, End(l, a), y) && Apart(l, y, End(l, a));
    assert BlockOk(l, x) && BlockOk(l, y);
  }

  lemma MergeAligned(l: List, a: nat, x: nat)
    requires Mergeable(l, a)
    ensures Aligned(Merge(l, a), x)
  {
    NextIsNeighbour(l, a);
    assert Aligned(l, x) && Aligned(l, End(l, a)) && Aligned(l, a);
    SumIsAligned(l.blocks[a].size, l.blocks[End(l, a)].size);
  }

  lemma MergeLive(l: List, a: nat)
    requires Mergeable(l, a)
    ensures Live(Merge(l, a)) == Live(l) && WritesOnlyHeaders(l, Merge(l, a))
  {
    NextIsNeighbour(l, a);
  }

  lemma MergeKeepsOrder(l: List, a: nat)
    requires Mergeable(l, a)
    ensures Tiled(Merge(l, a)) && Live(Merge(l, a)) == Live(l) && WritesOnlyHeaders(l, Merge(l, a))
    ensures a in Merge(l, a).members && IsFree(Merge(l, a), a)
  {
    NextIsNeighbour(l, a);
    var m := Merge(l, a);
    forall x: nat ensures BlockOk(m, x) {
      MergeBlockOk(l, a, x);
    }
    forall x: nat ensures Aligned(m, x) {
      MergeAligned(l, a, x);
    }
    forall x: nat, y: nat ensures Apart(m, x, y) {
      MergeApart(l, a, x, y);
    }
    MergeLive(l, a);
  }

  // ----- growing

  lemma BreakIsNoBlock(l: List)
    requires Tiled(l)
    ensures l.brk !in l.members
  {
    assert BlockOk(l, l.brk);
  }

  ghost predicate Extendable(l: List, last: nat, bytes: nat) {
    ListOk(l) && last in l.members && last in l.blocks && End(l, last) == l.brk && bytes > 0 && bytes % PAGE_SIZE == 0
  }

  lemma ExtendAligned(l: List, last: nat, bytes: nat, x: nat)
    requires Extendable(l, last, bytes)
    ensures Aligned(Extend(l, last, bytes), x)
  {
    assert Aligned(l, x) && Aligned(l, last);
    PagesAreAligned(bytes);
    PagesAreAligned(l.brk);
    if l.blocks[last].free {
      SumIsAligned(l.blocks[last].size, bytes);
    } else {
      LessHeaderIsAligned(bytes);
    }
  }

  lemma ExtendApart(l: List, last: nat, bytes: nat, x: nat, y: nat)
    requires Extendable(l, last, bytes)
    ensures Apart(Extend(l, last, bytes), x, y)
  {
    assert Apart(l, x, y) && BlockOk(l, x) && BlockOk(l, y);
  }

  lemma ExtendLive(l: List, last: nat, bytes: nat)
    requires Extendable(l, last, bytes)
    ensures Live(Extend(l, last, bytes)) == Live(l) && WritesOnlyHeaders(l, Extend(l, last, bytes))
  {
    BreakIsNoBlock(l);
  }

  lemma ExtendBlockOk(l: List, last: nat, bytes: nat, x: nat)
    requires Extendable(l, last, bytes)
    ensures BlockOk(Extend(l, last, bytes), x) && Coalesced(Extend(l, last, bytes), x)
  {
    BreakIsNoBlock(l);
    assert BlockOk(l, last) && BlockOk(l, x) && Coalesced(l, x);
    if x in l.members && x != last {
      assert End(l, x) != l.brk by {
        assert Apart(l, x, last) && Apart(l, last, x);
      }
    }
  }

  lemma ExtendKeepsOrder(l: List, last: nat, bytes: nat)
    requires Extendable(l, last, bytes)
    ensures ListOk(Extend(l, last, bytes)) && Live(Extend(l, last, bytes)) == Live(l)
            && WritesOnlyHeaders(l, Extend(l, last, bytes))
    ensures var a := if l.blocks[last].free then last else l.brk;
      a in Extend(l, last, bytes).members && IsFree(Extend(l, last, bytes), a)
      && Extend(l, last, bytes).blocks[a].size >= bytes - HEADER
  {
    var m := Extend(l, last, bytes);
    BreakIsNoBlock(l);
    forall x: nat ensures BlockOk(m, x) && Coalesced(m, x) {
      ExtendBlockOk(l, last, bytes, x);
    }
    forall x: nat ensures Aligned(m, x) {
      ExtendAligned(l, last, bytes, x);
    }
    forall x: nat, y: nat ensures Apart(m, x, y) {
      ExtendApart(l, last, bytes, x, y);
    }
    ExtendLive(l, last, bytes);
  }

  // ----- taking a block

  predicate Fits(l: List, total: nat, a: nat) {
    a in l.members && a in l.blocks && l.blocks[a].free && l.blocks[a].size >= total
  }

  ghost predicate HasFit(l: List, total: nat) {
    exists a: nat :: Fits(l, total, a)
  }

  /** The lowest block that fits. */
  ghost predicate FirstFits(l: List, total: nat, a: nat) {
    Fits(l, total, a) && forall b: nat | Fits(l, total, b) :: a <= b
  }

  /** The free block at `a` is put to use: what `total` leaves over becomes a free block if it is worth one. */
  function Taken(l: List, a: nat, total: nat): List
    requires a in l.blocks
  {
    if l.blocks[a].size >= total + HEADER + MIN_SPLIT_SIZE then Mark(Split(l, a, total), a, false)
    else Mark(l, a, false)
  }

  /** The rest of a block is cut off if a header and 32 bytes are left, and goes along with it otherwise. */
  function SizeTaken(size: nat, total: nat): nat {
    if size >= total + 64 then total else size
  }

  lemma TakenKeepsOrder(l: List, a: nat, total: nat)
    requires ListOk(l) && Fits(l, total, a) && total >= ALIGN && total % ALIGN == 0
    ensures ListOk(Taken(l, a, total)) && WritesOnlyHeaders(l, Taken(l, a, total))
    ensures a in Live(Taken(l, a, total)) && a !in Live(l)
    ensures total <= Live(Taken(l, a, total))[a] < total + HEADER + MIN_SPLIT_SIZE
    ensures Live(Taken(l, a, total))[a] == SizeTaken(l.blocks[a].size, total)
    ensures Live(Taken(l, a, total)) == Live(l)[a := Live(Taken(l, a, total))[a]]
    ensures l.members <= Taken(l, a, total).members
  {
    var m := Taken(l, a, total);
    if l.blocks[a].size >= total + HEADER + MIN_SPLIT_SIZE {
      SplitKeepsOrder(l, a, total);
      MarkKeepsOrder(Split(l, a, total), a, false);
      WritesTwice(l, Split(l, a, total), m);
    } else {
      MarkKeepsOrder(l, a, false);
    }
    forall x: nat ensures Coalesced(m, x) {
      TakenCoalesced(l, a, total, x);
    }
  }

  lemma TakenCoalesced(l: List, a: nat, total: nat, x: nat)
    requires ListOk(l) && Fits(l, total, a) && total >= ALIGN && total % ALIGN == 0
    ensures Coalesced(Taken(l, a, total), x)
  {
    assert Coalesced(l, x) && Coalesced(l, a) && BlockOk(l, a) && BlockOk(l, x);
    if l.blocks[a].size >= total + HEADER + MIN_SPLIT_SIZE {
      RestIsNew(l, a, total);
    }
  }

  // ----- freeing a block

  /** The block at `a` takes in its neighbour if that is free. */
  function Absorb(l: List, a: nat): List {
    if a in l.blocks && l.blocks[a].next.Some? && IsFree(l, l.blocks[a].next.value) then Merge(l, a) else l
  }

  /** The block before `a` takes `a` in if it is free. */
  function Join(l: List, a: nat): List {
    if a in l.blocks && l.blocks[a].prev.Some? && IsFree(l, l.blocks[a].prev.value)
       && l.blocks[l.blocks[a].prev.value].next == Some(a)
    then Merge(l, l.blocks[a].prev.value) else l
  }

  function Freed(l: List, a: nat): List
    requires a in l.blocks
  {
    Join(Absorb(Mark(l, a, true), a), a)
  }

  lemma AbsorbKeepsOrder(l: List, a: nat)
    requires Tiled(l) && a in l.members && IsFree(l, a)
    requires forall x: nat :: x != a && End(l, x) != a ==> Coalesced(l, x)
    ensures var m := Absorb(l, a);
      && Tiled(m) && a in m.members && IsFree(m, a) && Live(m) == Live(l) && WritesOnlyHeaders(l, m)
      && m.members <= l.members
      && forall x: nat :: End(m, x) != a ==> Coalesced(m, x)
  {
    var m := Absorb(l, a);
    assert BlockOk(l, a);
    if l.blocks[a].next.Some? && IsFree(l, l.blocks[a].next.value) {
      NextIsNeighbour(l, a);
      MergeKeepsOrder(l, a);
    }
    forall x: nat | End(m, x) != a ensures Coalesced(m, x) {
      AbsorbCoalesced(l, a, x);
    }
  }

  lemma AbsorbCoalesced(l: List, a: nat, x: nat)
    requires Tiled(l) && a in l.members && IsFree(l, a) && End(Absorb(l, a), x) != a
    requires forall x: nat :: x != a && End(l, x) != a ==> Coalesced(l, x)
    ensures Coalesced(Absorb(l, a), x)
  {
    assert BlockOk(l, a) && BlockOk(l, x) && BlockOk(l, End(l, a));
    if x == a {
      assert Coalesced(l, End(l, a));
    } else {
      assert Coalesced(l, x) || End(l, x) == a;
      assert Apart(l, x, a) && Apart(l, a, x);
    }
  }

  lemma JoinKeepsOrder(l: List, a: nat)
    requires Tiled(l) && a in l.members && IsFree(l, a)
    requires forall x: nat :: End(l, x) != a ==> Coalesced(l, x)
    ensures ListOk(Join(l, a)) && Live(Join(l, a)) == Live(l) && WritesOnlyHeaders(l, Join(l, a))
            && Join(l, a).members <= l.members
  {
    var m := Join(l, a);
    assert BlockOk(l, a);
    if l.blocks[a].prev.Some? {
      var p := l.blocks[a].prev.value;
      assert BlockOk(l, p);
      if IsFree(l, p) { MergeKeepsOrder(l, p); }
    }
    forall x: nat ensures Coalesced(m, x) {
      JoinCoalesced(l, a, x);
    }
  }

  lemma JoinCoalesced(l: List, a: nat, x: nat)
    requires Tiled(l) && a in l.members && IsFree(l, a)
    requires forall x: nat :: End(l, x) != a ==> Coalesced(l, x)
    ensures Coalesced(Join(l, a), x)
  {
    assert BlockOk(l, a) && BlockOk(l, x) && Coalesced(l, a);
    if a != l.start { assert BlockOk(l, l.blocks[a].prev.value); }
    if x in l.members {
      assert Coalesced(l, x) || End(l, x) == a;
      assert Apart(l, x, a) && Apart(l, a, x);
    }
  }

  /** Freeing keeps the list in order and takes exactly this block out of use. */
  lemma FreedKeepsOrder(l: List, a: nat)
    requires ListOk(l) && a in l.members && a in l.blocks
    ensures ListOk(Freed(l, a)) && Live(Freed(l, a)) == Live(l) - {a} && WritesOnlyHeaders(l, Freed(l, a))
    ensures var m := Mark(l, a, true);
      Tiled(m) && IsFree(m, a) && Tiled(Absorb(m, a)) && IsFree(Absorb(m, a), a) && a in Absorb(m, a).members
  {
    var l0 := Mark(l, a, true);
    MarkKeepsOrder(l, a, true);
    forall x: nat | x != a && End(l0, x) != a ensures Coalesced(l0, x) {
      assert Coalesced(l, x);
    }
    var l1 := Absorb(l0, a);
    AbsorbKeepsOrder(l0, a);
    JoinKeepsOrder(l1, a);
    WritesTwice(l, l0, l1);
    WritesTwice(l, l1, Join(l1, a));
  }
}
