/** The kernel heap: first fit with splitting, growth by pages, and coalescing on both sides. */
module Heap {
  import opened HeapBlocks
  import opened Machine
  import PageTables
  import opened VirtualMemory
  import opened Wrappers

  /** Where PML4 entry 511 begins. */
  const TOP_SLOT := 0xFFFF_FF80_0000_0000

  lemma IndexOfKernelPage(va: nat)
    requires TOP_SLOT <= va < TWO64
    ensures PageTables.IndexOf(va).l4 == 511
  {
    assert va / 0x80_0000_0000 == 0x1FF_FFFF;
  }

  /** Different pages up there have different table indices. */
  lemma IndexDistinguishesPages(va: nat, vb: nat)
    requires TOP_SLOT <= va < TWO64 && TOP_SLOT <= vb < TWO64 && va % PAGE_SIZE == 0 && vb % PAGE_SIZE == 0
    requires PageTables.IndexOf(va) == PageTables.IndexOf(vb)
    ensures va == vb
  {
    IndexDigits(va);
    IndexDigits(vb);
  }

  lemma IndexDigits(va: nat)
    requires TOP_SLOT <= va < TWO64
    ensures var ix := PageTables.IndexOf(va); va / PAGE_SIZE == ((0x1FF_FFFF * 512 + ix.l3) * 512 + ix.l2) * 512 + ix.l1
  {
    var p := va / PAGE_SIZE;
    assert va / 0x20_0000 == p / 512 && va / 0x4000_0000 == p / 512 / 512 && va / 0x80_0000_0000 == p / 512 / 512 / 512;
    assert p / 512 / 512 / 512 == 0x1FF_FFFF;
  }

  /** `(size + ALIGN - 1) & ~(ALIGN - 1)` */
  function Rounded(size: nat): (r: nat)
    ensures size <= r < size + ALIGN && r % ALIGN == 0
  {
    (size + ALIGN - 1) / ALIGN * ALIGN
  }

  /** The next page boundary. */
  function PageUp(a: nat): (r: nat)
    ensures a <= r < a + PAGE_SIZE && r % PAGE_SIZE == 0 && (a % PAGE_SIZE == 0 ==> r == a)
  {
    (a + PAGE_SIZE - 1) / PAGE_SIZE * PAGE_SIZE
  }

  /** A sum of two 64-bit numbers. */
  function Wrapped(sum: nat): nat {
    if sum < TWO64 then sum else sum - TWO64
  }

  lemma WholePages(a: nat, pages: nat)
    requires a % PAGE_SIZE == 0
    ensures PageUp(a) == a && (a + pages * PAGE_SIZE) % PAGE_SIZE == 0
            && PageUp(a + pages * PAGE_SIZE) == a + pages * PAGE_SIZE
  {
    assert (a + pages * PAGE_SIZE) / PAGE_SIZE == a / PAGE_SIZE + pages;
  }

  function NextPage(va: nat): nat {
    va + PAGE_SIZE
  }

  // ----- what growing costs

  /** One for the page at `va` itself, and one for each table on the way to it that is missing in `mem`, once the pages
      from `from` up to `va` have been mapped: the last of them has the most tables in common with it. */
  ghost function CostOf(mem: PageTables.Memory, root: PageTables.PageAddress, from: nat, va: nat): nat {
    1 + StillMissing(mem, root, from, va, va)
  }

  ghost function StillMissing(mem: PageTables.Memory, root: PageTables.PageAddress, from: nat, va: nat, w: nat): nat {
    if va <= from || va < PAGE_SIZE then PageTables.Missing(mem, root, PageTables.IndexOf(w))
    else PageTables.MissingBeside(mem, root, PageTables.IndexOf(va - PAGE_SIZE), PageTables.IndexOf(w))
  }

  /** What mapping the pages from `va` up to `to` costs, when those from `from` up to `va` have been mapped. */
  ghost function Cost(mem: PageTables.Memory, root: PageTables.PageAddress, from: nat, va: nat, to: nat): nat
    decreases if va < to then to - va else 0
  {
    if va >= to then 0 else CostOf(mem, root, from, va) + Cost(mem, root, from, NextPage(va), to)
  }

  /** Addresses further up have the larger indices. */
  lemma IndexGrows(x: nat, y: nat)
    requires TOP_SLOT <= x <= y < TWO64
    ensures var i, j := PageTables.IndexOf(x), PageTables.IndexOf(y);
      i.l4 == j.l4 == 511 && i.l3 <= j.l3 && (i.l3 == j.l3 ==> i.l2 <= j.l2)
  {
    IndexOfKernelPage(x);
    IndexOfKernelPage(y);
    IndexDigits(x);
    IndexDigits(y);
  }

  /** What is missing for a page further up, before and after the page at `va` has been mapped: `before` in the state
      with the pages below `va` mapped. */
  lemma StillMissingAfter(mem: PageTables.Memory, root: PageTables.PageAddress, from: nat, va: nat, w: nat, m: nat,
                          m': nat)
    requires TOP_SLOT <= from <= va < w < TWO64 && from % PAGE_SIZE == va % PAGE_SIZE == w % PAGE_SIZE == 0
    requires PageTables.Missing(mem, root, PageTables.IndexOf(w)) <= 2
    requires m == StillMissing(mem, root, from, va, w)
    requires m' == PageTables.Beside(PageTables.IndexOf(va), PageTables.IndexOf(w), m)
    ensures m' == StillMissing(mem, root, from, NextPage(va), w)
  {
    IndexGrows(va, w);
    if va > from {
      IndexGrows(va - PAGE_SIZE, va);
      BesideTwice(PageTables.IndexOf(va - PAGE_SIZE), PageTables.IndexOf(va), PageTables.IndexOf(w),
                  PageTables.Missing(mem, root, PageTables.IndexOf(w)));
    }
  }

  /** Whoever has tables in common with a page has them in common with one in between. */
  lemma BesideTwice(i: PageTables.Index, j: PageTables.Index, k: PageTables.Index, missing: nat)
    requires i.l3 <= j.l3 <= k.l3 && (i.l3 == j.l3 ==> i.l2 <= j.l2) && (j.l3 == k.l3 ==> j.l2 <= k.l2)
    ensures PageTables.Beside(j, k, PageTables.Beside(i, k, missing)) == PageTables.Beside(j, k, missing)
  {
  }

  lemma FirstPageCosts(mem: PageTables.Memory, root: PageTables.PageAddress, start: nat)
    ensures Cost(mem, root, start, start, start + PAGE_SIZE)
         == 1 + PageTables.Missing(mem, root, PageTables.IndexOf(start))
  {
    assert Cost(mem, root, start, NextPage(start), start + PAGE_SIZE) == 0;
  }

  /** What is missing for the page at `w` in `mem`, where the pages from `from` up to `va` have been mapped since
      `mem0`. */
  ghost predicate MissingOk(mem0: PageTables.Memory, mem: PageTables.Memory, root: PageTables.PageAddress, from: nat,
                            va: nat, end: nat, w: nat)
  {
    va <= w < end && w % PAGE_SIZE == 0 ==>
      && PageTables.Missing(mem, root, PageTables.IndexOf(w)) == StillMissing(mem0, root, from, va, w)
      && PageTables.Missing(mem0, root, PageTables.IndexOf(w)) <= 2
  }

  /** The page at `va` has been mapped. */
  ghost predicate MissingStep(mem: PageTables.Memory, mem': PageTables.Memory, root: PageTables.PageAddress, va: nat,
                              end: nat, w: nat)
  {
    va < w < end && w % PAGE_SIZE == 0 ==>
      PageTables.Missing(mem', root, PageTables.IndexOf(w)) ==
      PageTables.MissingBeside(mem, root, PageTables.IndexOf(va), PageTables.IndexOf(w))
  }

  lemma MissingGoesOn(mem0: PageTables.Memory, mem: PageTables.Memory, mem': PageTables.Memory,
                      root: PageTables.PageAddress, from: nat, va: nat, end: nat)
    requires TOP_SLOT <= from <= va && end < TWO64 && from % PAGE_SIZE == va % PAGE_SIZE == 0
    requires forall w: nat :: MissingOk(mem0, mem, root, from, va, end, w)
    requires forall w: nat :: MissingStep(mem, mem', root, va, end, w)
    ensures forall w: nat :: MissingOk(mem0, mem', root, from, NextPage(va), end, w)
  {
    forall w: nat ensures MissingOk(mem0, mem', root, from, NextPage(va), end, w) {
      assert MissingOk(mem0, mem, root, from, va, end, w) && MissingStep(mem, mem', root, va, end, w);
      MissingGoesOnAt(mem0, mem, mem', root, from, va, end, w);
    }
  }

  lemma MissingGoesOnAt(mem0: PageTables.Memory, mem: PageTables.Memory, mem': PageTables.Memory,
                        root: PageTables.PageAddress, from: nat, va: nat, end: nat, w: nat)
    requires TOP_SLOT <= from <= va && end < TWO64 && from % PAGE_SIZE == va % PAGE_SIZE == 0
    requires MissingOk(mem0, mem, root, from, va, end, w) && MissingStep(mem, mem', root, va, end, w)
    ensures MissingOk(mem0, mem', root, from, NextPage(va), end, w)
  {
    if NextPage(va) <= w < end && w % PAGE_SIZE == 0 {
      StillMissingAfter(mem0, root, from, va, w, PageTables.Missing(mem, root, PageTables.IndexOf(w)),
                        PageTables.Missing(mem', root, PageTables.IndexOf(w)));
    }
  }

  lemma MissingAtFirst(mem: PageTables.Memory, root: PageTables.PageAddress, from: nat, end: nat)
    requires TOP_SLOT <= from && end < TWO64 && PageTables.Entry(mem, root, 511).present
    ensures forall w: nat :: MissingOk(mem, mem, root, from, from, end, w)
  {
    forall w: nat ensures MissingOk(mem, mem, root, from, from, end, w) {
      if from <= w < end { IndexOfKernelPage(w); }
    }
  }

  /** A mapping in the range, seen from the rest of it. */
  lemma MissingInRange(t: PageTables.Tables, free: set<nat>, u: PageTables.Tables, free': set<nat>,
                       root: PageTables.PageAddress, va: nat, start: nat, end: nat, flags: PageTables.Flags)
    requires PageTables.WellFormed(t) && PageTables.WellFormed(u) && PageTables.IsRoot(t, root)
    requires OnlySmallPages(t, start, end) && OnlySmallPages(u, start, end)
    requires TOP_SLOT <= start <= va < end < TWO64 && PageTables.Entry(t.mem, root, 511).present
    requires PageTables.TablesMade(t, free, u, free', root, PageTables.IndexOf(va), flags, true)
    requires forall x: PageTables.PageAddress | x in t.role :: x !in free
    ensures forall w: nat :: MissingStep(t.mem, u.mem, root, va, end, w)
  {
    IndexOfKernelPage(va);
    forall w: nat ensures MissingStep(t.mem, u.mem, root, va, end, w) {
      if va < w < end {
        IndexOfKernelPage(w);
        PageTables.MissingAfterMapping(t, free, u, free', root, PageTables.IndexOf(va), PageTables.IndexOf(w), flags);
      }
    }
  }

  /** Every page from `from` up to `to` has cost the pool at least one of its pages. */
  predicate PaidFor(from: nat, to: nat, before: nat, after: nat) {
    to <= from + (before - after) * PAGE_SIZE
  }

  lemma PaidOneMore(from: nat, to: nat, before: nat, after: nat, after': nat)
    requires PaidFor(from, to, before, after) && after' < after
    ensures PaidFor(from, NextPage(to), before, after')
  {
  }

  lemma PaidPages(from: nat, pages: nat, before: nat, after: nat)
    requires PaidFor(from, from + pages * PAGE_SIZE, before, after)
    ensures pages <= before - after
  {
  }

  lemma PageUpIsLeast(a: nat, b: nat)
    requires b % PAGE_SIZE == 0 && b < a
    ensures b + PAGE_SIZE <= PageUp(a)
  {
  }

  lemma PageUpIsNext(a: nat, b: nat, va: nat)
    requires va % PAGE_SIZE == 0 && (va == PageUp(a) || b < va < b + PAGE_SIZE || va == b) && b <= va && PageUp(a) <= va
    ensures a <= b ==> PageUp(b) == va
  {
  }

  function PagesFor(total: nat): (r: nat)
    ensures total + HEADER <= r * PAGE_SIZE < total + HEADER + PAGE_SIZE
  {
    (total + HEADER + PAGE_SIZE - 1) / PAGE_SIZE
  }

  // ----- the memory behind the heap

  /** What the page at an address is mapped to. */
  ghost function View(mem: PageTables.Memory, root: PageTables.PageAddress): nat -> Option<PageTables.Word> {
    (va: nat) => PageTables.Walk(mem, root, PageTables.IndexOf(va))
  }

  /** The page at `va` is mapped for writing in the kernel half, to a frame that is not in the pool. */
  ghost predicate BackedAt(view: nat -> Option<PageTables.Word>, free: set<nat>, start: nat, to: nat, va: nat) {
    start <= va < to && va % PAGE_SIZE == 0 ==>
      view(va).Some? && view(va).value.writable && !view(va).value.user && view(va).value.addr !in free
  }

  ghost predicate OwnFrame(view: nat -> Option<PageTables.Word>, start: nat, to: nat, va: nat, vb: nat) {
    start <= va < vb < to && va % PAGE_SIZE == 0 && vb % PAGE_SIZE == 0 && view(va).Some? && view(vb).Some? ==>
      view(va).value.addr != view(vb).value.addr
  }

  /** Every page of the range is mapped to a frame of its own. */
  ghost predicate Backing(view: nat -> Option<PageTables.Word>, free: set<nat>, start: nat, to: nat) {
    && (forall va: nat :: BackedAt(view, free, start, to, va))
    && (forall va: nat, vb: nat :: OwnFrame(view, start, to, va, vb))
  }

  lemma BackingKept(view: nat -> Option<PageTables.Word>, view': nat -> Option<PageTables.Word>,
                    free: set<nat>, free': set<nat>, start: nat, to: nat, to': nat)
    requires Backing(view, free, start, to) && free' <= free && to' <= to
    requires forall va: nat | start <= va < to && va % PAGE_SIZE == 0 :: view'(va) == view(va)
    ensures Backing(view', free', start, to')
  {
    forall va: nat ensures BackedAt(view', free', start, to', va) {
      assert BackedAt(view, free, start, to, va);
    }
    forall va: nat, vb: nat ensures OwnFrame(view', start, to', va, vb) {
      assert OwnFrame(view, start, to, va, vb);
    }
  }

  lemma PageAdded(view: nat -> Option<PageTables.Word>, view': nat -> Option<PageTables.Word>,
                  free: set<nat>, free': set<nat>, start: nat, va: nat, w: PageTables.Word)
    requires Backing(view, free, start, va) && free' <= free && va % PAGE_SIZE == 0
    requires forall vb: nat | start <= vb < va && vb % PAGE_SIZE == 0 :: view'(vb) == view(vb)
    requires view'(va) == Some(w) && w.writable && !w.user && w.addr in free && w.addr !in free'
    ensures Backing(view', free', start, va + PAGE_SIZE)
  {
    var to := va + PAGE_SIZE;
    forall vb: nat ensures BackedAt(view', free', start, to, vb) {
      assert BackedAt(view, free, start, va, vb);
    }
    forall vb: nat, vc: nat ensures OwnFrame(view', start, to, vb, vc) {
      assert OwnFrame(view, start, va, vb, vc) && BackedAt(view, free, start, va, vb);
    }
  }

  /** Mapping one more page of the top slot leaves the pages below it as they were. */
  lemma OldPageStays(t: PageTables.Tables, rest: set<nat>, u: PageTables.Tables, root: PageTables.PageAddress,
                     va: nat, vb: nat, w: PageTables.Word)
    requires PageTables.IsRoot(t, root) && PageTables.MappedOne(t, rest, u, root, PageTables.IndexOf(va), w)
    requires TOP_SLOT <= vb < va < TWO64 && va % PAGE_SIZE == 0 && vb % PAGE_SIZE == 0
    ensures View(u.mem, root)(vb) == View(t.mem, root)(vb)
  {
    if PageTables.IndexOf(vb) == PageTables.IndexOf(va) { IndexDistinguishesPages(va, vb); }
  }

  /** Everything from `start` to `to` is memory of the heap's own, as the tables stand. */
  ghost predicate Backed(mem: PageTables.Memory, root: PageTables.PageAddress, free: set<nat>, start: nat, to: nat) {
    Backing(View(mem, root), free, start, to)
  }

  lemma BackedBelow(mem: PageTables.Memory, root: PageTables.PageAddress, free: set<nat>, start: nat, to: nat, to': nat)
    requires Backed(mem, root, free, start, to) && to' <= to
    ensures Backed(mem, root, free, start, to')
  {
    BackingKept(View(mem, root), View(mem, root), free, free, start, to, to');
  }

  /** A frame of the pool, mapped for writing just above the range, extends the range by a page. */
  lemma RangeGrows(t: PageTables.Tables, rest: set<nat>, u: PageTables.Tables, root: PageTables.PageAddress,
                   free: set<nat>, free': set<nat>, start: nat, va: nat, w: PageTables.Word)
    requires PageTables.IsRoot(t, root) && PageTables.MappedOne(t, rest, u, root, PageTables.IndexOf(va), w)
    requires Backed(t.mem, root, free, start, va) && free' <= free
    requires TOP_SLOT <= start <= va < TWO64 && va % PAGE_SIZE == 0 && PageTables.IndexOf(va).Ok()
    requires w.present && w.writable && !w.user && w.addr in free && w.addr !in free'
    ensures Backed(u.mem, root, free', start, NextPage(va)) && Backed(u.mem, root, free', start, va)
  {
    var view, view' := View(t.mem, root), View(u.mem, root);
    forall vb: nat | start <= vb < va && vb % PAGE_SIZE == 0 ensures view'(vb) == view(vb) {
      OldPageStays(t, rest, u, root, va, vb, w);
    }
    PageAdded(view, view', free, free', start, va, w);
    BackingKept(view', view', free', free', start, va + PAGE_SIZE, va);
  }

  /** Where no translation changes, neither does the range. */
  lemma RangeStays(t: PageTables.Tables, mem: PageTables.Memory, root: PageTables.PageAddress,
                   free: set<nat>, free': set<nat>, start: nat, to: nat)
    requires PageTables.IsRoot(t, root) && PageTables.SameWalks(t, mem)
    requires Backed(t.mem, root, free, start, to) && free' <= free
    ensures Backed(mem, root, free', start, to)
  {
    forall vb: nat ensures View(mem, root)(vb) == View(t.mem, root)(vb) {
      assert PageTables.IndexOf(vb).Ok();
    }
    BackingKept(View(t.mem, root), View(mem, root), free, free', start, to, to);
  }

  /** No large page covers the range. */
  ghost predicate OnlySmallPages(t: PageTables.Tables, start: nat, end: nat) {
    forall va: nat | start <= va < end :: PageTables.NoHuge(t, PageTables.IndexOf(va))
  }

  lemma SmallPagesKept(t: PageTables.Tables, u: PageTables.Tables, start: nat, end: nat)
    requires OnlySmallPages(t, start, end) && forall ix: PageTables.Index :: PageTables.NoHugeKept(t, u, ix)
    ensures OnlySmallPages(u, start, end)
  {
    forall va: nat | start <= va < end ensures PageTables.NoHuge(u, PageTables.IndexOf(va)) {
      assert PageTables.NoHugeKept(t, u, PageTables.IndexOf(va));
    }
  }

  /** The block at `a` is new in use, holds `size` bytes and wastes little of its `total`; nothing else about
      the blocks in use, and nothing in memory but headers, differs. */
  ghost predicate HandsOut(l: List, m: List, a: nat, size: nat, total: nat) {
    && a in Live(m) && a !in Live(l)
    && size <= Live(m)[a] < total + HEADER + MIN_SPLIT_SIZE
    && Live(m) == Live(l)[a := Live(m)[a]]
    && WritesOnlyHeaders(l, m)
  }

  lemma HandsOutAfterGrowth(l: List, m: List, n: List, a: nat, size: nat, total: nat)
    requires Live(m) == Live(l) && WritesOnlyHeaders(l, m) && HandsOut(m, n, a, size, total)
    requires m.members <= n.members
    ensures HandsOut(l, n, a, size, total)
  {
    WritesTwice(l, m, n);
  }

  /** The entry of the slot that the heap is in, with the rights that its pages need. */
  ghost predicate SlotReady(t: PageTables.Tables, root: PageTables.PageAddress) {
    PageTables.Grants(t.mem, root, 511, PageTables.Flags(true, true, false, 0, 0))
  }

  /** Where all spaces have the same kernel half, what one sees in the heap's slot all see. */
  lemma SharedView(t: PageTables.Tables, r: PageTables.PageAddress, s: PageTables.PageAddress)
    requires PageTables.KernelShared(t) && PageTables.IsRoot(t, r) && PageTables.IsRoot(t, s)
    ensures forall va: nat | TOP_SLOT <= va < TWO64 :: View(t.mem, r)(va) == View(t.mem, s)(va)
  {
    forall va: nat | TOP_SLOT <= va < TWO64 ensures View(t.mem, r)(va) == View(t.mem, s)(va) {
      IndexOfKernelPage(va);
      PageTables.SharedWalk(t, r, s, PageTables.IndexOf(va));
    }
  }

  lemma RangeIsShared(t: PageTables.Tables, r: PageTables.PageAddress, s: PageTables.PageAddress, free: set<nat>,
                      start: nat, to: nat)
    requires PageTables.KernelShared(t) && PageTables.IsRoot(t, r) && PageTables.IsRoot(t, s)
    requires TOP_SLOT <= start && to <= TWO64 && Backed(t.mem, r, free, start, to)
    ensures Backed(t.mem, s, free, start, to)
  {
    SharedView(t, r, s);
    BackingKept(View(t.mem, r), View(t.mem, s), free, free, start, to, to);
  }

  class Heap {
    const virt_start: nat
    const virt_end: nat
    const vm: VirtualMemoryManager
    ghost const shared: bool         // all spaces had the same kernel half when the heap was made
    var blocks: map<nat, Header>     // block headers in memory
    var head: Option<nat>
    var brk: nat

    ghost var members: set<nat>

    ghost function L(): List
      reads this
    {
      List(blocks, members, virt_start, brk)
    }

    /** The range lies in the kernel half, and everything below `to` is memory of the heap's own. */
    ghost predicate MemoryOk(to: nat)
      reads vm, vm.pmm, vm.pmm.bitmap
    {
      && vm.Valid()
      && TOP_SLOT <= virt_start <= to <= PageUp(virt_end) && virt_end + PAGE_SIZE <= TWO64
      && virt_start % PAGE_SIZE == 0
      && PageTables.Entry(vm.mem, vm.pml4_phys, 511).present && OnlySmallPages(vm.T(), virt_start, virt_end)
      && (shared ==> PageTables.KernelShared(vm.T()) && SlotReady(vm.T(), vm.pml4_phys))
      && Backed(vm.mem, vm.pml4_phys, vm.pmm.free, virt_start, to)
    }

    /** Without a first page the heap stays empty; with one, its list is in order. */
    ghost predicate BlocksOk()
      reads this
    {
      if head == None then members == {} && brk == virt_start else head == Some(virt_start) && ListOk(L())
    }

    ghost predicate Valid()
      reads this, vm, vm.pmm, vm.pmm.bitmap
    {
      MemoryOk(brk) && brk % PAGE_SIZE == 0 && brk <= virt_end && BlocksOk()
    }

    // ----- growing

    /** What it costs to have memory up to `to`: a page for every page from the break on, and one for every table that
        is missing on the way to them. */
    ghost function GrowthCost(to: nat): nat
      reads this`brk, vm`mem, vm`pml4_phys
    {
      Cost(vm.mem, vm.pml4_phys, PageUp(brk), PageUp(brk), to)
    }

    /** The range and the pool allow the break to move to `to`. */
    ghost predicate CanGrow(to: nat)
      reads this`brk, vm`mem, vm`pml4_phys, vm.pmm`free
    {
      to <= virt_end && GrowthCost(to) <= |vm.pmm.free|
    }

    /** One round of the loop of `sbrk`: a page from the pool is mapped at `va`. */
    method MapOne(va: nat) returns (ok: bool)
      requires MemoryOk(va) && va % PAGE_SIZE == 0 && va < virt_end
      modifies vm`mem, vm`role, vm`at, vm.pmm`free, vm.pmm`free_pages, vm.pmm.bitmap
      ensures MemoryOk(va) && (ok ==> Backed(vm.mem, vm.pml4_phys, vm.pmm.free, virt_start, NextPage(va)))
      ensures vm.pmm.free <= old(vm.pmm.free) && (!ok ==> vm.pmm.free == {})
      ensures var cost := 1 + old(PageTables.Missing(vm.mem, vm.pml4_phys, PageTables.IndexOf(va)));
        (ok <==> cost <= |old(vm.pmm.free)|) && (ok ==> |old(vm.pmm.free)| - |vm.pmm.free| == cost)
      ensures ok ==> forall w: nat :: MissingStep(old(vm.mem), vm.mem, vm.pml4_phys, va, virt_end, w)
    {
      IndexOfKernelPage(va);
      ghost var t, free := vm.T(), vm.pmm.free;
      var pa := vm.pmm.Allocate();
      forall a: nat ensures vm.PoolOk(a) {
        assert old(vm.PoolOk(a));
      }
      if pa == None {
        return false;
      }
      assert old(vm.PoolOk(pa.value));
      ghost var rest := vm.pmm.free;
      vm.RoleNotFree();
      ok := vm.MapPage(va, pa, PageTables.Flags(true, true, false, 0, 0));
      SmallPagesKept(t, vm.T(), virt_start, virt_end);
      if ok {
        MissingInRange(t, rest, vm.T(), vm.pmm.free, vm.pml4_phys, va, virt_start, virt_end,
                       PageTables.Flags(true, true, false, 0, 0));
        assert PageTables.PageOf(pa.value) == pa.value;
        ghost var w := PageTables.MakeEntry(pa.value, PageTables.Flags(true, true, false, 0, 0));
        RangeGrows(t, rest, vm.T(), vm.pml4_phys, free, vm.pmm.free, virt_start, va, w);
      } else {
        RangeStays(t, vm.mem, vm.pml4_phys, free, vm.pmm.free, virt_start, va);
      }
    }

    lemma MemoryGrows(va: nat)
      requires MemoryOk(va) && va % PAGE_SIZE == 0 && va < virt_end
      requires Backed(vm.mem, vm.pml4_phys, vm.pmm.free, virt_start, NextPage(va))
      ensures MemoryOk(NextPage(va)) && NextPage(va) % PAGE_SIZE == 0
    {
      PageUpIsLeast(virt_end, va);
    }

    /** The same, seen from the range. */
    method MapNext(va: nat) returns (ok: bool)
      requires MemoryOk(va) && va % PAGE_SIZE == 0 && va < virt_end
      modifies vm`mem, vm`role, vm`at, vm.pmm`free, vm.pmm`free_pages, vm.pmm.bitmap
      ensures MemoryOk(if ok then NextPage(va) else va) && NextPage(va) % PAGE_SIZE == 0
      ensures vm.pmm.free <= old(vm.pmm.free) && (!ok ==> vm.pmm.free == {})
      ensures var cost := 1 + old(PageTables.Missing(vm.mem, vm.pml4_phys, PageTables.IndexOf(va)));
        (ok <==> cost <= |old(vm.pmm.free)|) && (ok ==> |old(vm.pmm.free)| - |vm.pmm.free| == cost)
      ensures ok ==> forall w: nat :: MissingStep(old(vm.mem), vm.mem, vm.pml4_phys, va, virt_end, w)
    {
      ok := MapOne(va);
      if ok { MemoryGrows(va); }
    }

    /** The loop of `sbrk`, from a page boundary on.  It gets through exactly if the pool has what the pages and their
        tables cost, and takes that; when it stops early it has used up the whole pool. */
    method MapPages(map_start: nat, to: nat) returns (ok: bool, ghost end: nat)
      requires MemoryOk(map_start) && map_start % PAGE_SIZE == 0 && to <= virt_end
      modifies vm`mem, vm`role, vm`at, vm.pmm`free, vm.pmm`free_pages, vm.pmm.bitmap
      ensures MemoryOk(end) && end % PAGE_SIZE == 0 && map_start <= end && (end == map_start || end < to + PAGE_SIZE)
      ensures vm.pmm.free <= old(vm.pmm.free) && (if ok then to <= end else vm.pmm.free == {})
      ensures to <= map_start ==> ok && end == map_start && vm.pmm.free == old(vm.pmm.free)
      ensures PaidFor(map_start, end, |old(vm.pmm.free)|, |vm.pmm.free|) || !ok
      ensures var cost := old(Cost(vm.mem, vm.pml4_phys, map_start, map_start, to));
        (ok <==> cost <= |old(vm.pmm.free)|) && (ok ==> |old(vm.pmm.free)| - |vm.pmm.free| == cost)
    {
      ghost var mem, root, pool := vm.mem, vm.pml4_phys, |vm.pmm.free|;
      MissingAtFirst(mem, root, map_start, virt_end);
      var va := map_start;
      while va < to
        invariant va % PAGE_SIZE == 0 && va >= map_start && MemoryOk(va)
        invariant va == map_start || va < to + PAGE_SIZE
        invariant PaidFor(map_start, va, |old(vm.pmm.free)|, |vm.pmm.free|)
        invariant vm.pmm.free <= old(vm.pmm.free) && (va == map_start ==> vm.pmm.free == old(vm.pmm.free))
        invariant |vm.pmm.free| + Cost(mem, root, map_start, map_start, to) ==
                  pool + Cost(mem, root, map_start, va, to)
        invariant forall w: nat :: MissingOk(mem, vm.mem, root, map_start, va, virt_end, w)
      {
        ghost var free, before := |vm.pmm.free|, vm.mem;
        assert MissingOk(mem, vm.mem, root, map_start, va, virt_end, va);
        ok := MapNext(va);
        if !ok {
          return false, va;
        }
        PaidOneMore(map_start, va, |old(vm.pmm.free)|, free, |vm.pmm.free|);
        MissingGoesOn(mem, before, vm.mem, root, map_start, va, virt_end);
        va := NextPage(va);
      }
      return true, va;
    }

    /** Memory for everything from the break, rounded up to the next page, to `to`. */
    method MapUpTo(to: nat) returns (ok: bool)
      requires MemoryOk(PageUp(brk)) && to <= virt_end
      modifies vm`mem, vm`role, vm`at, vm.pmm`free, vm.pmm`free_pages, vm.pmm.bitmap
      ensures MemoryOk(PageUp(brk)) && (ok && brk <= to ==> MemoryOk(PageUp(to)))
      ensures vm.pmm.free <= old(vm.pmm.free) && (!ok ==> vm.pmm.free == {})
      ensures to <= PageUp(brk) ==> ok && vm.pmm.free == old(vm.pmm.free)
      ensures ok ==> PaidFor(PageUp(brk), to, |old(vm.pmm.free)|, |vm.pmm.free|)
      ensures (ok <==> old(CanGrow(to))) && (ok ==> |old(vm.pmm.free)| - |vm.pmm.free| == old(GrowthCost(to)))
    {
      ghost var end;
      ok, end := MapPages(PageUp(brk), to);
      BackedBelow(vm.mem, vm.pml4_phys, vm.pmm.free, virt_start, end, PageUp(brk));
      if ok { PageUpIsNext(brk, to, end); }
    }

    /** Moves the break up, with memory behind it, exactly if the range and the pool allow it.  A failed call leaves the
        break where it was; it leaves the pool as it was exactly if the range does not allow the growth or the pool was
        empty, and otherwise it has emptied the pool for good.  A sum beyond 64 bits wraps: the break then falls out of
        the range. */
    method Sbrk(increment: int) returns (r: Option<nat>)
      requires MemoryOk(PageUp(brk)) && virt_start <= brk <= virt_end && -TWO63 <= increment < TWO63
      modifies this`brk, vm`mem, vm`role, vm`at, vm.pmm`free, vm.pmm`free_pages, vm.pmm.bitmap
      ensures MemoryOk(PageUp(old(brk)))
      ensures MemoryOk(PageUp(brk)) && virt_start <= brk <= virt_end <==> old(brk) + increment < TWO64
      ensures r == None ==> brk == old(brk)
      ensures r.Some? ==> increment >= 0 && r.value == old(brk) && brk == Wrapped(old(brk) + increment)
      ensures r == None && increment >= 0 ==> virt_end < old(brk) + increment < TWO64 || vm.pmm.free == {}
      ensures r == None && increment > 0 ==>
                (vm.pmm.free == old(vm.pmm.free) <==> old(brk) + increment > virt_end || old(vm.pmm.free) == {})
      ensures vm.pmm.free <= old(vm.pmm.free) && (increment <= 0 ==> vm.pmm.free == old(vm.pmm.free))
      ensures r.Some? ==> PaidFor(PageUp(old(brk)), brk, |old(vm.pmm.free)|, |vm.pmm.free|)
      ensures r.Some? <==> increment == 0 || (increment > 0 && old(CanGrow(Wrapped(brk + increment))))
      ensures r.Some? && increment > 0 ==>
                |old(vm.pmm.free)| - |vm.pmm.free| == old(GrowthCost(Wrapped(brk + increment)))
    {
      if increment < 0 {
        return None;
      }
      if increment == 0 {
        return Some(brk);
      }
      var new_brk := Wrapped(brk + increment);
      if new_brk > virt_end {
        return None;
      }
      var ok := MapUpTo(new_brk);
      if !ok {
        return None;
      }
      r := Some(brk);
      brk := new_brk;
    }

    /** The same in pages. */
    method Morecore(pages: nat) returns (r: Option<nat>)
      requires MemoryOk(brk) && brk % PAGE_SIZE == 0 && brk <= virt_end && brk + pages * PAGE_SIZE < TWO64
      modifies this`brk, vm`mem, vm`role, vm`at, vm.pmm`free, vm.pmm`free_pages, vm.pmm.bitmap
      ensures MemoryOk(brk) && brk % PAGE_SIZE == 0 && brk <= virt_end
      ensures r == None ==> brk == old(brk)
      ensures r.Some? ==> pages > 0 && r.value == old(brk) && brk == old(brk) + pages * PAGE_SIZE
      ensures r == None && pages > 0 ==> old(brk) + pages * PAGE_SIZE > virt_end || vm.pmm.free == {}
      ensures r == None && pages > 0 ==>
                (vm.pmm.free == old(vm.pmm.free) <==> old(brk) + pages * PAGE_SIZE > virt_end || old(vm.pmm.free) == {})
      ensures vm.pmm.free <= old(vm.pmm.free) && (pages == 0 ==> vm.pmm.free == old(vm.pmm.free))
      ensures r.Some? ==> pages <= |old(vm.pmm.free)| - |vm.pmm.free|
      ensures r.Some? <==> pages > 0 && old(CanGrow(brk + pages * PAGE_SIZE))
      ensures r.Some? ==> |old(vm.pmm.free)| - |vm.pmm.free| == old(GrowthCost(brk + pages * PAGE_SIZE))
    {
      if pages == 0 {
        return None;
      }
      WholePages(brk, pages);
      r := Sbrk(pages * PAGE_SIZE);
      if r.Some? { PaidPages(old(brk), pages, |old(vm.pmm.free)|, |vm.pmm.free|); }
    }

    /** A heap of one page, which is one free block; or, without memory, a heap that never allocates. */
    constructor (start: nat, end: nat, manager: VirtualMemoryManager)
      requires manager.Valid() && TOP_SLOT <= start <= end && end + PAGE_SIZE < TWO64 && start % PAGE_SIZE == 0
      requires PageTables.Entry(manager.mem, manager.pml4_phys, 511).present
      requires OnlySmallPages(manager.T(), start, end)
      modifies manager`mem, manager`role, manager`at, manager.pmm`free, manager.pmm`free_pages, manager.pmm.bitmap
      ensures Valid() && virt_start == start && virt_end == end && vm == manager
      ensures shared <==> old(PageTables.KernelShared(manager.T()) && SlotReady(manager.T(), manager.pml4_phys))
      ensures Live(L()) == map[]
      ensures head == None ==> start + PAGE_SIZE > end || vm.pmm.free == {}
      ensures var cost := 1 + old(PageTables.Missing(manager.mem, manager.pml4_phys, PageTables.IndexOf(start)));
        && (head.Some? <==> start + PAGE_SIZE <= end && cost <= |old(manager.pmm.free)|)
        && (head.Some? ==> |old(manager.pmm.free)| - |vm.pmm.free| == cost)
    {
      virt_start, virt_end, vm := start, end, manager;
      shared := PageTables.KernelShared(manager.T()) && SlotReady(manager.T(), manager.pml4_phys);
      brk, head, blocks, members := start, None, map[], {};
      new;
      FirstPageCosts(vm.mem, vm.pml4_phys, start);
      var p := Morecore(1);
      if p == None {
        return;
      }
      head := p;
      blocks := blocks[p.value := Header(PAGE_SIZE - HEADER, true, None, None)];
      members := {p.value};
      OnlyBlockOk(L(), start);
    }

    // ----- allocating

    /** Puts the free block at `a` to use, split if the rest is worth a block. */
    method Take(a: nat, total: nat)
      requires ListOk(L()) && Fits(L(), total, a) && total >= ALIGN && total % ALIGN == 0
      modifies this`blocks, this`members
      ensures L() == Taken(old(L()), a, total)
    {
      ghost var l := L();
      assert BlockOk(l, a);
      if blocks[a].size >= total + HEADER + MIN_SPLIT_SIZE {
        RestIsNew(l, a, total);
        var new_block := a + HEADER + total;
        blocks := blocks[new_block := Header(blocks[a].size - total - HEADER, true, blocks[a].next, Some(a))];
        if blocks[a].next.Some? {
          var next := blocks[a].next.value;
          blocks := blocks[next := blocks[next].(prev := Some(new_block))];
        }
        blocks := blocks[a := blocks[a].(next := Some(new_block))];
        blocks := blocks[a := blocks[a].(size := total)];
        members := members + {new_block};
        assert L() == Split(l, a, total);
      }
      blocks := blocks[a := blocks[a].(free := false)];
    }

    /** The first block of the list that fits. */
    method FirstFit(total: nat) returns (r: Option<nat>)
      requires head == Some(virt_start) && ListOk(L())
      ensures r == None ==> !HasFit(L(), total)
      ensures r.Some? ==> FirstFits(L(), total, r.value)
    {
      ghost var l := L();
      var block := head;
      forall a: nat | Fits(l, total, a) ensures virt_start <= a {
        assert BlockOk(l, a);
      }
      while block.Some?
        invariant block.Some? ==> block.value in l.members && forall a: nat | Fits(l, total, a) :: block.value <= a
        invariant block == None ==> forall a: nat :: !Fits(l, total, a)
        decreases if block.Some? then l.brk - block.value + 1 else 0
      {
        var a := block.value;
        assert BlockOk(l, a);
        if blocks[a].free && blocks[a].size >= total {
          return block;
        }
        block := blocks[a].next;
        forall b: nat | Fits(l, total, b) ensures block.Some? && block.value <= b {
          assert Apart(l, a, b) && BlockOk(l, b);
        }
      }
      return None;
    }

    /** The last block of the list, which ends where the break was before it moved. */
    method LastBlock(ghost mem: nat) returns (a: nat)
      requires head == Some(virt_start) && ListOk(L().(brk := mem))
      ensures a in members && a in blocks && End(L(), a) == mem
    {
      ghost var l := L().(brk := mem);
      a := head.value;
      assert BlockOk(l, a);
      while blocks[a].next.Some?
        invariant a in l.members && BlockOk(l, a)
        decreases l.brk - a
      {
        a := blocks[a].next.value;
        assert BlockOk(l, a);
      }
    }

    /** The pages between `mem`, where the break was, and the break become part of the list. */
    method AddPages(mem: nat, pages: nat)
      requires head == Some(virt_start) && brk == mem + pages * PAGE_SIZE && pages > 0 && ListOk(L().(brk := mem))
      modifies this`blocks, this`members
      ensures ListOk(L()) && Live(L()) == old(Live(L())) && WritesOnlyHeaders(old(L()), L()) && old(members) <= members
      ensures exists a: nat :: a in members && IsFree(L(), a) && blocks[a].size >= pages * PAGE_SIZE - HEADER
    {
      ghost var l := L().(brk := mem);
      var last_block := LastBlock(mem);
      ExtendKeepsOrder(l, last_block, pages * PAGE_SIZE);
      if blocks[last_block].free {
        blocks := blocks[last_block := blocks[last_block].(size := blocks[last_block].size + pages * PAGE_SIZE)];
        assert IsFree(L(), last_block);
      } else {
        var new_block := mem;
        blocks := blocks[new_block := Header(pages * PAGE_SIZE - HEADER, true, None, Some(last_block))];
        blocks := blocks[last_block := blocks[last_block].(next := Some(new_block))];
        members := members + {new_block};
        assert IsFree(L(), new_block);
      }
      assert L() == Extend(l, last_block, pages * PAGE_SIZE);
    }

    /** The search of `allocate`: the first block that fits is put to use. */
    method TakeFirst(size: nat, total: nat) returns (r: Option<nat>)
      requires head == Some(virt_start) && ListOk(L()) && size <= total && total >= ALIGN && total % ALIGN == 0
      modifies this`blocks, this`members
      ensures ListOk(L()) && WritesOnlyHeaders(old(L()), L()) && old(members) <= members
      ensures r == None ==> L() == old(L()) && !HasFit(L(), total)
      ensures r.Some? ==>
                && r.value >= HEADER
                && var a := r.value - HEADER;
                && HandsOut(old(L()), L(), a, size, total) && FirstFits(old(L()), total, a)
                && Live(L())[a] == SizeTaken(old(blocks)[a].size, total)
    {
      ghost var l := L();
      var block := FirstFit(total);
      if block == None {
        return None;
      }
      TakenKeepsOrder(l, block.value, total);
      Take(block.value, total);
      return Some(block.value + HEADER);
    }

    /** The growth of `allocate`: enough pages for the request, which then has a fit. */
    method Grow(total: nat) returns (ok: bool)
      requires Valid() && head.Some? && total + virt_end + PAGE_SIZE + HEADER < TWO64
      modifies this`blocks, this`members, this`brk,
               vm`mem, vm`role, vm`at, vm.pmm`free, vm.pmm`free_pages, vm.pmm.bitmap
      ensures Valid() && Live(L()) == old(Live(L())) && WritesOnlyHeaders(old(L()), L()) && old(members) <= members
      ensures ok ==> brk == old(brk) + PagesFor(total) * PAGE_SIZE && HasFit(L(), total)
      ensures !ok ==> L() == old(L()) && (brk + PagesFor(total) * PAGE_SIZE > virt_end || vm.pmm.free == {})
      ensures !ok ==> (vm.pmm.free == old(vm.pmm.free) <==>
                         brk + PagesFor(total) * PAGE_SIZE > virt_end || old(vm.pmm.free) == {})
      ensures vm.pmm.free <= old(vm.pmm.free) && (ok ==> PagesFor(total) <= |old(vm.pmm.free)| - |vm.pmm.free|)
      ensures ok <==> old(CanGrow(brk + PagesFor(total) * PAGE_SIZE))
      ensures ok ==> |old(vm.pmm.free)| - |vm.pmm.free| == old(GrowthCost(brk + PagesFor(total) * PAGE_SIZE))
    {
      var pages_needed := PagesFor(total);
      var new_mem := Morecore(pages_needed);
      if new_mem == None {
        return false;
      }
      AddPages(new_mem.value, pages_needed);
      ghost var a: nat :| a in members && IsFree(L(), a) && blocks[a].size >= pages_needed * PAGE_SIZE - HEADER;
      assert Fits(L(), total, a);
      return true;
    }

    /** The address of a payload of at least `size` bytes, or `None`.  The payload lies in no block in use; the
        blocks in use stay as they are.  A fit is taken without growing, the first of the list; without one the
        heap grows, by what the request costs, and then the retry succeeds without growing again.  A request fails
        exactly if it is for nothing, if the heap has no first page, or if nothing fits and the heap cannot grow. */
    method Allocate(size: nat) returns (r: Option<nat>)
      requires Valid() && size + virt_end + 2 * PAGE_SIZE < TWO64
      modifies this`blocks, this`members, this`brk,
               vm`mem, vm`role, vm`at, vm.pmm`free, vm.pmm`free_pages, vm.pmm.bitmap
      ensures Valid() && head == old(head) && old(members) <= members
      ensures r == None ==> L() == old(L())
      ensures r == None <==> size == 0 || head == None || (!HasFit(old(L()), Rounded(size)) && brk == old(brk))
      ensures r == None <==> size == 0 || head == None
                             || (!HasFit(old(L()), Rounded(size))
                                 && !old(CanGrow(brk + PagesFor(Rounded(size)) * PAGE_SIZE)))
      ensures r == None && size > 0 && head.Some? ==>
                brk + PagesFor(Rounded(size)) * PAGE_SIZE > virt_end || vm.pmm.free == {}
      ensures r == None ==>
                (vm.pmm.free == old(vm.pmm.free) <==>
                 size == 0 || head == None || brk + PagesFor(Rounded(size)) * PAGE_SIZE > virt_end
                 || old(vm.pmm.free) == {})
      ensures r.Some? ==> r.value >= HEADER && HandsOut(old(L()), L(), r.value - HEADER, size, Rounded(size))
      ensures r.Some? && HasFit(old(L()), Rounded(size)) ==>
                && brk == old(brk) && FirstFits(old(L()), Rounded(size), r.value - HEADER)
                && Live(L())[r.value - HEADER] == SizeTaken(old(blocks)[r.value - HEADER].size, Rounded(size))
                && vm.T() == old(vm.T()) && vm.pmm.free == old(vm.pmm.free)
      ensures r.Some? && !HasFit(old(L()), Rounded(size)) ==>
                && brk == old(brk) + PagesFor(Rounded(size)) * PAGE_SIZE
                && PagesFor(Rounded(size)) <= |old(vm.pmm.free)|
                && |old(vm.pmm.free)| - |vm.pmm.free| == old(GrowthCost(brk + PagesFor(Rounded(size)) * PAGE_SIZE))
      decreases if HasFit(L(), Rounded(size)) then 0 else 2
    {
      if size == 0 || head == None {
        return None;
      }
      r := TakeFirst(size, Rounded(size));
      if r == None {
        r := GrowAndRetry(size);
      }
    }

    /** The second half of `allocate`, when nothing fits. */
    method GrowAndRetry(size: nat) returns (r: Option<nat>)
      requires Valid() && head.Some? && 0 < size && size + virt_end + 2 * PAGE_SIZE < TWO64
      requires !HasFit(L(), Rounded(size))
      modifies this`blocks, this`members, this`brk,
               vm`mem, vm`role, vm`at, vm.pmm`free, vm.pmm`free_pages, vm.pmm.bitmap
      ensures Valid() && old(members) <= members
      ensures r == None ==>
                L() == old(L()) && (brk + PagesFor(Rounded(size)) * PAGE_SIZE > virt_end || vm.pmm.free == {})
      ensures r == None ==>
                (vm.pmm.free == old(vm.pmm.free) <==>
                 brk + PagesFor(Rounded(size)) * PAGE_SIZE > virt_end || old(vm.pmm.free) == {})
      ensures r.Some? ==> r.value >= HEADER && HandsOut(old(L()), L(), r.value - HEADER, size, Rounded(size))
      ensures r.Some? ==>
                && brk == old(brk) + PagesFor(Rounded(size)) * PAGE_SIZE
                && PagesFor(Rounded(size)) <= |old(vm.pmm.free)|
                && |old(vm.pmm.free)| - |vm.pmm.free| == old(GrowthCost(brk + PagesFor(Rounded(size)) * PAGE_SIZE))
      ensures r == None <==> !old(CanGrow(brk + PagesFor(Rounded(size)) * PAGE_SIZE))
      decreases 1
    {
      ghost var l := L();
      var grown := Grow(Rounded(size));
      if !grown {
        return None;
      }
      ghost var m := L();
      r := Allocate(size);
      HandsOutAfterGrowth(l, m, L(), r.value - HEADER, size, Rounded(size));
    }

    // ----- freeing

    /** Takes a block out of use, and joins it with the free blocks on either side.  The other blocks in use
        stay as they are, and the memory the heap holds is the same. */
    method Free(ptr: Option<nat>)
      requires Valid() && (ptr.Some? ==> ptr.value >= HEADER && ptr.value - HEADER in Live(L()))
      modifies this`blocks, this`members
      ensures Valid()
      ensures ptr == None ==> L() == old(L())
      ensures ptr.Some? ==> Live(L()) == old(Live(L())) - {ptr.value - HEADER} && WritesOnlyHeaders(old(L()), L())
    {
      if ptr == None {
        return;
      }
      var block := ptr.value - HEADER;
      ghost var l := L();
      FreedKeepsOrder(l, block);
      blocks := blocks[block := blocks[block].(free := true)];
      AbsorbNext(block);
      JoinPrevious(block);
    }

    method AbsorbNext(block: nat)
      requires block in members && Tiled(L()) && IsFree(L(), block)
      modifies this`blocks, this`members
      ensures L() == Absorb(old(L()), block)
    {
      ghost var l := L();
      assert BlockOk(l, block) && BlockOk(l, End(l, block));
      if blocks[block].next.Some? && blocks[blocks[block].next.value].free {
        var next := blocks[block].next.value;
        blocks := blocks[block := blocks[block].(size := blocks[block].size + HEADER + blocks[next].size)];
        blocks := blocks[block := blocks[block].(next := blocks[next].next)];
        if blocks[block].next.Some? {
          var after := blocks[block].next.value;
          blocks := blocks[after := blocks[after].(prev := Some(block))];
        }
        members := members - {next};
      }
    }

    method JoinPrevious(block: nat)
      requires block in members && Tiled(L()) && IsFree(L(), block)
      modifies this`blocks, this`members
      ensures L() == Join(old(L()), block)
    {
      ghost var l := L();
      assert BlockOk(l, block);
      if block != virt_start { assert BlockOk(l, blocks[block].prev.value); }
      if blocks[block].prev.Some? && blocks[blocks[block].prev.value].free {
        var prev := blocks[block].prev.value;
        blocks := blocks[prev := blocks[prev].(size := blocks[prev].size + HEADER + blocks[block].size)];
        blocks := blocks[prev := blocks[prev].(next := blocks[block].next)];
        if blocks[block].next.Some? {
          var after := blocks[block].next.value;
          blocks := blocks[after := blocks[after].(prev := Some(prev))];
        }
        members := members - {block};
      }
    }

    /** Freeing every block in use, in any order, leaves one free block over all the heap's memory. */
    method FreeAll(used: seq<nat>)
      requires Valid() && head.Some? && Lists(used, Live(L()))
      modifies this`blocks, this`members
      ensures Valid() && brk == old(brk) && OneFreeBlock(L())
      decreases |used|
    {
      if used == [] {
        assert Live(L()) == map[];
        AllFreeIsOneBlock(L());
      } else {
        ListsRest(used, Live(L()));
        Free(Some(used[0] + HEADER));
        FreeAll(used[1..]);
      }
    }
  }

  /** The blocks in use, each once, in some order. */
  ghost predicate Lists(used: seq<nat>, live: map<nat, nat>) {
    && (forall a: nat :: a in used <==> a in live)
    && (forall i, j | 0 <= i < j < |used| :: used[i] != used[j])
  }

  lemma ListsRest(used: seq<nat>, live: map<nat, nat>)
    requires Lists(used, live) && used != []
    ensures used[0] in live && Lists(used[1..], live - {used[0]})
  {
    assert used == [used[0]] + used[1..];
  }

  // ----- in every space

  /** The heap is at the same addresses in every address space. */
  lemma InEverySpace(h: Heap, root: PageTables.PageAddress)
    requires h.Valid() && h.shared && PageTables.IsRoot(h.vm.T(), root)
    ensures Backed(h.vm.mem, root, h.vm.pmm.free, h.virt_start, h.brk)
    ensures forall va: nat | h.virt_start <= va < h.brk ::
              View(h.vm.mem, root)(va) == View(h.vm.mem, h.vm.pml4_phys)(va)
  {
    RangeIsShared(h.vm.T(), h.vm.pml4_phys, root, h.vm.pmm.free, h.virt_start, h.brk);
    SharedView(h.vm.T(), root, h.vm.pml4_phys);
  }

  /** So the kernel may go over to another space and use the heap on. */
  method SwitchWithHeap(h: Heap, root: PageTables.PageAddress)
    requires h.Valid() && h.shared && PageTables.IsRoot(h.vm.T(), root)
    modifies h.vm`pml4_phys
    ensures h.Valid() && h.vm.pml4_phys == root && h.L() == old(h.L())
  {
    InEverySpace(h, root);
    PageTables.SharedWalk(h.vm.T(), root, h.vm.pml4_phys, PageTables.Index(511, 0, 0, 0));
    h.vm.SwitchAddressSpace(Some(root));
  }

  // ----- a growth that fails

  /** A request that the range allows but for which the pool has too few pages: it fails, and what the pool had
      is gone.  The heap holds no more than before, so nothing gives those pages back, and from then on no
      growth by any number of pages succeeds. */
  method FailedGrowthEmptiesThePool(h: Heap, size: nat, pages: nat) returns (r: Option<nat>, again: Option<nat>)
    requires h.Valid() && h.head.Some? && size > 0 && size + h.virt_end + 2 * PAGE_SIZE < TWO64
    requires !HasFit(h.L(), Rounded(size)) && h.brk + PagesFor(Rounded(size)) * PAGE_SIZE <= h.virt_end
    requires 0 < |h.vm.pmm.free| < h.GrowthCost(h.brk + PagesFor(Rounded(size)) * PAGE_SIZE)
    requires h.brk + pages * PAGE_SIZE < TWO64
    modifies h`blocks, h`members, h`brk
    modifies h.vm`mem, h.vm`role, h.vm`at, h.vm.pmm`free, h.vm.pmm`free_pages, h.vm.pmm.bitmap
    ensures h.Valid() && r == None && h.L() == old(h.L())
    ensures h.vm.pmm.free == {} && h.vm.pmm.free != old(h.vm.pmm.free)
    ensures again == None
  {
    r := h.Allocate(size);
    again := h.Morecore(pages);
    assert h.L() == old(h.L());
  }

  // ----- runs

  /** What a client does next: ask for memory, or give back one of the payloads it holds. */
  datatype Request = Ask(size: nat) | GiveBack(which: nat)

  /** A payload that was handed out, by the block in front of it, with the size asked for. */
  datatype Payload = Payload(block: nat, size: nat)

  predicate Holds(live: map<nat, nat>, p: Payload) {
    p.block in live && p.size <= live[p.block]
  }

  predicate HeldAt(held: seq<Payload>, a: nat) {
    exists i :: 0 <= i < |held| && held[i].block == a
  }

  predicate Same(held: seq<Payload>, i: nat, j: nat) {
    i < |held| && j < |held| && held[i].block == held[j].block
  }

  /** The payloads held are the blocks in use, each once. */
  ghost predicate HoldsAll(live: map<nat, nat>, held: seq<Payload>) {
    && (forall i | 0 <= i < |held| :: Holds(live, held[i]))
    && (forall i: nat, j: nat | Same(held, i, j) :: i == j)
    && (forall a: nat | a in live :: HeldAt(held, a))
  }

  lemma HeldAfterAsk(live: map<nat, nat>, held: seq<Payload>, p: Payload, size: nat)
    requires HoldsAll(live, held) && p.block !in live && p.size <= size
    ensures HoldsAll(live[p.block := size], held + [p])
  {
    var more, live' := held + [p], live[p.block := size];
    forall i | 0 <= i < |more| ensures Holds(live', more[i]) {
      if i < |held| { assert Holds(live, held[i]); }
    }
    forall i: nat, j: nat | Same(more, i, j) ensures i == j {
      if i < |held| { assert Holds(live, held[i]); }
      if j < |held| { assert Holds(live, held[j]); }
      if i < |held| && j < |held| { assert Same(held, i, j); }
    }
    forall a: nat | a in live' ensures HeldAt(more, a) {
      if a in live {
        assert HeldAt(held, a);
        var i :| 0 <= i < |held| && held[i].block == a;
        assert more[i].block == a;
      } else {
        assert more[|held|].block == a;
      }
    }
  }

  lemma HeldAfterGiveBack(live: map<nat, nat>, held: seq<Payload>, k: nat)
    requires HoldsAll(live, held) && k < |held|
    ensures HoldsAll(live - {held[k].block}, held[..k] + held[k + 1..])
  {
    var less, live' := held[..k] + held[k + 1..], live - {held[k].block};
    forall i: nat, j: nat | Same(less, i, j) ensures i == j {
      assert Same(held, if i < k then i else i + 1, if j < k then j else j + 1);
    }
    forall i | 0 <= i < |less| ensures Holds(live', less[i]) {
      var o := if i < k then i else i + 1;
      assert Holds(live, held[o]);
      assert Same(held, o, k) ==> o == k;
    }
    forall a: nat | a in live' ensures HeldAt(less, a) {
      assert HeldAt(held, a);
      var i :| 0 <= i < |held| && held[i].block == a;
      assert less[if i < k then i else i - 1].block == a;
    }
  }

  /** Every payload held is aligned and inside the heap, and no two have a byte in common. */
  lemma HeldAreDisjoint(l: List, held: seq<Payload>, i: nat, j: nat)
    requires ListOk(l) && HoldsAll(Live(l), held) && i < |held| && j < |held| && i != j
    ensures var p, q := held[i].block + HEADER, held[j].block + HEADER;
      && p % ALIGN == 0 && l.start < p && p + held[i].size <= l.brk
      && (p + held[i].size <= q - HEADER || q + held[j].size <= p - HEADER)
  {
    assert Holds(Live(l), held[i]) && Holds(Live(l), held[j]);
    assert Same(held, i, j) ==> i == j;
    PayloadsAreDisjoint(l, held[i].block, held[j].block);
  }

  /** In any run of requests the payloads held are exactly the blocks in use, each at least as large as it was
      asked for; what that means for their places is `HeldAreDisjoint`. */
  method ServeRequests(h: Heap, requests: seq<Request>) returns (held: seq<Payload>)
    requires h.Valid() && h.head.Some? && Live(h.L()) == map[]
    requires forall n | 0 <= n < |requests| :: requests[n].Ask? ==>
                                                 requests[n].size + h.virt_end + 2 * PAGE_SIZE < TWO64
    modifies h`blocks, h`members, h`brk
    modifies h.vm`mem, h.vm`role, h.vm`at, h.vm.pmm`free, h.vm.pmm`free_pages, h.vm.pmm.bitmap
    ensures h.Valid() && h.head.Some? && HoldsAll(Live(h.L()), held)
  {
    held := [];
    for n := 0 to |requests|
      invariant h.Valid() && h.head.Some? && HoldsAll(Live(h.L()), held)
    {
      held := ServeOne(h, requests[n], held);
    }
  }

  method ServeOne(h: Heap, request: Request, held: seq<Payload>) returns (held': seq<Payload>)
    requires h.Valid() && h.head.Some? && HoldsAll(Live(h.L()), held)
    requires request.Ask? ==> request.size + h.virt_end + 2 * PAGE_SIZE < TWO64
    modifies h`blocks, h`members, h`brk
    modifies h.vm`mem, h.vm`role, h.vm`at, h.vm.pmm`free, h.vm.pmm`free_pages, h.vm.pmm.bitmap
    ensures h.Valid() && h.head.Some? && HoldsAll(Live(h.L()), held')
    ensures request.Ask? ==> held' == held || exists a: nat :: held' == held + [Payload(a, request.size)]
    ensures request.GiveBack? ==> held' == if request.which < |held|
                                           then held[..request.which] + held[request.which + 1..] else held
  {
    ghost var live := Live(h.L());
    held' := held;
    match request
    case Ask(size) =>
      var p := h.Allocate(size);
      if p.Some? {
        var block := p.value - HEADER;
        HeldAfterAsk(live, held, Payload(block, size), Live(h.L())[block]);
        held' := held + [Payload(block, size)];
      }
    case GiveBack(which) =>
      if which < |held| {
        assert Holds(live, held[which]);
        h.Free(Some(held[which].block + HEADER));
        HeldAfterGiveBack(live, held, which);
        held' := held[..which] + held[which + 1..];
      }
  }
}
