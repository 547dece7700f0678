/** Taking an address space apart, and the conservation of frames over its whole life. */
module Teardown {
  import opened Wrappers
  import opened PageTables
  import opened VirtualMemory
  import opened AddressSpaces

  /** How far the teardown has got. */
  datatype Stage =
    | Pages(n: nat)             // user pages before position n
    | Below(i: nat, j: nat)     // all pages, tables before entry j of directory i, directories before i
    | Top                       // everything but the PML4
    | All

  /** The frame of node `n` has been given back. */
  predicate Gone(s: Stage, n: Node) {
    match s
    case Pages(p) => n.Leaf? && Pos(Index(0, n.i3, n.i2, n.i1)) < p
    case Below(i, j) => n.Leaf? || (n.Pt? && 512 * n.i3 + n.i2 < 512 * i + j) || (n.Pd? && n.i3 < i)
    case Top => !n.Pml4?
    case All => true
  }

  /** Frame `a` is free exactly if it was or if it belonged to a part of the space that is gone. */
  ghost predicate FreedOk(free: set<nat>, free': set<nat>, role: map<PageAddress, Node>, root: PageAddress, s: Stage,
                          a: nat) {
    a in free' <==> a in free || (a in role && role[a].root == root && Gone(s, role[a]))
  }

  ghost predicate Freed(free: set<nat>, free': set<nat>, role: map<PageAddress, Node>, root: PageAddress, s: Stage) {
    forall a: nat :: FreedOk(free, free', role, root, s, a)
  }

  /** A user space all of whose frames came from the pool. */
  ghost predicate Destroyable(vm: VirtualMemoryManager, root: PageAddress)
    reads vm, vm.pmm, vm.pmm.bitmap
  {
    && vm.pmm.Valid() && WellFormed(vm.T()) && PrivateSpace(vm.T(), root)
    && forall f: PageAddress | f in vm.role && vm.role[f].root == root :: vm.pmm.Managed(f)
  }

  /** Moving from one stage to the next without freeing anything. */
  lemma NothingMore(vm: VirtualMemoryManager, root: PageAddress, free: set<nat>, s: Stage, s': Stage)
    requires Freed(free, vm.pmm.free, vm.role, root, s)
    requires forall f: PageAddress | f in vm.role && vm.role[f].root == root ::
               Gone(s', vm.role[f]) <==> Gone(s, vm.role[f])
    ensures Freed(free, vm.pmm.free, vm.role, root, s')
  {
    forall a: nat ensures FreedOk(free, vm.pmm.free, vm.role, root, s', a) {
      assert FreedOk(free, vm.pmm.free, vm.role, root, s, a);
    }
  }

  /** Gives one frame of the space back: the one of node `n`. */
  method FreeFrame(vm: VirtualMemoryManager, root: PageAddress, f: PageAddress, ghost free: set<nat>, ghost s: Stage,
                   ghost s': Stage)
    requires Destroyable(vm, root) && f in vm.role && vm.role[f].root == root
    requires Freed(free, vm.pmm.free, vm.role, root, s)
    requires forall g: PageAddress | g in vm.role && vm.role[g].root == root ::
               Gone(s', vm.role[g]) <==> Gone(s, vm.role[g]) || vm.role[g] == vm.role[f]
    modifies vm.pmm`free, vm.pmm`free_pages, vm.pmm.bitmap
    ensures Destroyable(vm, root) && Freed(free, vm.pmm.free, vm.role, root, s')
  {
    ghost var before := vm.pmm.free;
    assert vm.pmm.Managed(f);
    assert FrameOk(vm.T(), f);
    vm.pmm.Free(Some(f));
    forall a: nat ensures FreedOk(free, vm.pmm.free, vm.role, root, s', a) {
      assert FreedOk(free, before, vm.role, root, s, a);
      if a in vm.role { assert FrameOk(vm.T(), a); }
    }
  }

  // ----- the user pages

  /** The innermost loop of `free_user_pages`. */
  method FreeTablePages(vm: VirtualMemoryManager, root: PageAddress, i: nat, j: nat, pt: PageAddress,
                        ghost free: set<nat>)
    requires Destroyable(vm, root) && i < 512 && j < 512 && pt in vm.role && vm.role[pt] == Pt(root, 0, i, j)
    requires Freed(free, vm.pmm.free, vm.role, root, Pages(Pos(Index(0, i, j, 0))))
    modifies vm.pmm`free, vm.pmm`free_pages, vm.pmm.bitmap
    ensures Destroyable(vm, root) && Freed(free, vm.pmm.free, vm.role, root, Pages(Pos(Index(0, i, j + 1, 0))))
  {
    assert FrameOk(vm.T(), pt);
    var k := 0;
    while k < ENTRIES_PER_TABLE
      invariant 0 <= k <= 512 && Destroyable(vm, root)
                && Freed(free, vm.pmm.free, vm.role, root, Pages(Pos(Index(0, i, j, k))))
    {
      var entry := vm.mem[pt][k];
      ghost var s, s' := Pages(Pos(Index(0, i, j, k))), Pages(Pos(Index(0, i, j, k + 1)));
      LeafOfEntry(vm.T(), root, i, j, k, pt);
      LeafStep(vm.T(), root, Index(0, i, j, k), s, s');
      if entry.present && entry.user {
        FreeFrame(vm, root, entry.addr, free, s, s');
      } else {
        NothingMore(vm, root, free, s, s');
      }
      k := k + 1;
    }
  }

  /** Entry `k` of a page table is present with the user bit exactly if the leaf of that place exists, and points
      to it. */
  lemma LeafOfEntry(t: Tables, root: PageAddress, i: nat, j: nat, k: nat, pt: PageAddress)
    requires WellFormed(t) && PrivateSpace(t, root) && pt in t.role && t.role[pt] == Pt(root, 0, i, j) && k < 512
             && pt in t.mem
    ensures var w, n := t.mem[pt][k], Leaf(root, 0, i, j, k);
      if w.present && w.user then w.addr in t.role && t.role[w.addr] == n
      else forall f: PageAddress | f in t.role :: t.role[f] != n
  {
    assert LeafOk(t, root, pt, k) && NodeOk(t, Leaf(root, 0, i, j, k)) && FrameOk(t, pt);
    if !(t.mem[pt][k].present && t.mem[pt][k].user) {
      forall f: PageAddress | f in t.role ensures t.role[f] != Leaf(root, 0, i, j, k) {
        assert FrameOk(t, f);
      }
    }
  }

  /** Between the positions of one page and the next only that page is affected. */
  lemma LeafStep(t: Tables, root: PageAddress, ix: Index, s: Stage, s': Stage)
    requires WellFormed(t) && PrivateSpace(t, root) && ix.Ok() && ix.l4 == 0
    requires s == Pages(Pos(ix)) && s' == Pages(Pos(ix.(l1 := ix.l1 + 1)))
    ensures forall f: PageAddress | f in t.role && t.role[f].root == root ::
              Gone(s', t.role[f]) <==> Gone(s, t.role[f]) || t.role[f] == Leaf(root, 0, ix.l3, ix.l2, ix.l1)
  {
    forall f: PageAddress | f in t.role && t.role[f].root == root
      ensures Gone(s', t.role[f]) <==> Gone(s, t.role[f]) || t.role[f] == Leaf(root, 0, ix.l3, ix.l2, ix.l1)
    {
      IndicesOfNode(t, root, f);
      var n := t.role[f];
      if n.Leaf? { PosIsInjective(ix, Index(0, n.i3, n.i2, n.i1)); }
    }
  }

  /** The indices of the nodes of a private space are table indices. */
  lemma IndicesOfNode(t: Tables, root: PageAddress, f: PageAddress)
    requires WellFormed(t) && PrivateSpace(t, root) && f in t.role && t.role[f].root == root
    ensures var n := t.role[f];
      && (!n.Pml4? ==> n.i4 == 0 && Pdpt(root, 0) in t.at)
      && (!n.Pml4? && !n.Pdpt? ==> n.i3 < 512 && Pd(root, 0, n.i3) in t.at)
      && (n.Pt? || n.Leaf? ==> n.i2 < 512 && Pt(root, 0, n.i3, n.i2) in t.at)
      && (n.Leaf? ==> n.i1 < 512)
      && (n.Pml4? ==> f == root)
  {
    var n := t.role[f];
    assert FrameOk(t, f) && NodeOk(t, n) && OnlySlotZero(t, root, n);
    if n.Leaf? {
      assert NodeOk(t, Parent(n)) && NodeOk(t, Parent(Parent(n)));
    } else if n.Pt? {
      assert NodeOk(t, Parent(n));
    }
  }

  /** If a table of the space is missing, so is everything below it. */
  lemma MissingTable(t: Tables, root: PageAddress, n: Node, f: PageAddress)
    requires WellFormed(t) && PrivateSpace(t, root) && n.root == root && n !in t.at && f in t.role
             && t.role[f].root == root
    ensures n.Pd? && n.i4 == 0 && !t.role[f].Pml4? && !t.role[f].Pdpt? ==> t.role[f].i3 != n.i3
    ensures n.Pt? && n.i4 == 0 && (t.role[f].Pt? || t.role[f].Leaf?) ==> !(t.role[f].i3 == n.i3 && t.role[f].i2 == n.i2)
    ensures n.Pdpt? && n.i4 == 0 ==> t.role[f].Pml4?
  {
    IndicesOfNode(t, root, f);
  }

  /** A table entry of the space is present exactly if the child node exists, and points to its frame. */
  lemma ChildOfEntry(t: Tables, root: PageAddress, f: PageAddress, i: nat)
    requires WellFormed(t) && PrivateSpace(t, root) && f in t.role && IsUpper(t.role[f]) && t.role[f].root == root
             && i < 512
    requires t.role[f].Pml4? ==> i == 0
    ensures f in t.mem
    ensures var w, n := t.mem[f][i], Child(t.role[f], i);
      if w.present then w.addr in t.role && t.role[w.addr] == n && n in t.at else n !in t.at
  {
    assert FrameOk(t, f) && OnlySlotZero(t, root, t.role[f]);
    OwnEntryLeads(t, f, i);
    if t.mem[f][i].present {
      StepDown(t, f, i);
      assert FrameOk(t, t.mem[f][i].addr);
    } else {
      AbsentHasNoChild(t, f, i);
    }
  }

  /** The middle loop of `free_user_pages`. */
  method FreeDirectoryPages(vm: VirtualMemoryManager, root: PageAddress, i: nat, pd: PageAddress, ghost free: set<nat>)
    requires Destroyable(vm, root) && i < 512 && pd in vm.role && vm.role[pd] == Pd(root, 0, i)
    requires Freed(free, vm.pmm.free, vm.role, root, Pages(Pos(Index(0, i, 0, 0))))
    modifies vm.pmm`free, vm.pmm`free_pages, vm.pmm.bitmap
    ensures Destroyable(vm, root) && Freed(free, vm.pmm.free, vm.role, root, Pages(Pos(Index(0, i + 1, 0, 0))))
  {
    var j := 0;
    while j < ENTRIES_PER_TABLE
      invariant 0 <= j <= 512 && Destroyable(vm, root)
                && Freed(free, vm.pmm.free, vm.role, root, Pages(Pos(Index(0, i, j, 0))))
    {
      ChildOfEntry(vm.T(), root, pd, j);
      if vm.mem[pd][j].present {
        FreeTablePages(vm, root, i, j, vm.mem[pd][j].addr, free);
      } else {
        SkipTable(vm.T(), root, i, j);
        NothingMore(vm, root, free, Pages(Pos(Index(0, i, j, 0))), Pages(Pos(Index(0, i, j + 1, 0))));
      }
      j := j + 1;
    }
  }

  lemma SkipTable(t: Tables, root: PageAddress, i: nat, j: nat)
    requires WellFormed(t) && PrivateSpace(t, root) && i < 512 && j < 512 && Pt(root, 0, i, j) !in t.at
    ensures forall f: PageAddress | f in t.role && t.role[f].root == root ::
              Gone(Pages(Pos(Index(0, i, j + 1, 0))), t.role[f]) <==> Gone(Pages(Pos(Index(0, i, j, 0))), t.role[f])
  {
    forall f: PageAddress | f in t.role && t.role[f].root == root
      ensures Gone(Pages(Pos(Index(0, i, j + 1, 0))), t.role[f]) <==> Gone(Pages(Pos(Index(0, i, j, 0))), t.role[f])
    {
      IndicesOfNode(t, root, f);
      var n := t.role[f];
      if n.Leaf? {
        var ix := Index(0, n.i3, n.i2, n.i1);
        if Pos(Index(0, i, j, 0)) <= Pos(ix) < Pos(Index(0, i, j, 0)) + 512 { PosInTable(i, j, ix); }
      }
    }
  }

  lemma SkipDirectory(t: Tables, root: PageAddress, i: nat)
    requires WellFormed(t) && PrivateSpace(t, root) && i < 512 && Pd(root, 0, i) !in t.at
    ensures forall f: PageAddress | f in t.role && t.role[f].root == root ::
              Gone(Pages(Pos(Index(0, i + 1, 0, 0))), t.role[f]) <==>
                Gone(Pages(Pos(Index(0, i, 0, 0))), t.role[f])
  {
    forall f: PageAddress | f in t.role && t.role[f].root == root
      ensures Gone(Pages(Pos(Index(0, i + 1, 0, 0))), t.role[f]) <==>
                Gone(Pages(Pos(Index(0, i, 0, 0))), t.role[f])
    {
      IndicesOfNode(t, root, f);
      var n := t.role[f];
      if n.Leaf? {
        var ix := Index(0, n.i3, n.i2, n.i1);
        if Pos(Index(0, i, 0, 0)) <= Pos(ix) < Pos(Index(0, i, 0, 0)) + 512 * 512 { PosInDirectory(i, ix); }
      }
    }
  }

  /** The outermost loop of `free_user_pages`. */
  method FreeAllPages(vm: VirtualMemoryManager, root: PageAddress, pdpt: PageAddress, ghost free: set<nat>)
    requires Destroyable(vm, root) && pdpt in vm.role && vm.role[pdpt] == Pdpt(root, 0)
    requires Freed(free, vm.pmm.free, vm.role, root, Pages(Pos(Index(0, 0, 0, 0))))
    modifies vm.pmm`free, vm.pmm`free_pages, vm.pmm.bitmap
    ensures Destroyable(vm, root) && Freed(free, vm.pmm.free, vm.role, root, Pages(Pos(Index(0, 512, 0, 0))))
  {
    var i := 0;
    while i < ENTRIES_PER_TABLE
      invariant 0 <= i <= 512 && Destroyable(vm, root)
                && Freed(free, vm.pmm.free, vm.role, root, Pages(Pos(Index(0, i, 0, 0))))
    {
      ChildOfEntry(vm.T(), root, pdpt, i);
      if vm.mem[pdpt][i].present {
        FreeDirectoryPages(vm, root, i, vm.mem[pdpt][i].addr, free);
      } else {
        SkipDirectory(vm.T(), root, i);
        NothingMore(vm, root, free, Pages(Pos(Index(0, i, 0, 0))), Pages(Pos(Index(0, i + 1, 0, 0))));
      }
      i := i + 1;
    }
  }

  /** All positions of pages come before the last. */
  lemma AllPagesGone(t: Tables, root: PageAddress)
    requires WellFormed(t) && PrivateSpace(t, root)
    ensures forall f: PageAddress | f in t.role && t.role[f].root == root ::
              Gone(Below(0, 0), t.role[f]) <==> Gone(Pages(Pos(Index(0, 512, 0, 0))), t.role[f])
  {
    forall f: PageAddress | f in t.role && t.role[f].root == root
      ensures Gone(Below(0, 0), t.role[f]) <==> Gone(Pages(Pos(Index(0, 512, 0, 0))), t.role[f])
    {
      IndicesOfNode(t, root, f);
    }
  }

  /** Gives the pages of a space back, but none of its tables. */
  method FreeUserPages(vm: VirtualMemoryManager, root: PageAddress, ghost free: set<nat>)
    requires Destroyable(vm, root) && Freed(free, vm.pmm.free, vm.role, root, Pages(0))
    modifies vm.pmm`free, vm.pmm`free_pages, vm.pmm.bitmap
    ensures Destroyable(vm, root) && Freed(free, vm.pmm.free, vm.role, root, Below(0, 0))
  {
    ChildOfEntry(vm.T(), root, root, 0);
    if !vm.mem[root][0].present {
      forall f: PageAddress | f in vm.role && vm.role[f].root == root
        ensures Gone(Below(0, 0), vm.role[f]) <==> Gone(Pages(0), vm.role[f])
      {
        MissingTable(vm.T(), root, Pdpt(root, 0), f);
      }
      NothingMore(vm, root, free, Pages(0), Below(0, 0));
      return;
    }
    FreeAllPages(vm, root, vm.mem[root][0].addr, free);
    AllPagesGone(vm.T(), root);
    NothingMore(vm, root, free, Pages(Pos(Index(0, 512, 0, 0))), Below(0, 0));
  }

  // ----- the tables

  /** Gives the page tables of directory `i` back, and then the directory. */
  method FreeDirectory(vm: VirtualMemoryManager, root: PageAddress, i: nat, pd: PageAddress, ghost free: set<nat>)
    requires Destroyable(vm, root) && i < 512 && pd in vm.role && vm.role[pd] == Pd(root, 0, i)
    requires Freed(free, vm.pmm.free, vm.role, root, Below(i, 0))
    modifies vm.pmm`free, vm.pmm`free_pages, vm.pmm.bitmap
    ensures Destroyable(vm, root) && Freed(free, vm.pmm.free, vm.role, root, Below(i + 1, 0))
  {
    var j := 0;
    while j < ENTRIES_PER_TABLE
      invariant 0 <= j <= 512 && Destroyable(vm, root) && Freed(free, vm.pmm.free, vm.role, root, Below(i, j))
    {
      ChildOfEntry(vm.T(), root, pd, j);
      TableStep(vm.T(), root, i, j);
      if vm.mem[pd][j].present {
        FreeFrame(vm, root, vm.mem[pd][j].addr, free, Below(i, j), Below(i, j + 1));
      } else {
        forall f: PageAddress | f in vm.role ensures vm.role[f] != Pt(root, 0, i, j) {
          assert FrameOk(vm.T(), f);
        }
        NothingMore(vm, root, free, Below(i, j), Below(i, j + 1));
      }
      j := j + 1;
    }
    forall f: PageAddress | f in vm.role && vm.role[f].root == root
      ensures Gone(Below(i + 1, 0), vm.role[f]) <==> Gone(Below(i, 512), vm.role[f]) || vm.role[f] == Pd(root, 0, i)
    {
      IndicesOfNode(vm.T(), root, f);
    }
    FreeFrame(vm, root, pd, free, Below(i, 512), Below(i + 1, 0));
  }

  lemma TableStep(t: Tables, root: PageAddress, i: nat, j: nat)
    requires WellFormed(t) && PrivateSpace(t, root) && i < 512 && j < 512
    ensures forall f: PageAddress | f in t.role && t.role[f].root == root ::
              Gone(Below(i, j + 1), t.role[f]) <==> Gone(Below(i, j), t.role[f]) || t.role[f] == Pt(root, 0, i, j)
  {
    forall f: PageAddress | f in t.role && t.role[f].root == root
      ensures Gone(Below(i, j + 1), t.role[f]) <==> Gone(Below(i, j), t.role[f]) || t.role[f] == Pt(root, 0, i, j)
    {
      IndicesOfNode(t, root, f);
    }
  }

  /** Gives all tables below PML4 entry 0 back. */
  method FreeTables(vm: VirtualMemoryManager, root: PageAddress, ghost free: set<nat>)
    requires Destroyable(vm, root) && Freed(free, vm.pmm.free, vm.role, root, Below(0, 0))
    modifies vm.pmm`free, vm.pmm`free_pages, vm.pmm.bitmap
    ensures Destroyable(vm, root) && Freed(free, vm.pmm.free, vm.role, root, Top)
  {
    ChildOfEntry(vm.T(), root, root, 0);
    if vm.mem[root][0].present {
      var pdpt := vm.mem[root][0].addr;
      var i := 0;
      while i < ENTRIES_PER_TABLE
        invariant 0 <= i <= 512 && Destroyable(vm, root) && Freed(free, vm.pmm.free, vm.role, root, Below(i, 0))
      {
        ChildOfEntry(vm.T(), root, pdpt, i);
        if vm.mem[pdpt][i].present {
          FreeDirectory(vm, root, i, vm.mem[pdpt][i].addr, free);
        } else {
          forall f: PageAddress | f in vm.role && vm.role[f].root == root
            ensures Gone(Below(i + 1, 0), vm.role[f]) <==> Gone(Below(i, 0), vm.role[f])
          {
            IndicesOfNode(vm.T(), root, f);
            MissingTable(vm.T(), root, Pd(root, 0, i), f);
          }
          NothingMore(vm, root, free, Below(i, 0), Below(i + 1, 0));
        }
        i := i + 1;
      }
      forall f: PageAddress | f in vm.role && vm.role[f].root == root
        ensures Gone(Top, vm.role[f]) <==> Gone(Below(512, 0), vm.role[f]) || vm.role[f] == Pdpt(root, 0)
      {
        IndicesOfNode(vm.T(), root, f);
      }
      FreeFrame(vm, root, pdpt, free, Below(512, 0), Top);
    } else {
      forall f: PageAddress | f in vm.role && vm.role[f].root == root
        ensures Gone(Top, vm.role[f]) <==> Gone(Below(0, 0), vm.role[f])
      {
        MissingTable(vm.T(), root, Pdpt(root, 0), f);
      }
      NothingMore(vm, root, free, Below(0, 0), Top);
    }
  }

  // ----- the whole space

  ghost function NodesOf(at: map<Node, PageAddress>, root: int): set<Node> {
    set n | n in at && n.root == root
  }

  /** The tables without those of one space. */
  ghost function RemoveSpace(t: Tables, root: PageAddress): Tables {
    Tables(t.mem, t.role - Owned(t.role, root), t.at - NodesOf(t.at, root))
  }

  lemma RemoveSpaceKeepsOrder(t: Tables, root: PageAddress)
    requires WellFormed(t)
    ensures WellFormed(RemoveSpace(t, root))
    ensures forall s: PageAddress | s != root && PrivateSpace(t, s) :: PrivateSpace(RemoveSpace(t, root), s)
    ensures KernelShared(t) ==> KernelShared(RemoveSpace(t, root))
  {
    var u := RemoveSpace(t, root);
    forall f: PageAddress, i: nat ensures EntryOk(u, f, i) {
      assert EntryOk(t, f, i);
    }
    forall n: Node ensures NodeOk(u, n) {
      assert NodeOk(t, n);
    }
    forall f: PageAddress ensures FrameOk(u, f) {
      assert FrameOk(t, f);
    }
    if KernelShared(t) {
      forall r: PageAddress, s: PageAddress, j: nat ensures SharedAt(u, r, s, j) {
        assert SharedAt(t, r, s, j);
      }
    }
    forall s: PageAddress | s != root && PrivateSpace(t, s) ensures PrivateSpace(u, s) {
      forall f: PageAddress, i: nat ensures LeafOk(u, s, f, i) {
        assert LeafOk(t, s, f, i);
      }
      forall n: Node ensures OnlySlotZero(u, s, n) {
        assert OnlySlotZero(t, s, n);
      }
    }
  }

  /** Destroys a user space: exactly its own frames return to the pool, and no byte of memory and no other space
      changes.  The state stays valid exactly if the space is not current: the current one is used on, with its
      tables in the pool. */
  method DestroyAddressSpace(vm: VirtualMemoryManager, space: Option<PageAddress>)
    requires vm.Valid() && (space.Some? ==> Destroyable(vm, space.value))
    modifies vm`role, vm`at, vm.pmm`free, vm.pmm`free_pages, vm.pmm.bitmap
    ensures vm.Valid() <==> space != Some(vm.pml4_phys)
    ensures space == None ==> vm.T() == old(vm.T()) && vm.pmm.free == old(vm.pmm.free)
    ensures space.Some? ==>
              && vm.pmm.free == old(vm.pmm.free) + old(Owned(vm.role, space.value))
              && vm.role == old(vm.role) - old(Owned(vm.role, space.value))
              && forall s: PageAddress | s != space.value && old(PrivateSpace(vm.T(), s)) :: PrivateSpace(vm.T(), s)
    ensures space.Some? ==> (vm.pml4_phys in vm.pmm.free <==> space.value == vm.pml4_phys)
    ensures old(KernelShared(vm.T())) ==> KernelShared(vm.T())
  {
    if space == None {
      return;
    }
    var root := space.value;
    ghost var t, free := vm.T(), vm.pmm.free;
    vm.RoleNotFree();
    RemoveSpaceKeepsOrder(t, root);
    FreeUserPages(vm, root, free);
    FreeTables(vm, root, free);
    forall f: PageAddress | f in vm.role && vm.role[f].root == root
      ensures Gone(All, vm.role[f]) <==> Gone(Top, vm.role[f]) || vm.role[f] == vm.role[root]
    {
      IndicesOfNode(t, root, f);
    }
    FreeFrame(vm, root, root, free, Top, All);
    vm.role, vm.at := RemoveSpace(t, root).role, RemoveSpace(t, root).at;
    forall a: nat ensures a in vm.pmm.free <==> a in free || a in Owned(t.role, root) {
      assert FreedOk(free, vm.pmm.free, t.role, root, All, a);
    }
    forall a: nat ensures vm.PoolOk(a) {
      assert old(vm.PoolOk(a));
    }
  }
}
