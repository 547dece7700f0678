/** The whole life of a user address space: it is created, filled, copied into by `fork`, and destroyed, and
    then exactly the pages that were free before it was created are free again. */
module Lifecycle {
  import opened AddressSpaces
  import opened Machine
  import opened PageTables
  import opened Teardown
  import opened VirtualMemory
  import opened Wrappers

  /** Space `root` has been created since the roles were `role` and the free pages `free`, and nothing but
      `root` has taken pages since. */
  ghost predicate Alive(vm: VirtualMemoryManager, role: map<PageAddress, Node>, free: set<nat>, root: PageAddress)
    reads vm, vm.pmm, vm.pmm.bitmap
  {
    && vm.Valid() && PrivateSpace(vm.T(), root) && root != vm.pml4_phys
    && root in free && (forall f: PageAddress | f in role :: f !in free && role[f].root != root)
    && (forall a: nat | a in free :: vm.pmm.Managed(a))
    && Moved(role[root := Pml4(root)], free - {root}, vm.role, vm.pmm.free, root, 0)
  }

  /** At every moment of its life a space can be destroyed, and what it holds is exactly what the pool lacks. */
  lemma AliveIsConserved(vm: VirtualMemoryManager, role: map<PageAddress, Node>, free: set<nat>, root: PageAddress)
    requires Alive(vm, role, free, root)
    ensures Destroyable(vm, root)
    ensures vm.pmm.free + Owned(vm.role, root) == free && vm.role - Owned(vm.role, root) == role
  {
    ghost var born := role[root := Pml4(root)];
    forall f: PageAddress ensures MovedOk(born, free - {root}, vm.role, vm.pmm.free, root, 0, f) {
    }
    forall f: PageAddress | f in vm.role && vm.role[f].root == root ensures vm.pmm.Managed(f) {
      assert MovedOk(born, free - {root}, vm.role, vm.pmm.free, root, 0, f);
    }
    forall a: nat ensures vm.PoolOk(a) {
    }
    forall a: nat ensures a in vm.pmm.free + Owned(vm.role, root) <==> a in free {
      assert vm.PoolOk(a);
      if a < MAX_PHYSICAL && a % PAGE_SIZE == 0 {
        assert MovedOk(born, free - {root}, vm.role, vm.pmm.free, root, 0, a);
      }
    }
    assert vm.role - Owned(vm.role, root) == role by {
      forall f: PageAddress ensures f in vm.role - Owned(vm.role, root) <==> f in role {
        assert MovedOk(born, free - {root}, vm.role, vm.pmm.free, root, 0, f);
      }
      forall f: PageAddress | f in role ensures vm.role[f] == role[f] {
        assert MovedOk(born, free - {root}, vm.role, vm.pmm.free, root, 0, f);
      }
    }
  }

  /** Takes the space down again. */
  method End(vm: VirtualMemoryManager, ghost role: map<PageAddress, Node>, ghost free: set<nat>, root: PageAddress)
    requires Alive(vm, role, free, root)
    modifies vm`role, vm`at, vm.pmm`free, vm.pmm`free_pages, vm.pmm.bitmap
    ensures vm.Valid() && vm.pmm.free == free && vm.role == role
    ensures forall s: PageAddress | s != root && old(PrivateSpace(vm.T(), s)) :: PrivateSpace(vm.T(), s)
    ensures old(KernelShared(vm.T())) ==> KernelShared(vm.T())
  {
    AliveIsConserved(vm, role, free, root);
    DestroyAddressSpace(vm, Some(root));
  }

  /** Creates a space. */
  method Begin(vm: VirtualMemoryManager) returns (r: Option<PageAddress>)
    requires vm.Valid()
    modifies vm`mem, vm`role, vm`at, vm.pmm`free, vm.pmm`free_pages, vm.pmm.bitmap
    ensures vm.Valid() && SameWalks(old(vm.T()), vm.mem)
    ensures r == None ==> vm.T() == old(vm.T()) && vm.pmm.free == old(vm.pmm.free) == {}
    ensures r.Some? ==>
              && Alive(vm, old(vm.role), old(vm.pmm.free), r.value)
              && vm.role == old(vm.role)[r.value := Pml4(r.value)] && vm.pmm.free == old(vm.pmm.free) - {r.value}
              && (forall x: PageAddress | x in old(vm.mem) && x != r.value ::
                    x in vm.mem && vm.mem[x] == old(vm.mem)[x])
              && Bare(vm.T(), r.value)
              && forall ix: Index | ix.Ok() && ix.l4 == 0 :: Walk(vm.mem, r.value, ix) == None
    ensures forall s: PageAddress | old(PrivateSpace(vm.T(), s)) :: PrivateSpace(vm.T(), s)
    ensures old(KernelShared(vm.T())) ==> KernelShared(vm.T())
  {
    ghost var t, free := vm.T(), vm.pmm.free;
    forall f: PageAddress | f in t.role ensures f !in free {
      assert vm.PoolOk(f);
    }
    forall a: nat | a in free ensures vm.pmm.Managed(a) {
      assert vm.PoolOk(a);
    }
    r := vm.CreateAddressSpace();
    if r.Some? {
      NewRootIsFresh(t, r.value);
      ghost var born, rest := t.role[r.value := Pml4(r.value)], free - {r.value};
      forall f: PageAddress ensures MovedOk(born, rest, vm.role, vm.pmm.free, r.value, 0, f) {
      }
    }
  }

  /** Exactly one page fewer. */
  ghost predicate Lacks(free: set<nat>, rest: set<nat>, page: nat) {
    page in free && rest == free - {page} && |rest| == |free| - 1
  }

  /** A page from the pool, with the bytes given. */
  method FilledPage(vm: VirtualMemoryManager, data: Page) returns (page: Option<PageAddress>)
    requires vm.Valid()
    modifies vm`mem, vm.pmm`free, vm.pmm`free_pages, vm.pmm.bitmap
    ensures vm.Valid()
    ensures page == None ==> vm.mem == old(vm.mem) && vm.pmm.free == old(vm.pmm.free) == {}
    ensures page.Some? ==>
              && page.value in old(vm.pmm.free) && vm.pmm.free == old(vm.pmm.free) - {page.value}
              && vm.Fresh(page.value) && vm.mem == old(vm.mem)[page.value := data] && SameWalks(old(vm.T()), vm.mem)
    ensures forall s: PageAddress | old(PrivateSpace(vm.T(), s)) :: PrivateSpace(vm.T(), s)
  {
    var frame := vm.pmm.Allocate();
    forall a: nat ensures vm.PoolOk(a) {
      assert old(vm.PoolOk(a));
    }
    if frame == None {
      return None;
    }
    assert old(vm.PoolOk(frame.value));
    StoreBytes(vm, frame.value, data);
    return Some(frame.value);
  }

  /** Gives the space one more page: a page from the pool, filled and mapped, or given back if the tables cannot
      be made.  Without the user bit the page belongs to no space from then on, and the pool that the space can
      give back lacks it. */
  method AddPage(vm: VirtualMemoryManager, root: PageAddress, ix: Index, data: Page, flags: Flags,
                 ghost role: map<PageAddress, Node>, ghost free: set<nat>) returns (ok: bool, ghost rest: set<nat>)
    requires Alive(vm, role, free, root) && ix.Ok() && ix.l4 == 0 && Walk(vm.mem, root, ix) == None
    modifies vm`mem, vm`role, vm`at, vm.pmm`free, vm.pmm`free_pages, vm.pmm.bitmap
    ensures ok ==> Walk(vm.mem, root, ix).Some?
                   && Maps(Walk(vm.mem, root, ix).value, Walk(vm.mem, root, ix).value.addr, flags)
                   && Walk(vm.mem, root, ix).value.addr in old(vm.pmm.free)
    ensures ok <==> 1 + old(Missing(vm.mem, root, ix)) <= |old(vm.pmm.free)|
    ensures Alive(vm, role, rest, root)
    ensures if ok && !flags.user then Lacks(free, rest, Walk(vm.mem, root, ix).value.addr) else rest == free
    ensures forall j: Index | j.Ok() && (j != ix || !ok) :: Walk(vm.mem, root, j) == old(Walk(vm.mem, root, j))
    ensures KernelShared(vm.T()) <==> old(KernelShared(vm.T()))
  {
    ghost var t, pool := vm.T(), vm.pmm.free;
    var page := FilledPage(vm, data);
    rest := free;
    if page == None {
      return false, free;
    }
    MissingAfterStore(t, page.value, data, root, ix);
    ok := MapOrGiveBack(vm, root, ix, page.value, flags, pool);
    RootsAfterStore(t, t, vm.T(), root, page.value, data);
    SharedBelow(t, vm.T(), root, 0);
    if ok && !flags.user {
      AliveWithout(role, free, t.role, pool, vm.role, vm.pmm.free, root, page.value);
      rest := free - {page.value};
    } else {
      MovedTwice(role[root := Pml4(root)], free - {root}, t.role, pool, vm.role, vm.pmm.free, root, 0);
    }
  }

  /** A page that leaves the pool without a role might as well not have been in it. */
  lemma AliveWithout(role: map<PageAddress, Node>, free: set<nat>, before: map<PageAddress, Node>, pool: set<nat>,
                     after: map<PageAddress, Node>, pool': set<nat>, root: PageAddress, page: PageAddress)
    requires Moved(role[root := Pml4(root)], free - {root}, before, pool, root, 0)
    requires page in pool && page !in before && Moved(before, pool - {page}, after, pool', root, 0)
    ensures page in free && page != root && page !in after
    ensures Moved(role[root := Pml4(root)], free - {page} - {root}, after, pool', root, 0)
  {
    var born := role[root := Pml4(root)];
    assert MovedOk(born, free - {root}, before, pool, root, 0, page);
    assert MovedOk(before, pool - {page}, after, pool', root, 0, page);
    forall f: PageAddress ensures MovedOk(born, free - {page} - {root}, after, pool', root, 0, f) {
      assert MovedOk(born, free - {root}, before, pool, root, 0, f);
      assert MovedOk(before, pool - {page}, after, pool', root, 0, f);
    }
  }

  /** A space is created, given one page without the user bit, and destroyed: if the page could be mapped, it is
      lost, and it alone. */
  method PlainPageIsLost(vm: VirtualMemoryManager, ix: Index, data: Page, flags: Flags) returns (mapped: bool)
    requires vm.Valid() && ix.Ok() && ix.l4 == 0 && !flags.user
    modifies vm`mem, vm`role, vm`at, vm.pmm`free, vm.pmm`free_pages, vm.pmm.bitmap
    ensures vm.Valid() && vm.role == old(vm.role)
    ensures mapped <==> vm.pmm.free != old(vm.pmm.free)
    ensures mapped ==> exists page: PageAddress :: Lacks(old(vm.pmm.free), vm.pmm.free, page)
  {
    ghost var role, free := vm.role, vm.pmm.free;
    var root := Begin(vm);
    if root == None {
      return false;
    }
    ghost var rest;
    mapped, rest := AddPage(vm, root.value, ix, data, flags, role, free);
    End(vm, role, rest, root.value);
  }

  /** The cost of a copy depends on the translations only. */
  lemma SameCost(t: Tables, mem: Memory, src: PageAddress)
    requires SameWalks(t, mem) && IsRoot(t, src)
    ensures CopyCost(mem, src) == CopyCost(t.mem, src)
  {
    var n := Pos(Index(0, 512, 0, 0));
    forall ix: Index ensures ix in PagesBefore(mem, src, n) <==> ix in PagesBefore(t.mem, src, n) {
      if ix.Ok() { assert Walk(mem, src, ix) == Walk(t.mem, src, ix); }
    }
    assert PagesBefore(mem, src, n) == PagesBefore(t.mem, src, n);
  }

  /** A space that has just been created can be copied into, and a copy costs what it cost before. */
  lemma ReadyToCopy(t: Tables, free: set<nat>, u: Tables, free': set<nat>, src: PageAddress, dest: PageAddress)
    requires WellFormed(u) && IsRoot(t, src) && PrivateSpace(u, dest) && SameWalks(t, u.mem)
    requires u.role == t.role[dest := Pml4(dest)] && dest !in t.role && dest in free && free' == free - {dest}
    requires forall x: PageAddress | x in t.mem && x != dest :: x in u.mem
    requires forall f: PageAddress | f in u.role :: f !in free'
    requires forall ix: Index :: SourceOk(t, free, src, ix)
    requires forall ix: Index | ix.Ok() && ix.l4 == 0 :: Walk(u.mem, dest, ix) == None
    ensures Copying(u, free', src, dest) && CopyCost(u.mem, src) == CopyCost(t.mem, src)
  {
    forall ix: Index ensures SourceOk(u, free', src, ix) {
      assert SourceOk(t, free, src, ix);
    }
    SameCost(t, u.mem, src);
  }

  lemma WalksElsewhere(t: Tables, u: Tables, mem: Memory, dest: PageAddress)
    requires SameWalks(t, u.mem) && u.role == t.role[dest := Pml4(dest)] && dest !in t.role
    requires forall r: PageAddress, ix: Index | IsRoot(u, r) && r != dest && ix.Ok() ::
               Walk(mem, r, ix) == Walk(u.mem, r, ix)
    ensures SameWalks(t, mem)
  {
  }

  /** Copies a space into one that has just been created. */
  method CopyInto(vm: VirtualMemoryManager, src: PageAddress, dest: PageAddress, ghost role: map<PageAddress, Node>,
                  ghost free: set<nat>) returns (copied: bool)
    requires Alive(vm, role, free, dest) && Copying(vm.T(), vm.pmm.free, src, dest) && Bare(vm.T(), dest)
    modifies vm`mem, vm`role, vm`at, vm.pmm`free, vm.pmm`free_pages, vm.pmm.bitmap
    ensures Alive(vm, role, free, dest)
    ensures copied <==> old(CopyCost(vm.mem, src)) <= |old(vm.pmm.free)|
    ensures forall r: PageAddress, ix: Index | old(IsRoot(vm.T(), r)) && r != dest && ix.Ok() ::
              Walk(vm.mem, r, ix) == old(Walk(vm.mem, r, ix))
    ensures forall s: PageAddress | old(PrivateSpace(vm.T(), s)) :: PrivateSpace(vm.T(), s)
    ensures KernelShared(vm.T()) <==> old(KernelShared(vm.T()))
  {
    ghost var u, pool := vm.T(), vm.pmm.free;
    copied := CopyUserPages(vm, src, dest);
    MovedTwice(role[dest := Pml4(dest)], free - {dest}, u.role, pool, vm.role, vm.pmm.free, dest, 0);
    forall r: PageAddress, ix: Index | IsRoot(u, r) && r != dest && ix.Ok()
      ensures Walk(vm.mem, r, ix) == Walk(u.mem, r, ix)
    {
      assert WalkKept(u, vm.T(), dest, r, ix);
    }
  }

  /** Copies a space into a new one, as `fork` does, and destroys the copy, whether it is complete or memory
      ran out halfway: the pool and the roles of all frames are as before.  The copy is complete exactly if the pool
      had one frame for the new space and what the copy costs. */
  method CopyAndDestroy(vm: VirtualMemoryManager, src: PageAddress) returns (copied: bool)
    requires vm.Valid() && IsRoot(vm.T(), src) && forall ix: Index :: SourceOk(vm.T(), vm.pmm.free, src, ix)
    modifies vm`mem, vm`role, vm`at, vm.pmm`free, vm.pmm`free_pages, vm.pmm.bitmap
    ensures vm.Valid() && forall s: PageAddress | old(PrivateSpace(vm.T(), s)) :: PrivateSpace(vm.T(), s)
    ensures vm.pmm.free == old(vm.pmm.free) && vm.role == old(vm.role)
    ensures copied <==> 1 + old(CopyCost(vm.mem, src)) <= |old(vm.pmm.free)|
    ensures SameWalks(old(vm.T()), vm.mem)
    ensures old(KernelShared(vm.T())) ==> KernelShared(vm.T())
  {
    ghost var t, free := vm.T(), vm.pmm.free;
    var dest := Begin(vm);
    if dest == None {
      return false;
    }
    ghost var u := vm.T();
    vm.RoleNotFree();
    ReadyToCopy(t, free, u, vm.pmm.free, src, dest.value);
    copied := CopyInto(vm, src, dest.value, t.role, free);
    WalksElsewhere(t, u, vm.mem, dest.value);
    End(vm, t.role, free, dest.value);
  }

  /** A space is created, given pages at any positions for as long as memory lasts, copied, and destroyed
      together with the copy.  What the pool lacks at the end is exactly the pages mapped without the user bit. */
  method WholeLife(vm: VirtualMemoryManager, places: seq<Index>, data: seq<Page>, flags: Flags)
    returns (mapped: nat, copied: bool)
    requires vm.Valid() && |data| == |places|
    requires forall k | 0 <= k < |places| :: places[k].Ok() && places[k].l4 == 0
    requires forall j, k | 0 <= j < k < |places| :: places[j] != places[k]
    modifies vm`mem, vm`role, vm`at, vm.pmm`free, vm.pmm`free_pages, vm.pmm.bitmap
    ensures vm.Valid() && vm.role == old(vm.role) && mapped <= |places|
    ensures vm.pmm.free <= old(vm.pmm.free)
            && |old(vm.pmm.free)| - |vm.pmm.free| == if flags.user then 0 else mapped
    ensures vm.pmm.free == old(vm.pmm.free) <==> flags.user || mapped == 0
    ensures old(KernelShared(vm.T())) ==> KernelShared(vm.T())
  {
    ghost var role, free := vm.role, vm.pmm.free;
    var root := Begin(vm);
    if root == None {
      return 0, false;
    }
    ghost var rest;
    mapped, rest := AddPages(vm, root.value, places, data, flags, role, free);
    vm.RoleNotFree();
    PrivateIsSource(vm.T(), vm.pmm.free, root.value);
    copied := CopyAndDestroy(vm, root.value);
    End(vm, role, rest, root.value);
    SameSize(rest, free);
  }

  /** Pages at the positions given, as long as memory lasts. */
  method AddPages(vm: VirtualMemoryManager, root: PageAddress, places: seq<Index>, data: seq<Page>, flags: Flags,
                  ghost role: map<PageAddress, Node>, ghost free: set<nat>)
    returns (mapped: nat, ghost rest: set<nat>)
    requires Alive(vm, role, free, root) && |data| == |places|
    requires forall k | 0 <= k < |places| ::
               places[k].Ok() && places[k].l4 == 0 && Walk(vm.mem, root, places[k]) == None
    requires forall j, k | 0 <= j < k < |places| :: places[j] != places[k]
    modifies vm`mem, vm`role, vm`at, vm.pmm`free, vm.pmm`free_pages, vm.pmm.bitmap
    ensures Alive(vm, role, rest, root) && mapped <= |places|
    ensures rest <= free && |free| - |rest| == if flags.user then 0 else mapped
    ensures KernelShared(vm.T()) <==> old(KernelShared(vm.T()))
  {
    mapped, rest := 0, free;
    var ok := true;
    while ok && mapped < |places|
      invariant mapped <= |places| && Alive(vm, role, rest, root)
      invariant rest <= free && |free| - |rest| == if flags.user then 0 else mapped
      invariant forall k | mapped <= k < |places| :: Walk(vm.mem, root, places[k]) == None
      invariant KernelShared(vm.T()) <==> old(KernelShared(vm.T()))
      decreases |places| - mapped, ok
    {
      ok, rest := AddPage(vm, root, places[mapped], data[mapped], flags, role, rest);
      if ok { mapped := mapped + 1; }
    }
  }

  lemma SameSize(a: set<nat>, b: set<nat>)
    requires a <= b
    ensures a == b <==> |a| == |b|
  {
    if |a| == |b| {
      assert b == a + (b - a);
    }
  }
}
