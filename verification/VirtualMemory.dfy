/** The virtual memory manager: mapping, unmapping, and the life of an address space. */
module VirtualMemory {
  import opened Machine
  import PageAllocator
  import opened PageTables
  import opened Wrappers

  class VirtualMemoryManager {
    const pmm: PageAllocator.PhysicalMemoryManager
    var mem: Memory                  // physical memory, as the direct map shows it
    var pml4_phys: PageAddress       // the current address space

    // Which frame is which table or private page of which address space, and where it is.
    ghost var role: map<PageAddress, Node>
    ghost var at: map<Node, PageAddress>

    ghost function T(): Tables
      reads this
    {
      Tables(mem, role, at)
    }

    /** A free page is in memory and has no role. */
    ghost predicate PoolOk(a: nat)
      reads this, pmm
    {
      && (pmm.Managed(a) ==> a < MAX_PHYSICAL && a % PAGE_SIZE == 0 && a in mem)
      && (a in pmm.free ==> pmm.Managed(a) && a !in role)
    }

    ghost predicate Valid()
      reads this, pmm, pmm.bitmap
    {
      && pmm.Valid()
      && WellFormed(T())
      && IsRoot(T(), pml4_phys)
      && forall a: nat :: PoolOk(a)
    }

    constructor (allocator: PageAllocator.PhysicalMemoryManager, memory: Memory, boot_pml4: PageAddress,
                 ghost tables: Tables)
      requires allocator.Valid() && WellFormed(tables) && IsRoot(tables, boot_pml4) && tables.mem == memory
      requires forall a: nat :: (allocator.Managed(a) ==> a < MAX_PHYSICAL && a % PAGE_SIZE == 0 && a in memory)
                                && (a in allocator.free ==> allocator.Managed(a) && a !in tables.role)
      ensures Valid() && pmm == allocator && T() == tables && pml4_phys == boot_pml4
    {
      pmm, mem, pml4_phys, role, at := allocator, memory, boot_pml4, tables.role, tables.at;
      new;
      forall a: nat ensures PoolOk(a) {
      }
    }

    lemma RoleNotFree()
      requires Valid()
      ensures forall x: PageAddress | x in role :: x !in pmm.free
    {
      forall x: PageAddress | x in role ensures x !in pmm.free {
        assert PoolOk(x);
      }
    }

    /** Flags that do not make a large page of an entry. */
    predicate PlainFlags(flags: Flags) {
      flags.low / 16 % 2 == 0
    }

    /** The table below entry `index` of the table at `parent`, made if it is not there.  `flags` are always
        granted in addition.  Without a free page nothing changes. */
    method GetOrCreateTable(parent: PageAddress, index: nat, flags: Flags) returns (r: Option<PageAddress>)
      requires Valid() && parent in role && IsUpper(role[parent]) && index < 512
      requires Entry(mem, parent, index).present || Child(role[parent], index) !in at
      requires !Huge(Entry(mem, parent, index)) && PlainFlags(flags)
      modifies this`mem, this`role, this`at, pmm`free, pmm`free_pages, pmm.bitmap
      ensures Valid() && OnlyEntry(old(T()), T(), parent, index)
      ensures Extended(old(T()), old(pmm.free), T(), pmm.free, old(Child(role[parent], index).root),
                       old(Child(role[parent], index).i4))
      ensures r == None ==> T() == old(T()) && pmm.free == {}
      ensures r == None <==> !old(Entry(mem, parent, index)).present && old(pmm.free) == {}
      ensures TableStep(old(T()), old(pmm.free), T(), pmm.free, parent, index, flags, r)
      ensures old(Entry(mem, parent, index)).present ==>
                Entry(mem, parent, index) == Widen(old(Entry(mem, parent, index)), flags)
      ensures r.Some? ==>
                && Leads(Entry(mem, parent, index))
                && r.value in role && role[r.value] == old(Child(role[parent], index))
                && Entry(mem, parent, index).present && Entry(mem, parent, index).addr == r.value
                && (flags.user ==> Entry(mem, parent, index).user)
                && (flags.writable ==> Entry(mem, parent, index).writable)
    {
      assert FrameOk(T(), parent);
      RoleNotFree();
      if !mem[parent][index].present {
        ExtendedByNothing(T(), pmm.free, Child(role[parent], index).root, Child(role[parent], index).i4);
        var page := pmm.Allocate();
        if page == None {
          forall a: nat ensures PoolOk(a) {
            assert old(PoolOk(a));
          }
          return None;
        }
        assert old(PoolOk(page.value));
        HangTable(parent, index, page.value, Word(true, flags.writable, flags.user, flags.low, page.value, flags.high),
                  old(pmm.free));
        forall a: nat ensures PoolOk(a) {
          assert old(PoolOk(a));
        }
        return Some(page.value);
      }
      ExtendedByWidening(T(), pmm.free, parent, index, flags, Child(role[parent], index).root,
                         Child(role[parent], index).i4);
      mem := SetEntry(mem, parent, index, Widen(mem[parent][index], flags));
      StepDown(T(), parent, index);
      forall a: nat ensures PoolOk(a) {
        assert old(PoolOk(a));
      }
      return Some(mem[parent][index].addr);
    }

    /** The page at `g`, just taken from the pool, is cleared and hung into the parent. */
    method HangTable(parent: PageAddress, index: nat, g: PageAddress, w: Word, ghost free: set<nat>)
      requires WellFormed(T()) && parent in role && parent in mem && IsUpper(role[parent]) && index < 512
      requires !Entry(mem, parent, index).present && Child(role[parent], index) !in at
      requires g in mem && g !in role && Leads(w) && w.addr == g && g in free
      requires forall x: PageAddress | x in role :: x !in free
      modifies this`mem, this`role, this`at
      ensures T() == AddTable(old(T()), parent, index, g, w)
      ensures WellFormed(T())
      ensures Extended(old(T()), free, T(), free - {g}, old(Child(role[parent], index).root),
                       old(Child(role[parent], index).i4))
    {
      ExtendedByTable(T(), free, parent, index, g, w);
      mem := mem[g := ZeroPage()];
      mem := SetEntry(mem, parent, index, w);
      role, at := role[g := Child(role[parent], index)], at[Child(role[parent], index) := g];
    }

    // ----- from the root to the page table

    /** The page directory on the way to `ix`. */
    method FindDirectory(root: PageAddress, ix: Index, flags: Flags) returns (r: Option<PageAddress>)
      requires Valid() && IsRoot(T(), root) && ix.Ok()
      requires ix.l4 >= KERNEL_HALF ==> SlotOk(T(), root, ix.l4)
      requires NoHuge(T(), ix) && PlainFlags(flags)
      modifies this`mem, this`role, this`at, pmm`free, pmm`free_pages, pmm.bitmap
      ensures Valid()
      ensures Extended(old(T()), old(pmm.free), T(), pmm.free, RootFor(root, ix.l4), ix.l4)
      ensures RootsKept(old(T()), T(), root, ix.l4) && TopEntry(old(T()), old(pmm.free), T(), root, ix.l4, flags)
      ensures r == None ==> pmm.free == {} && |old(pmm.free)| < old(Missing(mem, root, ix))
      ensures HalfPath(old(T()), old(pmm.free), T(), pmm.free, root, ix, flags, r)
      ensures r.Some? ==>
                && Grants(mem, root, ix.l4, flags) && Leads(Entry(mem, root, ix.l4))
                && Leads(Entry(mem, Entry(mem, root, ix.l4).addr, ix.l3))
                && Entry(mem, root, ix.l4).addr in role
                && role[Entry(mem, root, ix.l4).addr] == Pdpt(RootFor(root, ix.l4), ix.l4)
                && Grants(mem, Entry(mem, root, ix.l4).addr, ix.l3, flags)
                && Entry(mem, Entry(mem, root, ix.l4).addr, ix.l3).addr == r.value
                && r.value in role && role[r.value] == Pd(RootFor(root, ix.l4), ix.l4, ix.l3)
      ensures r.Some? ==> !Huge(Entry(mem, r.value, ix.l2))
                          && (Entry(mem, r.value, ix.l2).present || Child(role[r.value], ix.l2) !in at)
    {
      ghost var t0, free0 := T(), pmm.free;
      if ix.l4 < KERNEL_HALF { UserSlotOk(t0, root, ix.l4); }
      NoHugeLeads(t0, root, ix);
      var pdpt := GetOrCreateTable(root, ix.l4, flags);
      ghost var t1, free1 := T(), pmm.free;
      TopDone(t0, free0, t1, free1, root, ix, flags, pdpt);
      if pdpt == None {
        return None;
      }
      r := GetOrCreateTable(pdpt.value, ix.l3, flags);
      MiddleDone(t0, free0, t1, free1, T(), pmm.free, root, ix, flags, pdpt.value, r);
    }

    /** The page table that covers `ix`, with all tables on the way made where they are missing: it is found exactly
        if the pool has as many pages as tables are missing, and then costs exactly those. */
    method FindTable(root: PageAddress, ix: Index, flags: Flags) returns (r: Option<PageAddress>)
      requires Valid() && IsRoot(T(), root) && ix.Ok()
      requires ix.l4 >= KERNEL_HALF ==> SlotOk(T(), root, ix.l4)
      requires NoHuge(T(), ix) && PlainFlags(flags)
      modifies this`mem, this`role, this`at, pmm`free, pmm`free_pages, pmm.bitmap
      ensures Valid()
      ensures Extended(old(T()), old(pmm.free), T(), pmm.free, RootFor(root, ix.l4), ix.l4)
      ensures RootsKept(old(T()), T(), root, ix.l4) && TopEntry(old(T()), old(pmm.free), T(), root, ix.l4, flags)
      ensures TablesMade(old(T()), old(pmm.free), T(), pmm.free, root, ix, flags, r.Some?)
      ensures r.Some? ==>
                && PtOf(mem, root, ix) == r && PathGrants(mem, root, ix, flags)
                && r.value in role && role[r.value] == Pt(RootFor(root, ix.l4), ix.l4, ix.l3, ix.l2)
    {
      ghost var t0, free0 := T(), pmm.free;
      var pd := FindDirectory(root, ix, flags);
      if pd == None {
        HalfIsNotEnough(t0, free0, T(), pmm.free, root, ix, flags);
        return None;
      }
      ghost var t1, free1 := T(), pmm.free;
      r := GetOrCreateTable(pd.value, ix.l2, flags);
      LastDone(t0, free0, t1, free1, T(), pmm.free, root, ix, flags, pd.value, r);
    }

    // ----- mapping

    /** A page that belongs to the caller: taken from the pool and not yet used for anything. */
    ghost predicate Fresh(page: PageAddress)
      reads this, pmm
    {
      page in mem && page !in role && page !in pmm.free && pmm.Managed(page)
    }

    /** What may be mapped without a space losing pages of its own: a page that becomes private, or one without
        the user bit, where nothing is mapped yet below slot 0. */
    ghost predicate KeepsSpaces(t: Tables, root: PageAddress, ix: Index, user: bool, private: bool) {
      ix.l4 == 0 && Walk(t.mem, root, ix) == None && (private || !user)
    }

    /** The common part of `map_page` and `map_page_in`.  With `private` the page is a fresh one for user
        access that becomes part of the space. */
    method MapAt(root: PageAddress, ix: Index, page: PageAddress, flags: Flags, table_flags: Flags, ghost private: bool)
      returns (ok: bool)
      requires Valid() && IsRoot(T(), root) && ix.Ok()
      requires ix.l4 >= KERNEL_HALF ==> SlotOk(T(), root, ix.l4)
      requires NoHuge(T(), ix) && PlainFlags(table_flags)
      requires private ==> Fresh(page) && ix.l4 == 0 && flags.user && Walk(mem, root, ix) == None
      modifies this`mem, this`role, this`at, pmm`free, pmm`free_pages, pmm.bitmap
      ensures Valid()
      ensures ok ==> MappedOne(old(T()), old(pmm.free), T(), root, ix, MakeEntry(page, flags))
                     && PathGrants(mem, root, ix, table_flags)
      ensures !ok ==> Extended(old(T()), old(pmm.free), T(), pmm.free, RootFor(root, ix.l4), ix.l4)
      ensures TablesMade(old(T()), old(pmm.free), T(), pmm.free, root, ix, table_flags, ok)
      ensures RootsKept(old(T()), T(), root, ix.l4) && TopEntry(old(T()), old(pmm.free), T(), root, ix.l4, table_flags)
      ensures forall j: Index :: NoHugeKept(old(T()), T(), j)
      ensures ok && private ==> Moved(old(role), old(pmm.free) + {page}, role, pmm.free, root, 0)
      ensures ok && private ==> page in role && role[page] == Leaf(root, 0, ix.l3, ix.l2, ix.l1)
      ensures ok && !private && old(Walk(mem, root, ix)) == None ==>
                Moved(old(role), old(pmm.free), role, pmm.free, RootFor(root, ix.l4), ix.l4)
      ensures KeepsSpaces(old(T()), root, ix, flags.user, private) ==>
                forall s: PageAddress | old(PrivateSpace(T(), s)) :: PrivateSpace(T(), s)
    {
      ghost var t, free := T(), pmm.free;
      assert PoolOk(page);
      var pt := FindTable(root, ix, table_flags);
      forall j: Index ensures NoHugeKept(t, T(), j) {
        NoNewHuge(t, free, T(), pmm.free, RootFor(root, ix.l4), ix.l4, j);
      }
      if ix.l4 == 0 {
        forall s: PageAddress | PrivateSpace(t, s) ensures PrivateSpace(T(), s) {
          PrivateAfterMove(t, free, T(), pmm.free, root, s);
        }
      }
      if pt == None {
        return false;
      }
      assert MovedOk(t.role, free, role, pmm.free, RootFor(root, ix.l4), ix.l4, page);
      assert PageKept(t, free, T(), page);
      ghost var u := T();
      PutEntry(root, ix, pt.value, MakeEntry(page, flags), private, t, free, table_flags);
      RootsKeptTwice(t, u, T(), root, ix.l4);
      forall j: Index ensures NoHugeKept(t, T(), j) {
        assert NoHugeKept(t, u, j) && NoHugeKept(u, T(), j);
      }
      return true;
    }

    /** Stores the last-level entry; `t` and `free` are the state before the tables were extended. */
    method PutEntry(root: PageAddress, ix: Index, pt: PageAddress, w: Word, ghost private: bool,
                    ghost t: Tables, ghost free: set<nat>, ghost table_flags: Flags)
      requires Valid() && WellFormed(t) && IsRoot(t, root) && ix.Ok() && w.present
      requires Extended(t, free, T(), pmm.free, RootFor(root, ix.l4), ix.l4)
      requires PtOf(mem, root, ix) == Some(pt) && PathGrants(mem, root, ix, table_flags)
      requires TablesMade(t, free, T(), pmm.free, root, ix, table_flags, true)
      requires private ==>
                 && w.addr !in role && w.addr in mem && w.addr !in free && w.addr !in pmm.free && w.user
                 && ix.l4 == 0 && Walk(t.mem, root, ix) == None
      modifies this`mem, this`role, this`at
      ensures Valid()
      ensures MappedOne(t, free, T(), root, ix, w) && PathGrants(mem, root, ix, table_flags)
      ensures TablesMade(t, free, T(), pmm.free, root, ix, table_flags, true)
      ensures RootsKept(old(T()), T(), root, ix.l4) && Entry(mem, root, ix.l4) == old(Entry(mem, root, ix.l4))
      ensures forall j: Index :: NoHugeKept(old(T()), T(), j)
      ensures private ==> Moved(t.role, free + {w.addr}, role, pmm.free, root, 0)
      ensures private ==> w.addr in role && role[w.addr] == Leaf(root, 0, ix.l3, ix.l2, ix.l1)
      ensures !private && Walk(t.mem, root, ix) == None ==>
                Moved(t.role, free, role, pmm.free, RootFor(root, ix.l4), ix.l4)
      ensures KeepsSpaces(t, root, ix, w.user, private) ==>
                forall s: PageAddress | old(PrivateSpace(T(), s)) :: PrivateSpace(T(), s)
    {
      ghost var u := T();
      MappedByPut(t, free, u, pmm.free, root, ix, w, private);
      PathAfterPut(u, root, ix, w, table_flags);
      MadeAfterPut(t, free, u, pmm.free, root, ix, table_flags, w, private);
      if private {
        MappedPrivately(t, free, u, pmm.free, root, ix, w);
      } else if Walk(t.mem, root, ix) == None {
        RolesAfterPlainPut(t, u, root, ix, w);
        if !w.user { MappedPlainly(t, u, root, ix, w); }
      }
      RootsAfterPut(u, pt, ix.l1, w, private, root, ix.l4);
      StoreLeaf(pt, ix.l1, w, private);
    }

    /** The store itself; everything about it is said by `PutLeaf`. */
    method StoreLeaf(pt: PageAddress, index: nat, w: Word, ghost private: bool)
      requires Valid() && pt in role && pt in mem && role[pt].Pt? && index < 512
      requires private ==> w.present && w.addr !in role && w.addr in mem && w.addr !in pmm.free
      modifies this`mem, this`role, this`at
      ensures Valid() && T() == PutLeaf(old(T()), pt, index, w, private)
    {
      ghost var u := T();
      ghost var v := PutLeaf(u, pt, index, w, private);
      PutLeafKeepsOrder(u, pt, index, w, private);
      PutLeafKeepsTables(u, pt, index, w, private);
      mem := SetEntry(mem, pt, index, w);
      role, at := v.role, v.at;
      forall a: nat ensures PoolOk(a) {
        assert old(PoolOk(a));
      }
    }

    /** Maps one page of the current space; the tables on the way are opened to user access if the page is.
        On success exactly that page gets a new translation; on failure none does.  It succeeds exactly if the pool
        has a page for every table that is missing, and takes those pages and no others. */
    method MapPage(va: nat, physical_address: Option<nat>, flags: Flags) returns (ok: bool)
      requires Valid() && (physical_address.Some? ==> physical_address.value < MAX_PHYSICAL)
      requires IndexOf(va).l4 >= KERNEL_HALF ==> SlotOk(T(), pml4_phys, IndexOf(va).l4)
      requires NoHuge(T(), IndexOf(va))
      modifies this`mem, this`role, this`at, pmm`free, pmm`free_pages, pmm.bitmap
      ensures Valid()
      ensures physical_address == None ==> !ok && T() == old(T())
      ensures ok ==>
                && MappedOne(old(T()), old(pmm.free), T(), pml4_phys, IndexOf(va),
                             MakeEntry(PageOf(physical_address.value), flags))
                && PathGrants(mem, pml4_phys, IndexOf(va), flags.(writable := true))
      ensures ok ==> Maps(Walk(mem, pml4_phys, IndexOf(va)).value, physical_address.value, flags)
      ensures ok <==> physical_address.Some? && old(Missing(mem, pml4_phys, IndexOf(va))) <= |old(pmm.free)|
      ensures physical_address.Some? ==>
                TablesMade(old(T()), old(pmm.free), T(), pmm.free, pml4_phys, IndexOf(va),
                           Flags(true, true, flags.user, 0, 0), ok)
      ensures forall x: PageAddress :: DataKept(old(T()), old(pmm.free), T(), x)
      ensures !ok ==> SameWalks(old(T()), mem) && (physical_address.Some? ==> pmm.free == {})
      ensures physical_address.Some? ==> TopEntry(old(T()), old(pmm.free), T(), pml4_phys, IndexOf(va).l4,
                                                  Flags(true, true, flags.user, 0, 0))
      ensures forall j: Index :: NoHugeKept(old(T()), T(), j)
      ensures physical_address.Some? ==> RootsKept(old(T()), T(), pml4_phys, IndexOf(va).l4)
      ensures old(KernelShared(T())) && physical_address.Some? ==>
                (KernelShared(T()) <==> old(StaysShared(T(), pmm.free, pml4_phys, IndexOf(va).l4,
                                                        Flags(true, true, flags.user, 0, 0))))
      ensures ok && old(KernelShared(T())) && IndexOf(va).l4 >= KERNEL_HALF ==>
                forall r: PageAddress | old(IsRoot(T(), r)) && r != pml4_phys ::
                  Walk(mem, r, IndexOf(va)) == if old(Entry(mem, pml4_phys, IndexOf(va).l4)).present
                                               then Walk(mem, pml4_phys, IndexOf(va)) else None
      ensures pmm.free <= old(pmm.free) && IsRoot(T(), pml4_phys)
    {
      if physical_address == None {
        forall j: Index ensures NoHugeKept(T(), T(), j) {
        }
        forall x: PageAddress ensures DataKept(T(), pmm.free, T(), x) {
        }
        return false;
      }
      ghost var t, free := T(), pmm.free;
      EntryIsSum(physical_address.value, flags);
      ok := MapAt(pml4_phys, IndexOf(va), PageOf(physical_address.value), flags, Flags(true, true, flags.user, 0, 0),
                  false);
      if !ok { DataAfterMove(t, free, T(), pmm.free, RootFor(pml4_phys, IndexOf(va).l4), IndexOf(va).l4); }
      if KernelShared(t) {
        KernelAfterMapping(t, free, T(), pml4_phys, IndexOf(va), Flags(true, true, flags.user, 0, 0));
      }
    }

    /** The same in a given space, with the tables always open to user access. */
    method MapPageIn(root: PageAddress, va: nat, physical_address: Option<nat>, flags: Flags, ghost private: bool)
      returns (ok: bool)
      requires Valid() && IsRoot(T(), root) && (physical_address.Some? ==> physical_address.value < MAX_PHYSICAL)
      requires IndexOf(va).l4 >= KERNEL_HALF ==> SlotOk(T(), root, IndexOf(va).l4)
      requires NoHuge(T(), IndexOf(va))
      requires private && physical_address.Some? ==>
                 Fresh(PageOf(physical_address.value)) && IndexOf(va).l4 == 0 && flags.user
                 && Walk(mem, root, IndexOf(va)) == None
      modifies this`mem, this`role, this`at, pmm`free, pmm`free_pages, pmm.bitmap
      ensures Valid()
      ensures physical_address == None ==> !ok && T() == old(T())
      ensures ok ==>
                && MappedOne(old(T()), old(pmm.free), T(), root, IndexOf(va),
                             MakeEntry(PageOf(physical_address.value), flags))
                && PathGrants(mem, root, IndexOf(va), flags.(writable := true, user := true))
      ensures ok ==> Maps(Walk(mem, root, IndexOf(va)).value, physical_address.value, flags)
      ensures ok <==> physical_address.Some? && old(Missing(mem, root, IndexOf(va))) <= |old(pmm.free)|
      ensures physical_address.Some? ==>
                TablesMade(old(T()), old(pmm.free), T(), pmm.free, root, IndexOf(va), Flags(true, true, true, 0, 0), ok)
      ensures !ok && physical_address.Some? ==>
                Extended(old(T()), old(pmm.free), T(), pmm.free, RootFor(root, IndexOf(va).l4), IndexOf(va).l4)
                && pmm.free == {}
      ensures ok && private ==>
                && Moved(old(role), old(pmm.free) + {PageOf(physical_address.value)}, role, pmm.free, root, 0)
                && PageOf(physical_address.value) in role
                && role[PageOf(physical_address.value)] == Leaf(root, 0, IndexOf(va).l3, IndexOf(va).l2, IndexOf(va).l1)
      ensures ok && !private && old(Walk(mem, root, IndexOf(va))) == None ==>
                Moved(old(role), old(pmm.free), role, pmm.free, RootFor(root, IndexOf(va).l4), IndexOf(va).l4)
      ensures physical_address.Some? ==>
                RootsKept(old(T()), T(), root, IndexOf(va).l4) && forall j: Index :: NoHugeKept(old(T()), T(), j)
      ensures old(KernelShared(T())) && physical_address.Some? ==>
                (KernelShared(T()) <==>
                   old(StaysShared(T(), pmm.free, root, IndexOf(va).l4, Flags(true, true, true, 0, 0))))
      ensures ok && old(KernelShared(T())) && IndexOf(va).l4 >= KERNEL_HALF ==>
                forall r: PageAddress | old(IsRoot(T(), r)) && r != root ::
                  Walk(mem, r, IndexOf(va)) == if old(Entry(mem, root, IndexOf(va).l4)).present
                                               then Walk(mem, root, IndexOf(va)) else None
      ensures KeepsSpaces(old(T()), root, IndexOf(va), flags.user, private) ==>
                forall s: PageAddress | old(PrivateSpace(T(), s)) :: PrivateSpace(T(), s)
    {
      if physical_address == None {
        return false;
      }
      ghost var t, free := T(), pmm.free;
      EntryIsSum(physical_address.value, flags);
      ok := MapAt(root, IndexOf(va), PageOf(physical_address.value), flags, Flags(true, true, true, 0, 0), private);
      if KernelShared(t) {
        KernelAfterMapping(t, free, T(), root, IndexOf(va), Flags(true, true, true, 0, 0));
      }
    }

    /** The page table with the last-level entry of a page of the current space, as the code finds it. */
    method FindEntry(ix: Index) returns (pt: Option<PageAddress>)
      ensures pt == if Found(mem, pml4_phys, ix).Some? then FoundPt(mem, pml4_phys, ix) else None
    {
      if !Entry(mem, pml4_phys, ix.l4).present {
        return None;
      }
      var pdpt := Entry(mem, pml4_phys, ix.l4).addr;
      if !Entry(mem, pdpt, ix.l3).present {
        return None;
      }
      var pd := Entry(mem, pdpt, ix.l3).addr;
      if !Entry(mem, pd, ix.l2).present {
        return None;
      }
      pt := Some(Entry(mem, pd, ix.l2).addr);
      if !Entry(mem, pt.value, ix.l1).present {
        return None;
      }
    }

    /** Removes the translation of one page of the current space, if it has one, and no other: a kernel page is
        gone in every space.  The frame of a private page belongs to no space afterwards, and does not return to
        the pool. */
    method UnmapPage(va: nat) returns (ok: bool)
      requires Valid() && NoHuge(T(), IndexOf(va))
      modifies this`mem, this`role, this`at
      ensures Valid()
      ensures ok <==> old(Walk(mem, pml4_phys, IndexOf(va))).Some?
      ensures Walk(mem, pml4_phys, IndexOf(va)) == None && (!ok ==> T() == old(T()))
      ensures mem.Keys == old(mem.Keys)
      ensures forall x: PageAddress, j: nat ::
                Entry(mem, x, j) == if ok && Some(x) == old(PtOf(mem, pml4_phys, IndexOf(va))) && j == IndexOf(va).l1
                                    then ZERO_WORD else old(Entry(mem, x, j))
      ensures ok ==>
                forall r: PageAddress, j: Index | old(IsRoot(T(), r)) && j.Ok() ::
                  Walk(mem, r, j) == if SamePage(pml4_phys, IndexOf(va), r, j) then None else old(Walk(mem, r, j))
      ensures role == if ok && PageNode(IndexOf(va)) in old(at) then old(role) - {old(at)[PageNode(IndexOf(va))]}
                      else old(role)
      ensures forall s: PageAddress | old(PrivateSpace(T(), s)) :: PrivateSpace(T(), s)
      ensures old(KernelShared(T())) ==> KernelShared(T())
    {
      var ix := IndexOf(va);
      ghost var t := T();
      FoundIsWalk(t, pml4_phys, ix);
      var pt := FindEntry(ix);
      if pt == None {
        return false;
      }
      PtOfWalk(t, pml4_phys, ix);
      UnmapWalks(t, pml4_phys, ix);
      RootsAfterPut(t, pt.value, ix.l1, ZERO_WORD, false, pml4_phys, KERNEL_HALF);
      forall s: PageAddress | PrivateSpace(t, s)
        ensures PrivateSpace(PutLeaf(t, pt.value, ix.l1, ZERO_WORD, false), s)
      {
        PrivateAfterUnmap(t, pt.value, ix.l1, s);
      }
      StoreLeaf(pt.value, ix.l1, ZERO_WORD, false);
      if KernelShared(t) { SharedStays(t, T(), pml4_phys, KERNEL_HALF); }
      return true;
    }

    /** The place of a page of the current space, if it is private. */
    function PageNode(ix: Index): Node
      reads this`pml4_phys
    {
      Leaf(RootFor(pml4_phys, ix.l4), ix.l4, ix.l3, ix.l2, ix.l1)
    }

    /** The physical address behind `va` in the current space, for an address that no large page covers; under one
        the answer is read out of its data. */
    method VirtualToPhysical(va: nat) returns (r: Option<nat>)
      requires Valid()
      ensures var w := Found(mem, pml4_phys, IndexOf(va));
        r == if w == None then None else Some(w.value.addr + va % PAGE_SIZE)
      ensures NoHuge(T(), IndexOf(va)) ==>
                var w := Walk(mem, pml4_phys, IndexOf(va));
                r == if w == None then None else Some(w.value.addr + va % PAGE_SIZE)
    {
      var pt := FindEntry(IndexOf(va));
      if NoHuge(T(), IndexOf(va)) { FoundIsWalk(T(), pml4_phys, IndexOf(va)); }
      if pt == None {
        return None;
      }
      return Some(Entry(mem, pt.value, IndexOf(va).l1).addr + va % PAGE_SIZE);
    }

    /** Makes a space current. */
    method SwitchAddressSpace(root: Option<PageAddress>)
      requires Valid() && (root.Some? ==> IsRoot(T(), root.value))
      modifies this`pml4_phys
      ensures Valid() && pml4_phys == if root == None then old(pml4_phys) else root.value
    {
      if root == None {
        return;
      }
      pml4_phys := root.value;
      forall a: nat ensures PoolOk(a) {
        assert old(PoolOk(a));
      }
    }

    /** The page at `g` becomes a PML4. */
    method MakeRoot(g: PageAddress)
      requires pml4_phys in mem
      modifies this`mem, this`role, this`at
      ensures T() == AddRoot(old(T()), pml4_phys, g)
    {
      mem := mem[g := NewPml4(mem[pml4_phys])];
      role, at := role[g := Pml4(g)], at[Pml4(g) := g];
    }

    /** A new space: one page from the pool, the kernel half of the current space, and nothing below. */
    method CreateAddressSpace() returns (r: Option<PageAddress>)
      requires Valid()
      modifies this`mem, this`role, this`at, pmm`free, pmm`free_pages, pmm.bitmap
      ensures Valid() && SameWalks(old(T()), mem)
      ensures r == None ==> T() == old(T()) && pmm.free == old(pmm.free) == {}
      ensures r.Some? ==>
                && r.value in old(pmm.free) && pmm.free == old(pmm.free) - {r.value}
                && role == old(role)[r.value := Pml4(r.value)] && at == old(at)[Pml4(r.value) := r.value]
                && PrivateSpace(T(), r.value)
                && (forall x: PageAddress | x in old(mem) && x != r.value :: x in mem && mem[x] == old(mem)[x])
                && (forall i: nat | i < 512 ::
                      Entry(mem, r.value, i) == if i >= KERNEL_HALF then Entry(mem, pml4_phys, i) else ZERO_WORD)
                && Owned(old(role), r.value) == {} && Owned(role, r.value) == {r.value}
                && forall ix: Index | ix.Ok() ::
                     Walk(mem, r.value, ix) == if ix.l4 >= KERNEL_HALF then Walk(mem, pml4_phys, ix) else None
      ensures old(KernelShared(T())) ==> KernelShared(T())
      ensures forall s: PageAddress | old(PrivateSpace(T(), s)) :: PrivateSpace(T(), s)
    {
      var page := pmm.Allocate();
      forall a: nat ensures PoolOk(a) {
        assert old(PoolOk(a));
      }
      if page == None {
        return None;
      }
      assert old(PoolOk(page.value)) && FrameOk(T(), pml4_phys);
      ghost var t := T();
      r := Some(page.value);
      AddRootKeepsOrder(t, pml4_phys, r.value);
      forall ix: Index | ix.Ok()
        ensures var mem' := AddRoot(t, pml4_phys, r.value).mem;
          Walk(mem', r.value, ix) == if ix.l4 >= KERNEL_HALF then Walk(mem', pml4_phys, ix) else None
      {
        NewRootWalks(t, pml4_phys, r.value, ix);
      }
      if KernelShared(t) { SharedWithNewRoot(t, pml4_phys, r.value); }
      MakeRoot(r.value);
      forall a: nat ensures PoolOk(a) {
        assert old(PoolOk(a));
      }
    }
  }

  /** A kernel slot that no space has, and two spaces: a page mapped there in one of them is seen by that one
      only, and the kernel halves have come apart. */
  method HalvesComeApart(vm: VirtualMemoryManager, va: nat, frame: PageAddress, flags: Flags)
    returns (other: Option<PageAddress>, ok: bool)
    requires vm.Valid() && KernelShared(vm.T()) && IndexOf(va).l4 >= KERNEL_HALF
    requires !Entry(vm.mem, vm.pml4_phys, IndexOf(va).l4).present && Pdpt(KERNEL, IndexOf(va).l4) !in vm.at
    modifies vm`mem, vm`role, vm`at, vm.pmm`free, vm.pmm`free_pages, vm.pmm.bitmap
    ensures vm.Valid() && (!ok ==> vm.pmm.free == {})
    ensures ok ==>
              && other.Some? && IsRoot(vm.T(), other.value) && !KernelShared(vm.T())
              && Walk(vm.mem, vm.pml4_phys, IndexOf(va)).Some?
              && Maps(Walk(vm.mem, vm.pml4_phys, IndexOf(va)).value, frame, flags)
              && Walk(vm.mem, other.value, IndexOf(va)) == None
  {
    assert FrameOk(vm.T(), vm.pml4_phys);
    vm.RoleNotFree();
    other := vm.CreateAddressSpace();
    if other == None {
      return None, false;
    }
    assert NodeOk(vm.T(), Pd(KERNEL, IndexOf(va).l4, IndexOf(va).l3));
    assert PageOf(frame) == frame;
    ghost var t := vm.T();
    assert !Entry(t.mem, vm.pml4_phys, IndexOf(va).l4).present;
    assert SharedAt(t, vm.pml4_phys, other.value, IndexOf(va).l4);
    ok := vm.MapPage(va, Some(frame), flags);
    assert RootKept(t, vm.T(), vm.pml4_phys, IndexOf(va).l4, other.value, IndexOf(va).l4);
    if ok { assert !SharedAt(vm.T(), vm.pml4_phys, other.value, IndexOf(va).l4); }
  }
}
