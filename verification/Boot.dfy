/** The page tables that the boot code leaves behind: the kernel image at the top of the address space, and a
    direct map of the first GiB made of large pages. */
module Boot {
  import Heap
  import opened Machine
  import opened PageTables
  import opened Wrappers

  const KERNEL_SLOT := 511
  const KERNEL_PDPT_SLOT := 510
  const DIRECT_SLOT := 256

  /** The frames of the tables, one after the other in the image.  `pdpt` and `pd` are those of the identity map,
      which is used only while paging is being switched on. */
  datatype Frames = Frames(pml4: PageAddress, pdpt: PageAddress, pd: PageAddress, pt: PageAddress,
                           pdptHigh: PageAddress, pdHigh: PageAddress, pdptDirect: PageAddress, pdDirect: PageAddress)
  {
    predicate Placed() {
      && pdpt == pml4 + PAGE_SIZE && pd == pdpt + PAGE_SIZE && pt == pd + PAGE_SIZE && pdptHigh == pt + PAGE_SIZE
      && pdHigh == pdptHigh + PAGE_SIZE && pdptDirect == pdHigh + PAGE_SIZE && pdDirect == pdptDirect + PAGE_SIZE
    }

    predicate In(mem: Memory) {
      && pml4 in mem && pdpt in mem && pd in mem && pt in mem
      && pdptHigh in mem && pdHigh in mem && pdptDirect in mem && pdDirect in mem
    }
  }

  /** `frame | 0x3` */
  function Link(frame: PageAddress): (w: Word)
    ensures Leads(w) && Value(w) == frame + 3
  {
    Word(true, true, false, 0, frame, 0)
  }

  /** `(i << 21) | 0x83` */
  function LargePage(i: nat): (w: Word)
    requires i < 512
    ensures Huge(w) && Value(w) == 0x20_0000 * i + 0x83
  {
    Word(true, true, false, 16, 0x20_0000 * i, 0)
  }

  function OneEntry(i: nat, w: Word): Page
    requires i < 512
  {
    ZeroPage()[i := w]
  }

  /** The first 2 MiB, page by page. */
  function ImagePages(): (p: Page)
    ensures forall i | 0 <= i < 512 :: p[i] == Link(PAGE_SIZE * i)
  {
    seq(512, i requires 0 <= i < 512 => Link(PAGE_SIZE * i))
  }

  /** The first GiB, in large pages. */
  function DirectPages(): (p: Page)
    ensures forall i | 0 <= i < 512 :: p[i] == LargePage(i)
  {
    seq(512, i requires 0 <= i < 512 => LargePage(i))
  }

  /** The loop over the first 2 MiB. */
  method MapImage(memory: Memory, pt: PageAddress) returns (mem: Memory)
    requires pt in memory
    ensures mem == memory[pt := ImagePages()]
  {
    mem := memory;
    var ecx := 0;
    while ecx < 512
      invariant 0 <= ecx <= 512 && pt in mem && mem == memory[pt := mem[pt]]
      invariant forall i | 0 <= i < ecx :: mem[pt][i] == Link(PAGE_SIZE * i)
    {
      mem := SetEntry(mem, pt, ecx, Link(PAGE_SIZE * ecx));
      ecx := ecx + 1;
    }
    assert mem[pt] == ImagePages();
  }

  /** The loop over the first GiB. */
  method MapDirect(memory: Memory, pd: PageAddress) returns (mem: Memory)
    requires pd in memory
    ensures mem == memory[pd := DirectPages()]
  {
    mem := memory;
    var ecx := 0;
    while ecx < 512
      invariant 0 <= ecx <= 512 && pd in mem && mem == memory[pd := mem[pd]]
      invariant forall i | 0 <= i < ecx :: mem[pd][i] == LargePage(i)
    {
      mem := SetEntry(mem, pd, ecx, LargePage(ecx));
      ecx := ecx + 1;
    }
    assert mem[pd] == DirectPages();
  }

  /** The identity map of the first 2 MiB. */
  method MapLow(memory: Memory, f: Frames) returns (mem: Memory)
    requires f.Placed() && f.In(memory)
    requires memory[f.pml4] == memory[f.pdpt] == memory[f.pd] == ZeroPage()
    ensures mem == memory[f.pml4 := OneEntry(0, Link(f.pdpt))][f.pdpt := OneEntry(0, Link(f.pd))]
                         [f.pd := OneEntry(0, Link(f.pt))][f.pt := ImagePages()]
  {
    mem := SetEntry(memory, f.pml4, 0, Link(f.pdpt));
    mem := SetEntry(mem, f.pdpt, 0, Link(f.pd));
    mem := SetEntry(mem, f.pd, 0, Link(f.pt));
    mem := MapImage(mem, f.pt);
  }

  /** The image once more, at the top of the address space, and the direct map. */
  method MapHigh(memory: Memory, f: Frames) returns (mem: Memory)
    requires f.Placed() && f.In(memory)
    requires memory[f.pml4] == OneEntry(0, Link(f.pdpt))
    requires memory[f.pdptHigh] == memory[f.pdHigh] == memory[f.pdptDirect] == ZeroPage()
    ensures var pml4 := OneEntry(0, Link(f.pdpt))[KERNEL_SLOT := Link(f.pdptHigh)][DIRECT_SLOT := Link(f.pdptDirect)];
            mem == memory[f.pml4 := pml4]
                         [f.pdptHigh := OneEntry(KERNEL_PDPT_SLOT, Link(f.pdHigh))][f.pdHigh := OneEntry(0, Link(f.pt))]
                         [f.pdptDirect := OneEntry(0, Link(f.pdDirect))][f.pdDirect := DirectPages()]
  {
    mem := SetEntry(memory, f.pml4, KERNEL_SLOT, Link(f.pdptHigh));
    mem := SetEntry(mem, f.pdptHigh, KERNEL_PDPT_SLOT, Link(f.pdHigh));
    mem := SetEntry(mem, f.pdHigh, 0, Link(f.pt));
    mem := SetEntry(mem, f.pml4, DIRECT_SLOT, Link(f.pdptDirect));
    mem := SetEntry(mem, f.pdptDirect, 0, Link(f.pdDirect));
    mem := MapDirect(mem, f.pdDirect);
  }

  /** `setup_paging`, on tables that are zero, and then the removal of the identity map. */
  method SetupPaging(memory: Memory, f: Frames) returns (mem: Memory)
    requires f.Placed() && f.In(memory)
    requires memory[f.pml4] == memory[f.pdpt] == memory[f.pd] == memory[f.pt] == ZeroPage()
    requires memory[f.pdptHigh] == memory[f.pdHigh] == memory[f.pdptDirect] == memory[f.pdDirect] == ZeroPage()
    ensures mem == BootMemory(memory, f)
  {
    mem := MapLow(memory, f);
    mem := MapHigh(mem, f);
    mem := SetEntry(mem, f.pml4, 0, ZERO_WORD);
    assert mem[f.pml4] == BootMemory(memory, f)[f.pml4];
  }

  function BootMemory(mem: Memory, f: Frames): Memory {
    mem[f.pml4 := ZeroPage()[KERNEL_SLOT := Link(f.pdptHigh)][DIRECT_SLOT := Link(f.pdptDirect)]]
       [f.pdpt := OneEntry(0, Link(f.pd))][f.pd := OneEntry(0, Link(f.pt))][f.pt := ImagePages()]
       [f.pdptHigh := OneEntry(KERNEL_PDPT_SLOT, Link(f.pdHigh))][f.pdHigh := OneEntry(0, Link(f.pt))]
       [f.pdptDirect := OneEntry(0, Link(f.pdDirect))][f.pdDirect := DirectPages()]
  }

  /** Which frame is which table. */
  function BootTables(mem: Memory, f: Frames): Tables
    requires f.In(mem)
  {
    var high, direct := Pdpt(KERNEL, KERNEL_SLOT), Pdpt(KERNEL, DIRECT_SLOT);
    var pdHigh, pt := Child(high, KERNEL_PDPT_SLOT), Child(Child(high, KERNEL_PDPT_SLOT), 0);
    Tables(BootMemory(mem, f),
           map[f.pml4 := Pml4(f.pml4), f.pdptHigh := high, f.pdHigh := pdHigh, f.pt := pt, f.pdptDirect := direct,
               f.pdDirect := Child(direct, 0)],
           map[Pml4(f.pml4) := f.pml4, high := f.pdptHigh, pdHigh := f.pdHigh, pt := f.pt, direct := f.pdptDirect,
               Child(direct, 0) := f.pdDirect])
  }

  /** They are in order: one space, and the heap's part of the kernel half has tables and no large page, while
      all of the direct map is large pages. */
  lemma BootTablesAreInOrder(mem: Memory, f: Frames)
    requires f.Placed() && f.In(mem)
    ensures var t := BootTables(mem, f);
      && WellFormed(t) && IsRoot(t, f.pml4) && OnlyRoot(t, f.pml4) && KernelShared(t)
      && Entry(t.mem, f.pml4, KERNEL_SLOT).present
      && (forall ix: Index :: NoHuge(t, ix) <==> ix.l4 != DIRECT_SLOT || ix.l3 != 0 || ix.l2 >= 512)
  {
    var t := BootTables(mem, f);
    EntriesAreOk(mem, f);
    NodesAreOk(mem, f);
    forall r: PageAddress, s: PageAddress, j: nat ensures SharedAt(t, r, s, j) {
    }
    forall ix: Index ensures NoHuge(t, ix) <==> ix.l4 != DIRECT_SLOT || ix.l3 != 0 || ix.l2 >= 512 {
    }
  }

  lemma EntriesAreOk(mem: Memory, f: Frames)
    requires f.Placed() && f.In(mem)
    ensures forall x: PageAddress, i: nat :: EntryOk(BootTables(mem, f), x, i)
  {
    var t := BootTables(mem, f);
    forall x: PageAddress, i: nat ensures EntryOk(t, x, i) {
    }
  }

  lemma NodesAreOk(mem: Memory, f: Frames)
    requires f.Placed() && f.In(mem)
    ensures forall n: Node :: NodeOk(BootTables(mem, f), n)
    ensures forall x: PageAddress :: FrameOk(BootTables(mem, f), x)
  {
    var t := BootTables(mem, f);
    forall n: Node ensures NodeOk(t, n) {
    }
    forall x: PageAddress ensures FrameOk(t, x) {
    }
  }

  /** So a heap can be made in any range of the slot of the image, and all spaces made from then on share it. */
  lemma HeapRangeIsReady(mem: Memory, f: Frames, start: nat, end: nat)
    requires f.Placed() && f.In(mem) && Heap.TOP_SLOT <= start && end < TWO64
    ensures Heap.OnlySmallPages(BootTables(mem, f), start, end)
    ensures KernelShared(BootTables(mem, f)) && Heap.SlotReady(BootTables(mem, f), f.pml4)
  {
    BootTablesAreInOrder(mem, f);
    forall va: nat | start <= va < end ensures NoHuge(BootTables(mem, f), IndexOf(va)) {
      Heap.IndexOfKernelPage(va);
    }
  }

  // ----- what the processor finds

  /** Where the linker puts the image: the physical address plus this. */
  const KERNEL_BASE := 0xFFFF_FFFF_8000_0000

  lemma IndexOfKernelAddress(p: nat)
    requires p < 0x20_0000
    ensures IndexOf(KERNEL_BASE + p) == Index(KERNEL_SLOT, KERNEL_PDPT_SLOT, 0, p / PAGE_SIZE)
  {
    var va := KERNEL_BASE + p;
    assert va / 0x80_0000_0000 == 0x1FF_FFFF;
    assert va / 0x4000_0000 == 0x3_FFFF_FFFE;
    assert va / 0x20_0000 == 0x7FF_FFFF_FC00;
    assert va / 0x1000 == 0xF_FFFF_FFF8_0000 + p / 0x1000;
    assert 0xF_FFFF_FFF8_0000 % 512 == 0;
  }

  /** Where the direct map begins. */
  const DIRECT_BASE := 0xFFFF_8000_0000_0000

  lemma IndexOfDirectAddress(p: nat)
    requires p < 0x4000_0000
    ensures var ix := IndexOf(DIRECT_BASE + p); ix.l4 == DIRECT_SLOT && ix.l3 == 0 && ix.l2 == p / 0x20_0000
  {
    var va := DIRECT_BASE + p;
    assert va / 0x80_0000_0000 == 0x1FF_FF00;
    assert va / 0x4000_0000 == 0x3_FFFE_0000;
    assert va / 0x20_0000 == 0x7FF_FC00_0000 + p / 0x20_0000;
  }

  /** Every byte of the first GiB lies in a large page of the direct map, at its address plus the beginning of the
      map, for reading and writing without user access. */
  lemma DirectMapIsLarge(mem: Memory, f: Frames, p: nat)
    requires f.Placed() && f.In(mem) && p < 0x4000_0000
    ensures var m, ix := BootMemory(mem, f), IndexOf(DIRECT_BASE + p);
      var pd := Next(m, Next(m, Some(f.pml4), ix.l4), ix.l3);
      && pd.Some? && Huge(Entry(m, pd.value, ix.l2))
      && Entry(m, pd.value, ix.l2).addr + p % 0x20_0000 == p
      && Entry(m, pd.value, ix.l2).writable && !Entry(m, pd.value, ix.l2).user
  {
    IndexOfDirectAddress(p);
  }

  /** Every byte of the first 2 MiB is found at its high address, and the lower half is empty. */
  lemma ImageIsMapped(mem: Memory, f: Frames, p: nat, ix: Index)
    requires f.Placed() && f.In(mem)
    ensures p < 0x20_0000 ==>
              var w := Walk(BootMemory(mem, f), f.pml4, IndexOf(KERNEL_BASE + p));
              w.Some? && w.value.writable && !w.value.user && w.value.addr + p % PAGE_SIZE == p
    ensures ix.l4 < KERNEL_HALF ==> Walk(BootMemory(mem, f), f.pml4, ix) == None
  {
    if p < 0x20_0000 { IndexOfKernelAddress(p); }
  }
}
