/** Four-level page tables in physical memory: what an entry is, what a walk reads, and when a set of frames
    is a family of trees.  Intel SDM Volume 3A, sections 4.5 and 4.6. */
module PageTables {
  import opened Machine
  import opened Wrappers

  const ENTRIES_PER_TABLE := 512
  const MAX_PHYSICAL := 0x10_0000_0000_0000
  const KERNEL_HALF := 256

  /** The physical address of a page, as it stands in bits 12..51 of an entry. */
  type PageAddress = a: int | 0 <= a < 0x10_0000_0000_0000 && a % 4096 == 0 witness 0
  type Bits9 = b: int | 0 <= b < 512
  type Bits12 = b: int | 0 <= b < 4096

  // ----- 64-bit words

  /** A 64-bit word by its fields: Present, Writable and User are bits 0 to 2, `low` bits 3 to 11, `addr`
      the number that bits 12 to 51 stand for, `high` bits 52 to 63. */
  datatype Word = Word(present: bool, writable: bool, user: bool, low: Bits9, addr: PageAddress, high: Bits12)

  const ZERO_WORD := Word(false, false, false, 0, 0, 0)

  function BitValue(b: bool, v: nat): nat { if b then v else 0 }

  function Value(w: Word): nat {
    BitValue(w.present, 1) + BitValue(w.writable, 2) + BitValue(w.user, 4) + 8 * w.low + w.addr + MAX_PHYSICAL * w.high
  }

  function FromValue(v: nat): Word
    requires v < 0x1_0000_0000_0000_0000
  {
    Word(v % 2 == 1, v / 2 % 2 == 1, v / 4 % 2 == 1, v / 8 % 512, v % MAX_PHYSICAL / 4096 * 4096, v / MAX_PHYSICAL)
  }

  lemma DivMod4096(q: nat, r: nat)
    requires r < 4096
    ensures (4096 * q + r) / 4096 == q && (4096 * q + r) % 4096 == r
  {
  }

  lemma LowBits(v: nat)
    ensures v % 4096 == BitValue(v % 2 == 1, 1) + BitValue(v / 2 % 2 == 1, 2) + BitValue(v / 4 % 2 == 1, 4)
            + 8 * (v / 8 % 512)
  {
    var a, b, c := v / 2, v / 4, v / 8;
    assert b == a / 2 && c == b / 2;
    assert v == 8 * c + 4 * (b % 2) + 2 * (a % 2) + v % 2;
    DivMod4096(c / 512, 8 * (c % 512) + 4 * (b % 2) + 2 * (a % 2) + v % 2);
  }

  /** The fields of a word are exactly its value: nothing is lost either way. */
  lemma WordOfValue(v: nat)
    requires v < 0x1_0000_0000_0000_0000
    ensures Value(FromValue(v)) == v
  {
    LowBits(v);
    var x := v % MAX_PHYSICAL;
    assert x == x / 4096 * 4096 + x % 4096;
    assert x % 4096 == v % 4096 by {
      DivMod4096(MAX_PHYSICAL / 4096 * (v / MAX_PHYSICAL) + x / 4096, x % 4096);
      assert v == 4096 * (MAX_PHYSICAL / 4096 * (v / MAX_PHYSICAL) + x / 4096) + x % 4096;
    }
  }

  function LowPart(w: Word): nat {
    BitValue(w.present, 1) + BitValue(w.writable, 2) + BitValue(w.user, 4) + 8 * w.low
  }

  lemma LowFields(w: Word)
    ensures var v := LowPart(w);
      v < 4096 && (v % 2 == 1) == w.present && (v / 2 % 2 == 1) == w.writable && (v / 4 % 2 == 1) == w.user
      && v / 8 == w.low
  {
    var p, q, u := BitValue(w.present, 1), BitValue(w.writable, 1), BitValue(w.user, 1);
    assert LowPart(w) == 2 * (2 * (2 * w.low + u) + q) + p;
    assert LowPart(w) / 2 == 2 * (2 * w.low + u) + q;
    assert LowPart(w) / 4 == 2 * w.low + u;
  }

  lemma Halves(x: nat)
    ensures x / 4 == x / 2 / 2 && x / 8 == x / 2 / 2 / 2
  {
  }

  /** Multiples of 4096 do not show in the low twelve bits. */
  lemma LowOfSum(k: nat, v: nat)
    requires v < 4096
    ensures var x := 4096 * k + v;
      x % 2 == v % 2 && x / 2 % 2 == v / 2 % 2 && x / 4 % 2 == v / 4 % 2 && x / 8 % 512 == v / 8
      && x / 4096 * 4096 == 4096 * k
  {
    var x := 4096 * k + v;
    Halves(x);
    Halves(v);
    assert x / 2 == 2048 * k + v / 2;
    assert x / 4 == 1024 * k + v / 4;
    assert x / 8 == 512 * k + v / 8;
    DivMod4096(k, v);
  }

  lemma HighOfSum(x: nat, high: nat, rest: nat)
    requires x == MAX_PHYSICAL * high + rest && rest < MAX_PHYSICAL
    ensures x / MAX_PHYSICAL == high && x % MAX_PHYSICAL == rest
  {
  }

  lemma ValueOfWord(w: Word)
    ensures Value(w) < 0x1_0000_0000_0000_0000 && FromValue(Value(w)) == w
  {
    var x, v := Value(w), LowPart(w);
    LowFields(w);
    var k := w.addr / 4096;
    assert w.addr == 4096 * k;
    HighOfSum(x, w.high, w.addr + v);
    LowOfSum(k, v);
    LowOfSum(k + MAX_PHYSICAL / 4096 * w.high, v);
    assert x == 4096 * (k + MAX_PHYSICAL / 4096 * w.high) + v;
  }

  /** `PageFlag`: the bits of a word outside the address field. */
  datatype Flags = Flags(present: bool, writable: bool, user: bool, low: Bits9, high: Bits12)

  /** `(phys & PAGE_MASK) | flags | Present` */
  function MakeEntry(addr: PageAddress, flags: Flags): Word {
    Word(true, flags.writable, flags.user, flags.low, addr, flags.high)
  }

  /** The entry maps the page of `phys`, with these rights and other bits. */
  predicate Maps(w: Word, phys: nat, flags: Flags) {
    && w.present && w.writable == flags.writable && w.user == flags.user
    && w.low == flags.low && w.high == flags.high
    && w.addr <= phys < w.addr + PAGE_SIZE
  }

  /** The number that flags stand for. */
  function FlagsValue(flags: Flags): nat {
    BitValue(flags.present, 1) + BitValue(flags.writable, 2) + BitValue(flags.user, 4) + 8 * flags.low
    + MAX_PHYSICAL * flags.high
  }

  /** As numbers, an entry is the page address with the flags and the present bit added. */
  lemma EntryIsSum(phys: nat, flags: Flags)
    requires phys < MAX_PHYSICAL
    ensures Maps(MakeEntry(PageOf(phys), flags), phys, flags)
    ensures Value(MakeEntry(PageOf(phys), flags)) == phys - phys % 4096 + FlagsValue(flags.(present := true))
  {
  }

  /** `entry |= flags & (User | Writable)` */
  function Widen(w: Word, flags: Flags): Word {
    w.(writable := w.writable || flags.writable, user := w.user || flags.user)
  }

  /** `entry & 0xFFF` as flags: the bits above the address, NoExecute among them, are not kept. */
  function LowFlags(w: Word): Flags {
    Flags(w.present, w.writable, w.user, w.low, 0)
  }

  /** The flags are those of the twelve low bits of the entry, as a number. */
  lemma LowFlagsAreLowBits(w: Word)
    ensures var f := FromValue(Value(w) % 4096);
      && f.present == w.present && f.writable == w.writable && f.user == w.user && f.low == w.low
      && LowFlags(w) == Flags(f.present, f.writable, f.user, f.low, f.high) && f.high == 0
  {
    var v := LowPart(w);
    LowFields(w);
    var k := w.addr / 4096 + MAX_PHYSICAL / 4096 * w.high;
    assert w.addr == 4096 * (w.addr / 4096);
    assert Value(w) == 4096 * k + v;
    DivMod4096(k, v);
  }

  type Page = p: seq<Word> | |p| == 512 witness seq(512, _ => ZERO_WORD)

  function ZeroPage(): (p: Page)
    ensures forall i | 0 <= i < 512 :: p[i] == ZERO_WORD
  {
    seq(512, _ => ZERO_WORD)
  }

  /** `address & PAGE_MASK` */
  function PageOf(a: nat): PageAddress
    requires a < MAX_PHYSICAL
  {
    a / 4096 * 4096
  }

  // ----- virtual addresses

  /** The four table indices of a virtual address. */
  datatype Index = Index(l4: nat, l3: nat, l2: nat, l1: nat) {
    predicate Ok() { l4 < 512 && l3 < 512 && l2 < 512 && l1 < 512 }
  }

  function IndexOf(va: nat): (ix: Index)
    ensures ix.Ok()
  {
    Index(va / 0x80_0000_0000 % 512, va / 0x4000_0000 % 512, va / 0x20_0000 % 512, va / 0x1000 % 512)
  }

  /** The indices are the nine-bit digits of the low 48 bits of the address, above the offset in the page. */
  lemma AddressOfIndex(va: nat)
    ensures var ix := IndexOf(va);
      va % 0x1_0000_0000_0000
      == ix.l4 * 0x80_0000_0000 + ix.l3 * 0x4000_0000 + ix.l2 * 0x20_0000 + ix.l1 * 0x1000 + va % 0x1000
  {
    var a, b, c, d := va / 0x1000, va / 0x20_0000, va / 0x4000_0000, va / 0x80_0000_0000;
    assert b == a / 512 && c == b / 512 && d == c / 512;
    Digits(va, a, b, c, d, d / 512);
  }

  lemma Digits(va: nat, a: nat, b: nat, c: nat, d: nat, e: nat)
    requires a == va / 0x1000 && b == a / 512 && c == b / 512 && d == c / 512 && e == d / 512
    ensures va % 0x1_0000_0000_0000
         == d % 512 * 0x80_0000_0000 + c % 512 * 0x4000_0000 + b % 512 * 0x20_0000 + a % 512 * 0x1000 + va % 0x1000
  {
    var low := d % 512 * 0x80_0000_0000 + c % 512 * 0x4000_0000 + b % 512 * 0x20_0000 + a % 512 * 0x1000 + va % 0x1000;
    assert va == 0x1000 * (512 * (512 * (512 * (512 * e + d % 512) + c % 512) + b % 512) + a % 512) + va % 0x1000;
    assert va == 0x1_0000_0000_0000 * e + low;
    assert low < 0x1_0000_0000_0000;
  }

  /** `(i << 30) | (j << 21) | (k << 12)` */
  function UserAddress(i: nat, j: nat, k: nat): nat
    requires i < 512 && j < 512 && k < 512
  {
    i * 0x4000_0000 + j * 0x20_0000 + k * 0x1000
  }

  lemma IndexOfUserAddress(i: nat, j: nat, k: nat)
    requires i < 512 && j < 512 && k < 512
    ensures IndexOf(UserAddress(i, j, k)) == Index(0, i, j, k)
  {
    var va := UserAddress(i, j, k);
    assert va / 0x1000 == i * 0x4_0000 + j * 0x200 + k by {
      assert va == 0x1000 * (i * 0x4_0000 + j * 0x200 + k);
    }
    assert va / 0x20_0000 == i * 0x200 + j by {
      assert va == 0x20_0000 * (i * 0x200 + j) + k * 0x1000;
    }
    assert va / 0x4000_0000 == i by {
      assert va == 0x4000_0000 * i + (j * 0x20_0000 + k * 0x1000);
    }
    assert (i * 0x4_0000 + j * 0x200 + k) % 512 == k by {
      assert i * 0x4_0000 + j * 0x200 + k == 512 * (i * 0x200 + j) + k;
    }
    assert (i * 0x200 + j) % 512 == j;
  }

  // ----- the role of a frame

  /** What a frame is used for: a table at some place of some address space, or a page that is mapped there
      and nowhere else.  An address space is named by the address of its PML4; `KERNEL` stands for the
      kernel half, which all address spaces share. */
  datatype Node =
    | Pml4(root: int)
    | Pdpt(root: int, i4: nat)
    | Pd(root: int, i4: nat, i3: nat)
    | Pt(root: int, i4: nat, i3: nat, i2: nat)
    | Leaf(root: int, i4: nat, i3: nat, i2: nat, i1: nat)

  const KERNEL := -1

  function RootFor(root: int, i4: nat): int {
    if i4 >= KERNEL_HALF then KERNEL else root
  }

  function Child(n: Node, i: nat): Node
    requires !n.Leaf?
  {
    match n
    case Pml4(r) => Pdpt(RootFor(r, i), i)
    case Pdpt(r, a) => Pd(r, a, i)
    case Pd(r, a, b) => Pt(r, a, b, i)
    case Pt(r, a, b, c) => Leaf(r, a, b, c, i)
  }

  /** A node that hangs in exactly one place: not a root, and not a table of the kernel half that every root
      may point to. */
  predicate HasParent(n: Node) {
    !n.Pml4? && !(n.Pdpt? && n.i4 >= KERNEL_HALF)
  }

  function Parent(n: Node): Node
    requires HasParent(n)
  {
    match n
    case Pdpt(r, a) => Pml4(r)
    case Pd(r, a, b) => Pdpt(r, a)
    case Pt(r, a, b, c) => Pd(r, a, b)
    case Leaf(r, a, b, c, d) => Pt(r, a, b, c)
  }

  function LastIndex(n: Node): nat
    requires HasParent(n)
  {
    match n
    case Pdpt(r, a) => a
    case Pd(r, a, b) => b
    case Pt(r, a, b, c) => c
    case Leaf(r, a, b, c, d) => d
  }

  type Memory = map<PageAddress, Page>

  datatype Tables = Tables(mem: Memory, role: map<PageAddress, Node>, at: map<Node, PageAddress>)

  /** Entry `i` of the frame at `f`; an absent entry outside memory. */
  function Entry(mem: Memory, f: PageAddress, i: nat): Word {
    if f in mem && i < 512 then mem[f][i] else ZERO_WORD
  }

  /** The page-size bit, bit 7: an entry above the last level that maps a large page and points to no table. */
  predicate Huge(w: Word) {
    w.present && w.low / 16 % 2 == 1
  }

  /** The entry points to a table. */
  predicate Leads(w: Word) {
    w.present && !Huge(w)
  }

  /** A present entry of a table above the last level points to the table that belongs there.  Only the kernel
      half has large pages: the boot code makes its direct map of them. */
  ghost predicate EntryOk(t: Tables, f: PageAddress, i: nat) {
    f in t.role && !t.role[f].Pt? && !t.role[f].Leaf? && Entry(t.mem, f, i).present ==>
      var c := Child(t.role[f], i);
      if Huge(Entry(t.mem, f, i)) then t.role[f].root == KERNEL
      else c in t.at && t.at[c] == Entry(t.mem, f, i).addr
  }

  /** A space is named by the address of its PML4; the kernel half belongs to no space. */
  predicate Canonical(n: Node, f: PageAddress) {
    if n.Pml4? then n.root == f else (n.root == KERNEL <==> n.i4 >= KERNEL_HALF)
  }

  /** A node sits at one frame, and the entry of its parent points to it. */
  ghost predicate NodeOk(t: Tables, n: Node) {
    n in t.at ==>
      && Canonical(n, t.at[n])
      && t.at[n] in t.role && t.role[t.at[n]] == n && t.at[n] in t.mem
      && (HasParent(n) ==>
            && Parent(n) in t.at && LastIndex(n) < 512
            && (if n.Leaf? then Entry(t.mem, t.at[Parent(n)], LastIndex(n)).present
                else Leads(Entry(t.mem, t.at[Parent(n)], LastIndex(n))))
            && Entry(t.mem, t.at[Parent(n)], LastIndex(n)).addr == t.at[n])
  }

  ghost predicate FrameOk(t: Tables, f: PageAddress) {
    f in t.role ==> t.role[f] in t.at && t.at[t.role[f]] == f && f in t.mem
  }

  /** The tables form trees, disjoint but for the shared kernel half. */
  ghost predicate WellFormed(t: Tables) {
    && (forall f: PageAddress, i: nat :: EntryOk(t, f, i))
    && (forall n: Node :: NodeOk(t, n))
    && (forall f: PageAddress :: FrameOk(t, f))
  }

  // ----- walks

  /** The table that entry `i` of the table at `f` points to. */
  function Next(mem: Memory, f: Option<PageAddress>, i: nat): Option<PageAddress> {
    if f.Some? && Leads(Entry(mem, f.value, i)) then Some(Entry(mem, f.value, i).addr) else None
  }

  function PtOf(mem: Memory, root: PageAddress, ix: Index): Option<PageAddress> {
    Next(mem, Next(mem, Next(mem, Some(root), ix.l4), ix.l3), ix.l2)
  }

  /** The last-level entry that a walk from `root` ends at, if every level is present. */
  function Walk(mem: Memory, root: PageAddress, ix: Index): Option<Word> {
    var pt := PtOf(mem, root, ix);
    if pt.Some? && Entry(mem, pt.value, ix.l1).present then Some(Entry(mem, pt.value, ix.l1)) else None
  }

  predicate IsTable(n: Node) { !n.Leaf? }
  predicate IsUpper(n: Node) { n.Pml4? || n.Pdpt? || n.Pd? }

  ghost predicate IsRoot(t: Tables, root: PageAddress) {
    root in t.role && t.role[root] == Pml4(root)
  }

  /** Following an entry above the last level leads to the frame of the child node. */
  lemma StepDown(t: Tables, f: PageAddress, i: nat)
    requires WellFormed(t) && f in t.role && IsUpper(t.role[f]) && Leads(Entry(t.mem, f, i))
    ensures var g := Entry(t.mem, f, i).addr;
      g in t.role && t.role[g] == Child(t.role[f], i) && g in t.mem
  {
    assert EntryOk(t, f, i) && NodeOk(t, Child(t.role[f], i));
  }

  /** The page table that a walk ends in is the one at its place. */
  lemma PtOfWalk(t: Tables, root: PageAddress, ix: Index)
    requires WellFormed(t) && IsRoot(t, root) && ix.Ok() && PtOf(t.mem, root, ix).Some?
    ensures var f := PtOf(t.mem, root, ix).value;
      f in t.role && t.role[f] == Pt(RootFor(root, ix.l4), ix.l4, ix.l3, ix.l2) && f in t.mem
  {
    StepDown(t, root, ix.l4);
    var f3 := Entry(t.mem, root, ix.l4).addr;
    StepDown(t, f3, ix.l3);
    var f2 := Entry(t.mem, f3, ix.l3).addr;
    StepDown(t, f2, ix.l2);
  }

  /** As far as walks can tell, entry `j` of the table at `x` is as before; or it was absent and now points to
      the empty table at `g`. */
  predicate SameStep(mem: Memory, mem': Memory, x: PageAddress, j: nat, g: Option<PageAddress>) {
    var w, w' := Entry(mem, x, j), Entry(mem', x, j);
    (Leads(w') == Leads(w) && w'.addr == w.addr) || (!Leads(w) && g.Some? && w'.addr == g.value)
  }

  ghost predicate SameTables(t: Tables, mem': Memory, g: Option<PageAddress>) {
    && (forall x: PageAddress, j: nat | x in t.role && IsUpper(t.role[x]) :: SameStep(t.mem, mem', x, j, g))
    && (forall x: PageAddress, j: nat | x in t.role && t.role[x].Pt? :: Entry(mem', x, j) == Entry(t.mem, x, j))
    && (g.Some? ==> forall j: nat :: !Entry(mem', g.value, j).present)
  }

  /** No translation of any address space changes. */
  ghost predicate SameWalks(t: Tables, mem': Memory) {
    forall root: PageAddress, ix: Index | IsRoot(t, root) && ix.Ok() :: Walk(mem', root, ix) == Walk(t.mem, root, ix)
  }

  lemma SameTablesSameWalk(t: Tables, mem': Memory, g: Option<PageAddress>, root: PageAddress, ix: Index)
    requires WellFormed(t) && SameTables(t, mem', g) && IsRoot(t, root) && ix.Ok()
    ensures Walk(mem', root, ix) == Walk(t.mem, root, ix)
  {
    assert SameStep(t.mem, mem', root, ix.l4, g);
    if Leads(Entry(t.mem, root, ix.l4)) {
      StepDown(t, root, ix.l4);
      var f3 := Entry(t.mem, root, ix.l4).addr;
      assert SameStep(t.mem, mem', f3, ix.l3, g);
      if Leads(Entry(t.mem, f3, ix.l3)) {
        StepDown(t, f3, ix.l3);
        var f2 := Entry(t.mem, f3, ix.l3).addr;
        assert SameStep(t.mem, mem', f2, ix.l2, g);
        if Leads(Entry(t.mem, f2, ix.l2)) {
          StepDown(t, f2, ix.l2);
        }
      }
    }
  }

  lemma SameTablesSameWalks(t: Tables, mem': Memory, g: Option<PageAddress>)
    requires WellFormed(t) && SameTables(t, mem', g)
    ensures SameWalks(t, mem')
  {
    forall root: PageAddress, ix: Index | IsRoot(t, root) && ix.Ok()
      ensures Walk(mem', root, ix) == Walk(t.mem, root, ix)
    {
      SameTablesSameWalk(t, mem', g, root, ix);
    }
  }

  // ----- the three changes to a table

  function SetEntry(mem: Memory, f: PageAddress, i: nat, w: Word): Memory
    requires f in mem && i < 512
  {
    mem[f := mem[f][i := w]]
  }

  /** A new, empty table at `g` hung into entry `i` of the table at `f`. */
  function AddTable(t: Tables, f: PageAddress, i: nat, g: PageAddress, w: Word): Tables
    requires f in t.mem && g in t.mem && i < 512 && f in t.role && IsUpper(t.role[f])
  {
    Tables(SetEntry(t.mem[g := ZeroPage()], f, i, w), t.role[g := Child(t.role[f], i)], t.at[Child(t.role[f], i) := g])
  }

  /** Nothing hangs below an entry that does not lead on. */
  lemma AbsentHasNoChild(t: Tables, f: PageAddress, i: nat)
    requires WellFormed(t) && f in t.role && IsTable(t.role[f]) && i < 512
    requires if t.role[f].Pt? then !Entry(t.mem, f, i).present else !Leads(Entry(t.mem, f, i))
    requires HasParent(Child(t.role[f], i))
    ensures Child(t.role[f], i) !in t.at
  {
    assert NodeOk(t, Child(t.role[f], i)) && FrameOk(t, f);
  }

  /** The entries of a space's own tables are no large pages. */
  lemma OwnEntryLeads(t: Tables, f: PageAddress, i: nat)
    requires WellFormed(t) && f in t.role && IsUpper(t.role[f]) && t.role[f].root != KERNEL
    ensures !Huge(Entry(t.mem, f, i))
  {
    assert EntryOk(t, f, i);
  }

  /** A table may be made at entry `i4` of a PML4: it is there, or no space has one there yet.  Below the kernel
      half that is always so. */
  ghost predicate SlotOk(t: Tables, root: PageAddress, i4: nat) {
    Entry(t.mem, root, i4).present || Pdpt(RootFor(root, i4), i4) !in t.at
  }

  lemma UserSlotOk(t: Tables, root: PageAddress, i4: nat)
    requires WellFormed(t) && IsRoot(t, root) && i4 < KERNEL_HALF
    ensures SlotOk(t, root, i4)
  {
    if !Entry(t.mem, root, i4).present { AbsentHasNoChild(t, root, i4); }
  }

  /** Otherwise a table made there is a second one: the kernel halves of two spaces have come apart, and
      whatever the frames are taken to be, they are no longer trees that share the kernel half. */
  lemma SecondKernelTable(t: Tables, root: PageAddress, i4: nat, other: PageAddress, g: PageAddress, w: Word,
                          role: map<PageAddress, Node>, at: map<Node, PageAddress>)
    requires WellFormed(t) && IsRoot(t, root) && IsRoot(t, other) && KERNEL_HALF <= i4 < 512 && root in t.mem
             && g in t.mem
    requires !Entry(t.mem, root, i4).present && Entry(t.mem, other, i4).present
    requires g !in t.role && Leads(w) && w.addr == g
    ensures !SlotOk(t, root, i4)
    ensures var u := Tables(SetEntry(t.mem[g := ZeroPage()], root, i4, w), role, at);
      !(WellFormed(u) && IsRoot(u, root) && IsRoot(u, other))
  {
    OwnEntryLeads(t, other, i4);
    StepDown(t, other, i4);
    assert EntryOk(t, other, i4);
    var u := Tables(SetEntry(t.mem[g := ZeroPage()], root, i4, w), role, at);
    assert Entry(u.mem, other, i4) == Entry(t.mem, other, i4);
    assert WellFormed(u) ==> EntryOk(u, root, i4) && EntryOk(u, other, i4);
  }

  lemma AddTableKeepsOrder(t: Tables, f: PageAddress, i: nat, g: PageAddress, w: Word)
    requires WellFormed(t) && f in t.mem && g in t.mem && i < 512 && f in t.role && IsUpper(t.role[f])
    requires g !in t.role && Leads(w) && w.addr == g
    requires !Entry(t.mem, f, i).present && Child(t.role[f], i) !in t.at
    ensures WellFormed(AddTable(t, f, i, g, w))
    ensures SameWalks(t, AddTable(t, f, i, g, w).mem)
  {
    var u := AddTable(t, f, i, g, w);
    var c := Child(t.role[f], i);
    assert FrameOk(t, f) && NodeOk(t, t.role[f]);
    forall x: PageAddress, j: nat ensures EntryOk(u, x, j) {
      assert EntryOk(t, x, j);
    }
    forall n: Node ensures NodeOk(u, n) {
      assert NodeOk(t, n) && FrameOk(t, f);
      if n in t.at && HasParent(n) { assert NodeOk(t, Parent(n)); }
    }
    forall x: PageAddress ensures FrameOk(u, x) {
      assert FrameOk(t, x);
    }
    forall x: PageAddress, j: nat | x in t.role && IsUpper(t.role[x]) ensures SameStep(t.mem, u.mem, x, j, Some(g)) {
    }
    SameTablesSameWalks(t, u.mem, Some(g));
  }

  /** More rights in an entry above the last level. */
  lemma WidenKeepsOrder(t: Tables, f: PageAddress, i: nat, flags: Flags)
    requires WellFormed(t) && f in t.mem && i < 512 && f in t.role && IsUpper(t.role[f])
    ensures WellFormed(t.(mem := SetEntry(t.mem, f, i, Widen(t.mem[f][i], flags))))
    ensures SameWalks(t, SetEntry(t.mem, f, i, Widen(t.mem[f][i], flags)))
  {
    var u := t.(mem := SetEntry(t.mem, f, i, Widen(t.mem[f][i], flags)));
    forall x: PageAddress, j: nat ensures EntryOk(u, x, j) {
      assert EntryOk(t, x, j);
    }
    forall n: Node ensures NodeOk(u, n) {
      assert NodeOk(t, n);
    }
    forall x: PageAddress ensures FrameOk(u, x) {
      assert FrameOk(t, x);
    }
    forall x: PageAddress, j: nat | x in t.role && IsUpper(t.role[x]) ensures SameStep(t.mem, u.mem, x, j, None) {
    }
    SameTablesSameWalks(t, u.mem, None);
  }

  // ----- last-level entries

  /** `n` no longer names a frame of its own. */
  function Detach(t: Tables, n: Node): Tables {
    if n in t.at then t.(role := t.role - {t.at[n]}, at := t.at - {n}) else t
  }

  /** Entry `i` of the page table at `f` becomes `w`.  With `private`, the page it maps becomes the frame of
      that place and of no other. */
  function PutLeaf(t: Tables, f: PageAddress, i: nat, w: Word, private: bool): Tables
    requires f in t.mem && i < 512 && f in t.role && t.role[f].Pt?
  {
    var n := Child(t.role[f], i);
    var u := Detach(t.(mem := SetEntry(t.mem, f, i, w)), n);
    if private then u.(role := u.role[w.addr := n], at := u.at[n := w.addr]) else u
  }

  lemma PutLeafKeepsOrder(t: Tables, f: PageAddress, i: nat, w: Word, private: bool)
    requires WellFormed(t) && f in t.mem && i < 512 && f in t.role && t.role[f].Pt?
    requires private ==> w.present && w.addr !in t.role && w.addr in t.mem
    ensures WellFormed(PutLeaf(t, f, i, w, private))
  {
    var n := Child(t.role[f], i);
    var u := PutLeaf(t, f, i, w, private);
    assert NodeOk(t, n) && FrameOk(t, f) && NodeOk(t, t.role[f]);
    forall x: PageAddress, j: nat ensures EntryOk(u, x, j) {
      assert EntryOk(t, x, j);
    }
    forall m: Node ensures NodeOk(u, m) {
      PutLeafKeepsNode(t, f, i, w, private, m);
    }
    forall x: PageAddress ensures FrameOk(u, x) {
      assert FrameOk(t, x);
    }
  }

  lemma PutLeafKeepsNode(t: Tables, f: PageAddress, i: nat, w: Word, private: bool, m: Node)
    requires WellFormed(t) && f in t.mem && i < 512 && f in t.role && t.role[f].Pt?
    requires private ==> w.present && w.addr !in t.role && w.addr in t.mem
    ensures NodeOk(PutLeaf(t, f, i, w, private), m)
  {
    var n := Child(t.role[f], i);
    assert NodeOk(t, n) && FrameOk(t, f) && NodeOk(t, t.role[f]) && NodeOk(t, m);
    if m in t.at && HasParent(m) {
      assert NodeOk(t, Parent(m));
      assert t.at[Parent(m)] == f && LastIndex(m) == i ==> m == n;
    }
  }

  /** Two addresses share their translation: the same page of the same space, or of the kernel half. */
  predicate SamePage(root: int, ix: Index, root': int, ix': Index) {
    ix == ix' && RootFor(root, ix.l4) == RootFor(root', ix'.l4)
  }

  /** Writing entry `l1` of the page table that `root` reaches at `ix` gives that page the new entry and no
      other page of any space another translation. */
  lemma PutLeafWalks(t: Tables, root: PageAddress, ix: Index, w: Word, root': PageAddress, ix': Index)
    requires WellFormed(t) && IsRoot(t, root) && ix.Ok() && IsRoot(t, root') && ix'.Ok()
    requires PtOf(t.mem, root, ix).Some? && PtOf(t.mem, root, ix).value in t.mem
    ensures Walk(SetEntry(t.mem, PtOf(t.mem, root, ix).value, ix.l1, w), root', ix') ==
            if SamePage(root, ix, root', ix') && PtOf(t.mem, root', ix').Some?
            then (if w.present then Some(w) else None)
            else Walk(t.mem, root', ix')
  {
    var f := PtOf(t.mem, root, ix).value;
    PtOfWalk(t, root, ix);
    var mem' := SetEntry(t.mem, f, ix.l1, w);
    SamePtOf(t, f, ix.l1, w, root', ix');
    if PtOf(t.mem, root', ix').Some? {
      PtOfWalk(t, root', ix');
      var f' := PtOf(t.mem, root', ix').value;
      assert FrameOk(t, f) && FrameOk(t, f');
      assert SamePage(root, ix, root', ix') <==> f' == f && ix'.l1 == ix.l1;
    }
  }

  /** Clearing an entry takes the page from every space that shares it, and nothing else from any. */
  lemma UnmapWalks(t: Tables, root: PageAddress, ix: Index)
    requires WellFormed(t) && IsRoot(t, root) && ix.Ok()
    requires PtOf(t.mem, root, ix).Some? && PtOf(t.mem, root, ix).value in t.mem
    ensures var mem' := SetEntry(t.mem, PtOf(t.mem, root, ix).value, ix.l1, ZERO_WORD);
      forall r: PageAddress, j: Index | IsRoot(t, r) && j.Ok() ::
        Walk(mem', r, j) == if SamePage(root, ix, r, j) then None else Walk(t.mem, r, j)
  {
    var mem' := SetEntry(t.mem, PtOf(t.mem, root, ix).value, ix.l1, ZERO_WORD);
    forall r: PageAddress, j: Index | IsRoot(t, r) && j.Ok()
      ensures Walk(mem', r, j) == if SamePage(root, ix, r, j) then None else Walk(t.mem, r, j)
    {
      PutLeafWalks(t, root, ix, ZERO_WORD, r, j);
    }
  }

  lemma SamePtOf(t: Tables, f: PageAddress, i: nat, w: Word, root: PageAddress, ix: Index)
    requires WellFormed(t) && f in t.mem && f in t.role && t.role[f].Pt? && i < 512 && IsRoot(t, root) && ix.Ok()
    ensures PtOf(SetEntry(t.mem, f, i, w), root, ix) == PtOf(t.mem, root, ix)
  {
    if Leads(Entry(t.mem, root, ix.l4)) {
      StepDown(t, root, ix.l4);
      var f3 := Entry(t.mem, root, ix.l4).addr;
      if Leads(Entry(t.mem, f3, ix.l3)) {
        StepDown(t, f3, ix.l3);
      }
    }
  }

  // ----- who owns which frame

  /** The frames of address space `root`: its tables outside the kernel half, and its private pages. */
  ghost function Owned(role: map<PageAddress, Node>, root: int): set<PageAddress> {
    set f | f in role && role[f].root == root
  }

  /** A present last-level entry of the space maps a page of its own if it has the user bit, and one that
      belongs to no space otherwise. */
  ghost predicate LeafOk(t: Tables, root: int, f: PageAddress, i: nat) {
    f in t.role && t.role[f].Pt? && t.role[f].root == root && Entry(t.mem, f, i).present ==>
      if Entry(t.mem, f, i).user then Child(t.role[f], i) in t.at
                                      && t.at[Child(t.role[f], i)] == Entry(t.mem, f, i).addr
      else Child(t.role[f], i) !in t.at
  }

  ghost predicate OnlySlotZero(t: Tables, root: int, n: Node) {
    n in t.at && n.root == root ==> n == Pml4(root) || (!n.Pml4? && n.i4 == 0)
  }

  /** A user address space: everything of its own hangs below PML4 entry 0, and its pages are private. */
  ghost predicate PrivateSpace(t: Tables, root: PageAddress) {
    && IsRoot(t, root)
    && (forall f: PageAddress, i: nat :: LeafOk(t, root, f, i))
    && (forall n: Node :: OnlySlotZero(t, root, n))
  }

  /** Frames have only moved from the free pool into space `root`, below PML4 entry `slot`. */
  ghost predicate Moved(role: map<PageAddress, Node>, free: set<nat>, role': map<PageAddress, Node>, free': set<nat>,
                        root: int, slot: nat)
  {
    forall f: PageAddress :: MovedOk(role, free, role', free', root, slot, f)
  }

  ghost predicate MovedOk(role: map<PageAddress, Node>, free: set<nat>, role': map<PageAddress, Node>, free': set<nat>,
                          root: int, slot: nat, f: PageAddress)
  {
    && (f in role ==> f in role' && role'[f] == role[f])
    && (f in role' && f !in role ==>
          f in free && f !in free' && role'[f].root == root && !role'[f].Pml4? && role'[f].i4 == slot)
    && (f in free' ==> f in free)
    && (f in free && f !in free' ==> f in role')
  }

  lemma MovedTwice(role: map<PageAddress, Node>, free: set<nat>, role': map<PageAddress, Node>, free': set<nat>,
                   role'': map<PageAddress, Node>, free'': set<nat>, root: int, slot: nat)
    requires Moved(role, free, role', free', root, slot) && Moved(role', free', role'', free'', root, slot)
    ensures Moved(role, free, role'', free'', root, slot)
  {
    forall f: PageAddress ensures MovedOk(role, free, role'', free'', root, slot, f) {
      assert MovedOk(role, free, role', free', root, slot, f) && MovedOk(role', free', role'', free'', root, slot, f);
    }
  }

  /** Nothing is lost and nothing is taken from another space. */
  lemma MovedConserves(role: map<PageAddress, Node>, free: set<nat>, role': map<PageAddress, Node>, free': set<nat>,
                       root: int, slot: nat)
    requires Moved(role, free, role', free', root, slot)
    requires forall a: nat | a in free || a in free' :: a < MAX_PHYSICAL && a % PAGE_SIZE == 0
    requires forall f: PageAddress | f in role :: f !in free
    ensures free' + Owned(role', root) == free + Owned(role, root)
    ensures forall other: int | other != root :: Owned(role', other) == Owned(role, other)
  {
    forall f: PageAddress ensures MovedOk(role, free, role', free', root, slot, f) {
    }
    forall a: nat ensures a in free' + Owned(role', root) <==> a in free + Owned(role, root) {
      if a < MAX_PHYSICAL && a % PAGE_SIZE == 0 {
        assert MovedOk(role, free, role', free', root, slot, a);
      }
    }
    forall other: int | other != root ensures Owned(role', other) == Owned(role, other) {
      forall f: PageAddress ensures f in Owned(role', other) <==> f in Owned(role, other) {
        assert MovedOk(role, free, role', free', root, slot, f);
      }
    }
  }

  lemma SameWalksTwice(t: Tables, u: Tables, mem'': Memory)
    requires SameWalks(t, u.mem) && SameWalks(u, mem'')
    requires forall root: PageAddress | IsRoot(t, root) :: IsRoot(u, root)
    ensures SameWalks(t, mem'')
  {
  }

  /** Entry of page tables: those that were there are as they were, the new ones are empty. */
  ghost predicate PtKept(t: Tables, u: Tables, f: PageAddress, i: nat) {
    f in u.role && u.role[f].Pt? ==>
      if f in t.role then Entry(u.mem, f, i) == Entry(t.mem, f, i) else !Entry(u.mem, f, i).present
  }

  /** The bytes of a page in use, unless it is an upper table, are as they were. */
  ghost predicate PageKept(t: Tables, free: set<nat>, u: Tables, x: PageAddress) {
    x in t.mem ==> x in u.mem && (x !in free && !(x in t.role && IsUpper(t.role[x])) ==> u.mem[x] == t.mem[x])
  }

  /** The same for pages that are not tables at all. */
  ghost predicate DataKept(t: Tables, free: set<nat>, u: Tables, x: PageAddress) {
    x in t.mem ==> x in u.mem && (x !in free && (x in t.role ==> t.role[x].Leaf?) ==> u.mem[x] == t.mem[x])
  }

  /** No page has become private, and none has ceased to be. */
  ghost predicate LeafKept(t: Tables, u: Tables, n: Node) {
    n.Leaf? ==> (n in u.at <==> n in t.at)
  }

  /** No large page has come up. */
  ghost predicate HugeKept(t: Tables, u: Tables, f: PageAddress, i: nat) {
    f in u.role && IsUpper(u.role[f]) && Huge(Entry(u.mem, f, i)) ==> f in t.role && Huge(Entry(t.mem, f, i))
  }

  /** Tables have been added below entry `slot` of space `root`, and nothing else has happened. */
  ghost predicate Extended(t: Tables, free: set<nat>, u: Tables, free': set<nat>, root: int, slot: nat) {
    && Moved(t.role, free, u.role, free', root, slot)
    && SameWalks(t, u.mem)
    && (forall f: PageAddress, i: nat :: PtKept(t, u, f, i))
    && (forall n: Node :: LeafKept(t, u, n))
    && (forall f: PageAddress, i: nat :: HugeKept(t, u, f, i))
    && (forall x: PageAddress :: PageKept(t, free, u, x))
  }

  lemma DataAfterMove(t: Tables, free: set<nat>, u: Tables, free': set<nat>, root: int, slot: nat)
    requires Extended(t, free, u, free', root, slot)
    ensures forall x: PageAddress :: DataKept(t, free, u, x)
  {
    forall x: PageAddress ensures DataKept(t, free, u, x) {
      assert PageKept(t, free, u, x);
    }
  }

  lemma ExtendedTwice(t: Tables, free: set<nat>, u: Tables, free': set<nat>, v: Tables, free'': set<nat>, root: int,
                      slot: nat)
    requires Extended(t, free, u, free', root, slot) && Extended(u, free', v, free'', root, slot)
    ensures Extended(t, free, v, free'', root, slot)
  {
    MovedTwice(t.role, free, u.role, free', v.role, free'', root, slot);
    forall s: PageAddress | IsRoot(t, s) ensures IsRoot(u, s) {
      assert MovedOk(t.role, free, u.role, free', root, slot, s);
    }
    SameWalksTwice(t, u, v.mem);
    forall f: PageAddress, i: nat ensures PtKept(t, v, f, i) {
      assert MovedOk(t.role, free, u.role, free', root, slot, f)
             && MovedOk(u.role, free', v.role, free'', root, slot, f);
      assert PtKept(t, u, f, i) && PtKept(u, v, f, i);
    }
    forall f: PageAddress, i: nat ensures HugeKept(t, v, f, i) {
      assert HugeKept(t, u, f, i) && HugeKept(u, v, f, i);
      assert MovedOk(t.role, free, u.role, free', root, slot, f)
             && MovedOk(u.role, free', v.role, free'', root, slot, f);
    }
    forall n: Node ensures LeafKept(t, v, n) {
      assert LeafKept(t, u, n) && LeafKept(u, v, n);
    }
    forall x: PageAddress ensures PageKept(t, free, v, x) {
      assert PageKept(t, free, u, x) && PageKept(u, free', v, x);
      assert MovedOk(t.role, free, u.role, free', root, slot, x);
    }
  }

  lemma ExtendedByNothing(t: Tables, free: set<nat>, root: int, slot: nat)
    ensures Extended(t, free, t, free, root, slot)
  {
    forall f: PageAddress ensures MovedOk(t.role, free, t.role, free, root, slot, f) {
    }
    forall f: PageAddress, i: nat ensures PtKept(t, t, f, i) {
    }
    forall f: PageAddress, i: nat ensures HugeKept(t, t, f, i) {
    }
    forall n: Node ensures LeafKept(t, t, n) {
    }
    forall x: PageAddress ensures PageKept(t, free, t, x) {
    }
  }

  lemma ExtendedByTable(t: Tables, free: set<nat>, f: PageAddress, i: nat, g: PageAddress, w: Word)
    requires WellFormed(t) && f in t.mem && g in t.mem && i < 512 && f in t.role && IsUpper(t.role[f])
    requires g !in t.role && Leads(w) && w.addr == g && g in free
    requires !Entry(t.mem, f, i).present && Child(t.role[f], i) !in t.at
    requires forall x: PageAddress | x in t.role :: x !in free
    ensures WellFormed(AddTable(t, f, i, g, w))
    ensures Extended(t, free, AddTable(t, f, i, g, w), free - {g}, Child(t.role[f], i).root, Child(t.role[f], i).i4)
  {
    AddTableKeepsOrder(t, f, i, g, w);
    var u, n := AddTable(t, f, i, g, w), Child(t.role[f], i);
    forall x: PageAddress ensures MovedOk(t.role, free, u.role, free - {g}, n.root, n.i4, x) {
    }
    forall x: PageAddress, j: nat ensures PtKept(t, u, x, j) {
    }
    forall x: PageAddress, j: nat ensures HugeKept(t, u, x, j) {
    }
    forall n: Node ensures LeafKept(t, u, n) {
    }
    forall x: PageAddress ensures PageKept(t, free, u, x) {
    }
  }

  lemma ExtendedByWidening(t: Tables, free: set<nat>, f: PageAddress, i: nat, flags: Flags, root: int, slot: nat)
    requires WellFormed(t) && f in t.mem && i < 512 && f in t.role && IsUpper(t.role[f])
    ensures WellFormed(t.(mem := SetEntry(t.mem, f, i, Widen(t.mem[f][i], flags))))
    ensures Extended(t, free, t.(mem := SetEntry(t.mem, f, i, Widen(t.mem[f][i], flags))), free, root, slot)
  {
    WidenKeepsOrder(t, f, i, flags);
    var u := t.(mem := SetEntry(t.mem, f, i, Widen(t.mem[f][i], flags)));
    forall x: PageAddress ensures MovedOk(t.role, free, u.role, free, root, slot, x) {
    }
    forall x: PageAddress, j: nat ensures PtKept(t, u, x, j) {
    }
    forall x: PageAddress, j: nat ensures HugeKept(t, u, x, j) {
    }
    forall n: Node ensures LeafKept(t, u, n) {
    }
    forall x: PageAddress ensures PageKept(t, free, u, x) {
    }
  }

  /** Adding tables below slot 0 of a space keeps every private space private. */
  lemma PrivateAfterMove(t: Tables, free: set<nat>, u: Tables, free': set<nat>, root: int, s: PageAddress)
    requires WellFormed(t) && WellFormed(u) && PrivateSpace(t, s)
    requires Extended(t, free, u, free', root, 0)
    ensures PrivateSpace(u, s)
  {
    assert MovedOk(t.role, free, u.role, free', root, 0, s);
    forall f: PageAddress, i: nat ensures LeafOk(u, s, f, i) {
      assert PtKept(t, u, f, i) && LeafOk(t, s, f, i) && MovedOk(t.role, free, u.role, free', root, 0, f);
      if f in u.role && u.role[f].Pt? { assert LeafKept(t, u, Child(u.role[f], i)); }
      if f in t.role && t.role[f].Pt? && t.role[f].root == s && Entry(t.mem, f, i).present {
        var g := Entry(t.mem, f, i).addr;
        assert NodeOk(t, Child(t.role[f], i)) && MovedOk(t.role, free, u.role, free', root, 0, g) && FrameOk(u, g);
      }
    }
    forall n: Node ensures OnlySlotZero(u, s, n) {
      assert OnlySlotZero(t, s, n) && NodeOk(u, n);
      if n in u.at {
        assert MovedOk(t.role, free, u.role, free', root, 0, u.at[n]);
        if u.at[n] in t.role { assert FrameOk(t, u.at[n]); }
      }
    }
  }

  /** Mapping a page of its own, for user access, into a private space. */
  lemma PrivateAfterPut(t: Tables, f: PageAddress, i: nat, w: Word, s: PageAddress)
    requires WellFormed(t) && PrivateSpace(t, s)
    requires f in t.mem && i < 512 && f in t.role && t.role[f].Pt? && t.role[f].i4 == 0
    requires w.present && w.user && w.addr !in t.role && w.addr in t.mem && !Entry(t.mem, f, i).present
    ensures PrivateSpace(PutLeaf(t, f, i, w, true), s)
  {
    var u := PutLeaf(t, f, i, w, true);
    AbsentHasNoChild(t, f, i);
    forall x: PageAddress, j: nat ensures LeafOk(u, s, x, j) {
      assert LeafOk(t, s, x, j) && FrameOk(t, x) && FrameOk(t, f);
    }
    forall n: Node ensures OnlySlotZero(u, s, n) {
      assert OnlySlotZero(t, s, n);
    }
  }

  /** Unmapping a page: if it was private, its frame belongs to no space any more. */
  lemma PrivateAfterUnmap(t: Tables, f: PageAddress, i: nat, s: PageAddress)
    requires WellFormed(t) && PrivateSpace(t, s)
    requires f in t.mem && i < 512 && f in t.role && t.role[f].Pt?
    ensures PrivateSpace(PutLeaf(t, f, i, ZERO_WORD, false), s)
  {
    var u := PutLeaf(t, f, i, ZERO_WORD, false);
    assert NodeOk(t, Child(t.role[f], i));
    forall x: PageAddress, j: nat ensures LeafOk(u, s, x, j) {
      assert LeafOk(t, s, x, j) && FrameOk(t, x) && FrameOk(t, f);
    }
    forall n: Node ensures OnlySlotZero(u, s, n) {
      assert OnlySlotZero(t, s, n);
    }
  }

  /** Mapping a page without the user bit, which then belongs to no space. */
  lemma PrivateAfterPlainPut(t: Tables, f: PageAddress, i: nat, w: Word, s: PageAddress)
    requires WellFormed(t) && PrivateSpace(t, s)
    requires f in t.mem && i < 512 && f in t.role && t.role[f].Pt? && !w.user && !Entry(t.mem, f, i).present
    ensures PrivateSpace(PutLeaf(t, f, i, w, false), s)
  {
    var u := PutLeaf(t, f, i, w, false);
    AbsentHasNoChild(t, f, i);
    forall x: PageAddress, j: nat ensures LeafOk(u, s, x, j) {
      assert LeafOk(t, s, x, j);
    }
    forall n: Node ensures OnlySlotZero(u, s, n) {
      assert OnlySlotZero(t, s, n);
    }
  }

  // ----- mapping one page

  /** A page has been mapped at `ix` of space `root`: it translates to `w`, no other page of any space
      translates differently, and no data has been touched. */
  ghost predicate MappedOne(t: Tables, free: set<nat>, u: Tables, root: PageAddress, ix: Index, w: Word) {
    && Walk(u.mem, root, ix) == Some(w)
    && (forall r: PageAddress, j: Index | IsRoot(t, r) && j.Ok() && !SamePage(root, ix, r, j) ::
          Walk(u.mem, r, j) == Walk(t.mem, r, j))
    && (forall x: PageAddress :: DataKept(t, free, u, x))
  }

  /** The last step of a mapping, after the tables have been extended from `t` to `u`. */
  lemma MappedByPut(t: Tables, free: set<nat>, u: Tables, free': set<nat>, root: PageAddress, ix: Index, w: Word,
                    private: bool)
    requires WellFormed(t) && WellFormed(u) && IsRoot(t, root) && ix.Ok() && w.present
    requires Extended(t, free, u, free', RootFor(root, ix.l4), ix.l4)
    requires PtOf(u.mem, root, ix).Some?
    requires private ==> w.addr !in u.role && w.addr in u.mem
    ensures IsRoot(u, root) && PtOf(u.mem, root, ix).value in u.mem && PtOf(u.mem, root, ix).value in u.role
    ensures u.role[PtOf(u.mem, root, ix).value] == Pt(RootFor(root, ix.l4), ix.l4, ix.l3, ix.l2)
    ensures var v := PutLeaf(u, PtOf(u.mem, root, ix).value, ix.l1, w, private);
      WellFormed(v) && MappedOne(t, free, v, root, ix, w)
  {
    assert MovedOk(t.role, free, u.role, free', RootFor(root, ix.l4), ix.l4, root);
    PtOfWalk(u, root, ix);
    var f := PtOf(u.mem, root, ix).value;
    var v := PutLeaf(u, f, ix.l1, w, private);
    PutLeafKeepsOrder(u, f, ix.l1, w, private);
    PutLeafWalks(u, root, ix, w, root, ix);
    forall r: PageAddress, j: Index | IsRoot(t, r) && j.Ok() && !SamePage(root, ix, r, j)
      ensures Walk(v.mem, r, j) == Walk(t.mem, r, j)
    {
      assert MovedOk(t.role, free, u.role, free', RootFor(root, ix.l4), ix.l4, r);
      PutLeafWalks(u, root, ix, w, r, j);
    }
    forall x: PageAddress ensures DataKept(t, free, v, x) {
      assert PageKept(t, free, u, x);
      assert MovedOk(t.role, free, u.role, free', RootFor(root, ix.l4), ix.l4, x);
    }
  }

  /** When the page is fresh, its frame has moved into the space along with the new tables. */
  lemma MovedByPut(t: Tables, free: set<nat>, u: Tables, free': set<nat>, f: PageAddress, i: nat, w: Word, root: int)
    requires WellFormed(u) && Moved(t.role, free, u.role, free', root, 0)
    requires f in u.mem && i < 512 && f in u.role && u.role[f].Pt? && u.role[f].root == root && u.role[f].i4 == 0
    requires w.addr !in u.role && w.addr !in free && !Entry(u.mem, f, i).present
    ensures Moved(t.role, free + {w.addr}, PutLeaf(u, f, i, w, true).role, free', root, 0)
  {
    AbsentHasNoChild(u, f, i);
    forall x: PageAddress ensures MovedOk(t.role, free + {w.addr}, PutLeaf(u, f, i, w, true).role, free', root, 0, x) {
      assert MovedOk(t.role, free, u.role, free', root, 0, x);
    }
    assert MovedOk(t.role, free, u.role, free', root, 0, w.addr);
  }

  /** A mapping where nothing was mapped, of a page that does not become private, changes no role. */
  lemma RolesAfterPlainPut(t: Tables, u: Tables, root: PageAddress, ix: Index, w: Word)
    requires WellFormed(t) && WellFormed(u) && IsRoot(t, root) && IsRoot(u, root) && ix.Ok()
    requires SameWalks(t, u.mem) && PtOf(u.mem, root, ix).Some? && Walk(t.mem, root, ix) == None
    ensures var f := PtOf(u.mem, root, ix).value;
      f in u.mem && f in u.role && u.role[f].Pt? && PutLeaf(u, f, ix.l1, w, false).role == u.role
  {
    PtOfWalk(u, root, ix);
    assert Walk(u.mem, root, ix) == None;
    AbsentHasNoChild(u, PtOf(u.mem, root, ix).value, ix.l1);
  }

  lemma MappedPlainly(t: Tables, u: Tables, root: PageAddress, ix: Index, w: Word)
    requires WellFormed(t) && WellFormed(u) && IsRoot(t, root) && IsRoot(u, root) && ix.Ok() && !w.user
    requires SameWalks(t, u.mem) && PtOf(u.mem, root, ix).Some? && Walk(t.mem, root, ix) == None
    ensures PtOf(u.mem, root, ix).value in u.mem && PtOf(u.mem, root, ix).value in u.role
            && u.role[PtOf(u.mem, root, ix).value].Pt?
    ensures forall s: PageAddress | PrivateSpace(u, s) ::
              PrivateSpace(PutLeaf(u, PtOf(u.mem, root, ix).value, ix.l1, w, false), s)
  {
    PtOfWalk(u, root, ix);
    var f := PtOf(u.mem, root, ix).value;
    assert Walk(u.mem, root, ix) == None;
    forall s: PageAddress | PrivateSpace(u, s) ensures PrivateSpace(PutLeaf(u, f, ix.l1, w, false), s) {
      PrivateAfterPlainPut(u, f, ix.l1, w, s);
    }
  }

  /** Only private pages ever lose their role. */
  lemma PutLeafKeepsTables(t: Tables, f: PageAddress, i: nat, w: Word, private: bool)
    requires WellFormed(t) && f in t.mem && i < 512 && f in t.role && t.role[f].Pt?
    requires private ==> w.addr !in t.role
    ensures forall x: PageAddress | x in t.role && !t.role[x].Leaf? ::
              x in PutLeaf(t, f, i, w, private).role && PutLeaf(t, f, i, w, private).role[x] == t.role[x]
    ensures forall x: PageAddress | x in PutLeaf(t, f, i, w, private).role :: x in t.role || (private && x == w.addr)
    ensures forall x: PageAddress | x in t.mem :: x in PutLeaf(t, f, i, w, private).mem
  {
    assert NodeOk(t, Child(t.role[f], i));
  }

  lemma MappedPrivately(t: Tables, free: set<nat>, u: Tables, free': set<nat>, root: PageAddress, ix: Index, w: Word)
    requires WellFormed(t) && WellFormed(u) && IsRoot(t, root) && ix.Ok() && ix.l4 == 0 && w.present && w.user
    requires Extended(t, free, u, free', root, 0)
    requires PtOf(u.mem, root, ix).Some? && Walk(t.mem, root, ix) == None
    requires w.addr !in u.role && w.addr in u.mem && w.addr !in free
    ensures PtOf(u.mem, root, ix).value in u.mem && PtOf(u.mem, root, ix).value in u.role
            && u.role[PtOf(u.mem, root, ix).value].Pt?
    ensures var v := PutLeaf(u, PtOf(u.mem, root, ix).value, ix.l1, w, true);
      && Moved(t.role, free + {w.addr}, v.role, free', root, 0)
      && w.addr in v.role && v.role[w.addr] == Leaf(root, 0, ix.l3, ix.l2, ix.l1)
      && forall s: PageAddress | PrivateSpace(u, s) :: PrivateSpace(v, s)
  {
    assert MovedOk(t.role, free, u.role, free', root, 0, root);
    PtOfWalk(u, root, ix);
    var f := PtOf(u.mem, root, ix).value;
    assert Walk(u.mem, root, ix) == None;
    MovedByPut(t, free, u, free', f, ix.l1, w, root);
    forall s: PageAddress | PrivateSpace(u, s) ensures PrivateSpace(PutLeaf(u, f, ix.l1, w, true), s) {
      PrivateAfterPut(u, f, ix.l1, w, s);
    }
  }

  // ----- access rights

  /** Entry `i` grants at least what `flags` asks for. */
  predicate Grants(mem: Memory, f: PageAddress, i: nat, flags: Flags) {
    && Entry(mem, f, i).present
    && (flags.user ==> Entry(mem, f, i).user)
    && (flags.writable ==> Entry(mem, f, i).writable)
  }

  /** The three tables on the way to the page table grant at least `flags` (section 4.6: an access is allowed
      only if every level allows it). */
  predicate PathGrants(mem: Memory, root: PageAddress, ix: Index, flags: Flags) {
    && Grants(mem, root, ix.l4, flags)
    && Grants(mem, Entry(mem, root, ix.l4).addr, ix.l3, flags)
    && Grants(mem, Entry(mem, Entry(mem, root, ix.l4).addr, ix.l3).addr, ix.l2, flags)
  }

  /** An entry above the last level that has been opened: one that was there is widened by the rights asked for and
      is else as it was; one that was not is new and grants these rights and no others. */
  predicate Opened(w: Word, w': Word, flags: Flags) {
    if w.present
    then w' == w.(writable := w.writable || flags.writable, user := w.user || flags.user)
    else Maps(w', w'.addr, flags)
  }

  /** What stood in an entry of a table; nothing, if the table was not there. */
  function EntryBefore(t: Tables, f: PageAddress, i: nat): Word {
    if f in t.role then Entry(t.mem, f, i) else ZERO_WORD
  }

  /** The three entries on the way to the page table have been opened. */
  ghost predicate PathOpened(t: Tables, mem: Memory, root: PageAddress, ix: Index, flags: Flags) {
    var f3 := Entry(mem, root, ix.l4).addr;
    var f2 := Entry(mem, f3, ix.l3).addr;
    && Opened(EntryBefore(t, root, ix.l4), Entry(mem, root, ix.l4), flags)
    && Opened(EntryBefore(t, f3, ix.l3), Entry(mem, f3, ix.l3), flags)
    && Opened(EntryBefore(t, f2, ix.l2), Entry(mem, f2, ix.l2), flags)
  }

  /** Entry `j` of the table at node `n` lies on the way to `ix`. */
  predicate OnPath(n: Node, j: nat, root: PageAddress, ix: Index) {
    var space := RootFor(root, ix.l4);
    || (n == Pml4(root) && j == ix.l4) || (n == Pdpt(space, ix.l4) && j == ix.l3)
    || (n == Pd(space, ix.l4, ix.l3) && j == ix.l2) || (n == Pt(space, ix.l4, ix.l3, ix.l2) && j == ix.l1)
  }

  ghost predicate OffPathKept(t: Tables, u: Tables, root: PageAddress, ix: Index, x: PageAddress, j: nat) {
    && (x in t.role && !t.role[x].Leaf? && !OnPath(t.role[x], j, root, ix) ==> Entry(u.mem, x, j) == Entry(t.mem, x, j))
    && (x in u.role && x !in t.role && !u.role[x].Leaf? && !OnPath(u.role[x], j, root, ix) ==>
          !Entry(u.mem, x, j).present)
  }

  /** No entry of any table but the four on the way has changed, and new tables are empty but for them. */
  ghost predicate PathOnly(t: Tables, u: Tables, root: PageAddress, ix: Index) {
    forall x: PageAddress, j: nat :: OffPathKept(t, u, root, ix, x, j)
  }

  lemma PathOnlyTwice(t: Tables, u: Tables, v: Tables, root: PageAddress, ix: Index)
    requires PathOnly(t, u, root, ix) && PathOnly(u, v, root, ix)
    requires forall x: PageAddress | x in t.role && !t.role[x].Leaf? :: x in u.role && u.role[x] == t.role[x]
    requires forall x: PageAddress | x in u.role :: x in v.role && v.role[x] == u.role[x]
    ensures PathOnly(t, v, root, ix)
  {
    forall x: PageAddress, j: nat ensures OffPathKept(t, v, root, ix, x, j) {
      assert OffPathKept(t, u, root, ix, x, j) && OffPathKept(u, v, root, ix, x, j);
    }
  }

  lemma PathOnlyByStep(t: Tables, free: set<nat>, u: Tables, free': set<nat>, parent: PageAddress, index: nat,
                       flags: Flags, r: Option<PageAddress>, root: PageAddress, ix: Index)
    requires TableStep(t, free, u, free', parent, index, flags, r) && OnPath(t.role[parent], index, root, ix)
    ensures PathOnly(t, u, root, ix)
    ensures forall x: PageAddress | x in t.role :: x in u.role && u.role[x] == t.role[x]
  {
    forall x: PageAddress, j: nat ensures OffPathKept(t, u, root, ix, x, j) {
      assert EntryKept(t, u, parent, index, x, j);
    }
  }

  /** The tables of another space, and for a page of a space those of the kernel half, are byte for byte as before. */
  lemma ElsewhereKept(t: Tables, u: Tables, root: PageAddress, ix: Index, x: PageAddress)
    requires PathOnly(t, u, root, ix) && x in t.mem && x in u.mem && x in t.role && !t.role[x].Leaf?
    requires t.role[x].root != RootFor(root, ix.l4) && t.role[x] != Pml4(root)
    ensures u.mem[x] == t.mem[x]
  {
    forall j | 0 <= j < 512 ensures u.mem[x][j] == t.mem[x][j] {
      assert OffPathKept(t, u, root, ix, x, j);
    }
  }

  /** How many tables are missing on the way to `ix`. */
  function Missing(mem: Memory, root: PageAddress, ix: Index): nat {
    if !Entry(mem, root, ix.l4).present then 3 else MissingBelow(mem, Entry(mem, root, ix.l4).addr, ix)
  }

  function MissingBelow(mem: Memory, pdpt: PageAddress, ix: Index): nat {
    if !Entry(mem, pdpt, ix.l3).present then 2
    else if !Entry(mem, Entry(mem, pdpt, ix.l3).addr, ix.l2).present then 1
    else 0
  }

  function MissingLast(mem: Memory, pd: PageAddress, i: nat): nat {
    if Entry(mem, pd, i).present then 0 else 1
  }

  /** One table on the way is made or opened: from `t` to `u`, at entry `i` of the table at `f`.  A new one is empty
      and costs one page; without a page nothing happens. */
  ghost predicate TableStep(t: Tables, free: set<nat>, u: Tables, free': set<nat>, f: PageAddress, i: nat,
                            flags: Flags, r: Option<PageAddress>)
  {
    && f in t.role && !t.role[f].Leaf? && OnlyEntry(t, u, f, i)
    && (r == None ==> !Entry(t.mem, f, i).present && free == {} && free' == free && u == t)
    && (r.Some? ==>
          && Entry(u.mem, f, i).addr == r.value && Opened(Entry(t.mem, f, i), Entry(u.mem, f, i), flags)
          && if Entry(t.mem, f, i).present then free' == free && u.role == t.role
             else r.value in free && r.value !in t.role && free' == free - {r.value}
                  && u.role == t.role[r.value := Child(t.role[f], i)]
                  && forall j: nat :: Entry(u.mem, r.value, j) == ZERO_WORD)
  }

  lemma BeforeKept(t: Tables, free: set<nat>, u: Tables, free': set<nat>, f: PageAddress, i: nat, flags: Flags,
                   g: PageAddress, x: PageAddress, j: nat)
    requires TableStep(t, free, u, free', f, i, flags, Some(g)) && (x != f || j != i)
    ensures EntryBefore(u, x, j) == EntryBefore(t, x, j)
  {
    assert EntryKept(t, u, f, i, x, j);
  }

  /** What is taken from the pool becomes a table, if that is what the step makes. */
  lemma TablesAfterStep(t: Tables, free: set<nat>, u: Tables, free': set<nat>, f: PageAddress, i: nat, flags: Flags,
                        r: Option<PageAddress>)
    requires TableStep(t, free, u, free', f, i, flags, r) && IsUpper(t.role[f])
    ensures free' <= free && TableFrames(u.role) == TableFrames(t.role) + (free - free')
  {
    if r.Some? && !Entry(t.mem, f, i).present {
      assert free - free' == {r.value as nat};
      assert TableFrames(u.role) == TableFrames(t.role) + {r.value};
    } else {
      assert free - free' == {};
    }
  }

  lemma MissingAfterTop(t: Tables, free: set<nat>, u: Tables, free': set<nat>, root: PageAddress, ix: Index,
                        flags: Flags, r: Option<PageAddress>)
    requires WellFormed(t) && IsRoot(t, root) && NoHuge(t, ix)
    requires TableStep(t, free, u, free', root, ix.l4, flags, r)
    ensures r == None ==> |free| < Missing(t.mem, root, ix)
    ensures r.Some? ==> |free| - |free'| + MissingBelow(u.mem, r.value, ix) == Missing(t.mem, root, ix)
  {
    if Entry(t.mem, root, ix.l4).present {
      NoHugeLeads(t, root, ix);
      StepDown(t, root, ix.l4);
      var f3 := Entry(t.mem, root, ix.l4).addr;
      assert EntryKept(t, u, root, ix.l4, f3, ix.l3);
      if Entry(t.mem, f3, ix.l3).present {
        StepDown(t, f3, ix.l3);
        assert EntryKept(t, u, root, ix.l4, Entry(t.mem, f3, ix.l3).addr, ix.l2);
      }
    }
  }

  lemma MissingAfterMiddle(t: Tables, free: set<nat>, u: Tables, free': set<nat>, pdpt: PageAddress, ix: Index,
                           flags: Flags, r: Option<PageAddress>)
    requires WellFormed(t) && pdpt in t.role && t.role[pdpt].Pdpt? && !Huge(Entry(t.mem, pdpt, ix.l3))
    requires TableStep(t, free, u, free', pdpt, ix.l3, flags, r)
    ensures r == None ==> |free| < MissingBelow(t.mem, pdpt, ix)
    ensures r.Some? ==> |free| - |free'| + MissingLast(u.mem, r.value, ix.l2) == MissingBelow(t.mem, pdpt, ix)
  {
    if Entry(t.mem, pdpt, ix.l3).present {
      StepDown(t, pdpt, ix.l3);
      assert EntryKept(t, u, pdpt, ix.l3, Entry(t.mem, pdpt, ix.l3).addr, ix.l2);
    }
  }

  /** How many tables are missing on the way to `jx` once all are there on the way to `ix` of the same PML4 entry. */
  function MissingBeside(mem: Memory, root: PageAddress, ix: Index, jx: Index): nat {
    Beside(ix, jx, Missing(mem, root, jx))
  }

  /** The same by number: what is left of `missing` tables when those on the way to `ix` are there. */
  function Beside(ix: Index, jx: Index, missing: nat): nat {
    if jx.l3 == ix.l3 && jx.l2 == ix.l2 then 0
    else if jx.l3 == ix.l3 then (if missing > 1 then 1 else missing)
    else if missing > 2 then 2 else missing
  }

  /** A table of the way that is new was nobody's before. */
  lemma NewTableIsNew(t: Tables, u: Tables, f: PageAddress, i: nat)
    requires WellFormed(t) && WellFormed(u) && i < 512
    requires forall x: PageAddress | x in t.role && !t.role[x].Leaf? :: x in u.role && u.role[x] == t.role[x]
    requires f in u.role && IsUpper(u.role[f]) && HasParent(Child(u.role[f], i)) && Leads(Entry(u.mem, f, i))
    requires !EntryBefore(t, f, i).present
    ensures Entry(u.mem, f, i).addr !in t.role || t.role[Entry(u.mem, f, i).addr].Leaf?
  {
    StepDown(u, f, i);
    var g, c := Entry(u.mem, f, i).addr, Child(u.role[f], i);
    var p := if u.role[f] in t.at then t.at[u.role[f]] else f;
    assert FrameOk(t, g) && NodeOk(t, c) && NodeOk(t, u.role[f]) && FrameOk(u, p) && FrameOk(u, f);
  }

  /** The frames that are tables. */
  ghost function TableFrames(role: map<PageAddress, Node>): set<nat> {
    set f | f in role && !role[f].Leaf?
  }

  /** The way as far as the page directory, with what it has cost. */
  ghost predicate HalfPath(t: Tables, free: set<nat>, u: Tables, free': set<nat>, root: PageAddress, ix: Index,
                           flags: Flags, r: Option<PageAddress>)
  {
    && PathOnly(t, u, root, ix) && free' <= free && TableFrames(u.role) == TableFrames(t.role) + (free - free')
    && (forall x: PageAddress | x in t.role :: x in u.role && u.role[x] == t.role[x])
    && (r.Some? ==>
          var f3 := Entry(u.mem, root, ix.l4).addr;
          && Opened(EntryBefore(t, root, ix.l4), Entry(u.mem, root, ix.l4), flags)
          && Opened(EntryBefore(t, f3, ix.l3), Entry(u.mem, f3, ix.l3), flags)
          && EntryBefore(u, r.value, ix.l2) == EntryBefore(t, r.value, ix.l2)
          && |free| - |free'| + MissingLast(u.mem, r.value, ix.l2) == Missing(t.mem, root, ix))
  }

  lemma HalfPathNone(t: Tables, free: set<nat>, root: PageAddress, ix: Index, flags: Flags)
    ensures HalfPath(t, free, t, free, root, ix, flags, None)
  {
    forall x: PageAddress, j: nat ensures OffPathKept(t, t, root, ix, x, j) {
    }
    assert free - free == {};
  }

  lemma HalfPathDone(t: Tables, free: set<nat>, u: Tables, free': set<nat>, v: Tables, free'': set<nat>,
                     root: PageAddress, ix: Index, flags: Flags, pdpt: PageAddress, r: Option<PageAddress>)
    requires WellFormed(u) && IsRoot(t, root) && IsRoot(u, root) && pdpt in u.role
    requires u.role[pdpt] == Pdpt(RootFor(root, ix.l4), ix.l4)
    requires TableStep(t, free, u, free', root, ix.l4, flags, Some(pdpt))
    requires TableStep(u, free', v, free'', pdpt, ix.l3, flags, r)
    requires |free| - |free'| + MissingBelow(u.mem, pdpt, ix) == Missing(t.mem, root, ix)
    requires r.Some? ==>
               && |free'| - |free''| + MissingLast(v.mem, r.value, ix.l2) == MissingBelow(u.mem, pdpt, ix)
               && r.value in v.role && v.role[r.value] == Pd(RootFor(root, ix.l4), ix.l4, ix.l3)
    ensures HalfPath(t, free, v, free'', root, ix, flags, r)
  {
    TablesAfterStep(t, free, u, free', root, ix.l4, flags, Some(pdpt));
    TablesAfterStep(u, free', v, free'', pdpt, ix.l3, flags, r);
    assert free - free'' == (free - free') + (free' - free'');
    PathOnlyByStep(t, free, u, free', root, ix.l4, flags, Some(pdpt), root, ix);
    PathOnlyByStep(u, free', v, free'', pdpt, ix.l3, flags, r, root, ix);
    PathOnlyTwice(t, u, v, root, ix);
    assert EntryKept(u, v, pdpt, ix.l3, root, ix.l4);
    if r.Some? {
      BeforeKept(t, free, u, free', root, ix.l4, flags, pdpt, pdpt, ix.l3);
      BeforeKept(t, free, u, free', root, ix.l4, flags, pdpt, r.value, ix.l2);
      BeforeKept(u, free', v, free'', pdpt, ix.l3, flags, r.value, r.value, ix.l2);
    }
  }

  /** What a mapping does to the tables: those missing on the way are made, each costs one page and each page taken
      becomes a table; what is on the way is opened; no entry off the way changes.  It succeeds exactly if the pool
      has as many pages as tables are missing. */
  ghost predicate TablesMade(t: Tables, free: set<nat>, u: Tables, free': set<nat>, root: PageAddress, ix: Index,
                             flags: Flags, ok: bool)
  {
    && PathOnly(t, u, root, ix) && free' <= free
    && (forall x: PageAddress | x in t.role && !t.role[x].Leaf? :: x in u.role && u.role[x] == t.role[x])
    && TableFrames(u.role) == TableFrames(t.role) + (free - free')
    && (ok <==> Missing(t.mem, root, ix) <= |free|)
    && (if ok then |free| - |free'| == Missing(t.mem, root, ix) && PathOpened(t, u.mem, root, ix, flags)
        else free' == {})
  }

  /** The whole way. */
  lemma WholePath(t: Tables, free: set<nat>, u: Tables, free': set<nat>, v: Tables, free'': set<nat>,
                  root: PageAddress, ix: Index, flags: Flags, pd: PageAddress, r: Option<PageAddress>)
    requires WellFormed(u) && IsRoot(t, root) && IsRoot(u, root)
    requires HalfPath(t, free, u, free', root, ix, flags, Some(pd))
    requires pd in u.role && u.role[pd] == Pd(RootFor(root, ix.l4), ix.l4, ix.l3)
    requires var f3 := Entry(u.mem, root, ix.l4).addr;
      f3 in u.role && u.role[f3].Pdpt? && Entry(u.mem, f3, ix.l3).addr == pd
    requires TableStep(u, free', v, free'', pd, ix.l2, flags, r)
    ensures TablesMade(t, free, v, free'', root, ix, flags, r.Some?)
  {
    TablesAfterStep(u, free', v, free'', pd, ix.l2, flags, r);
    assert free - free'' == (free - free') + (free' - free'');
    PathOnlyByStep(u, free', v, free'', pd, ix.l2, flags, r, root, ix);
    PathOnlyTwice(t, u, v, root, ix);
    assert EntryKept(u, v, pd, ix.l2, root, ix.l4);
    assert EntryKept(u, v, pd, ix.l2, Entry(u.mem, root, ix.l4).addr, ix.l3);
  }

  /** The path is complete when the last of its three tables is there. */
  lemma PathComplete(t: Tables, u: Tables, root: PageAddress, ix: Index, flags: Flags, pd: PageAddress, pt: PageAddress)
    requires IsRoot(t, root) && OnlyEntry(t, u, pd, ix.l2) && pd in t.role && t.role[pd].Pd?
    requires var f3 := Entry(t.mem, root, ix.l4).addr;
      && Grants(t.mem, root, ix.l4, flags) && Leads(Entry(t.mem, root, ix.l4))
      && f3 in t.role && t.role[f3].Pdpt?
      && Grants(t.mem, f3, ix.l3, flags) && Leads(Entry(t.mem, f3, ix.l3)) && Entry(t.mem, f3, ix.l3).addr == pd
    requires Grants(u.mem, pd, ix.l2, flags) && Leads(Entry(u.mem, pd, ix.l2)) && Entry(u.mem, pd, ix.l2).addr == pt
    ensures PtOf(u.mem, root, ix) == Some(pt) && PathGrants(u.mem, root, ix, flags)
  {
    assert EntryKept(t, u, pd, ix.l2, root, ix.l4);
    assert EntryKept(t, u, pd, ix.l2, Entry(t.mem, root, ix.l4).addr, ix.l3);
  }

  lemma PathAfterPut(t: Tables, root: PageAddress, ix: Index, w: Word, flags: Flags)
    requires WellFormed(t) && IsRoot(t, root) && ix.Ok() && PtOf(t.mem, root, ix).Some?
    requires PtOf(t.mem, root, ix).value in t.mem && PathGrants(t.mem, root, ix, flags)
    ensures PathGrants(SetEntry(t.mem, PtOf(t.mem, root, ix).value, ix.l1, w), root, ix, flags)
  {
    PtOfWalk(t, root, ix);
    StepDown(t, root, ix.l4);
    StepDown(t, Entry(t.mem, root, ix.l4).addr, ix.l3);
  }

  // ----- large pages

  ghost predicate HugeAt(t: Tables, n: Node, i: nat) {
    n in t.at && Huge(Entry(t.mem, t.at[n], i))
  }

  /** No large page covers `ix`. */
  ghost predicate NoHuge(t: Tables, ix: Index) {
    ix.l4 >= KERNEL_HALF ==> !HugeAt(t, Pdpt(KERNEL, ix.l4), ix.l3) && !HugeAt(t, Pd(KERNEL, ix.l4, ix.l3), ix.l2)
  }

  ghost predicate NoHugeKept(t: Tables, u: Tables, ix: Index) {
    NoHuge(t, ix) ==> NoHuge(u, ix)
  }

  /** Where new tables have been hung in, there is no large page that was not there before. */
  lemma NoNewHuge(t: Tables, free: set<nat>, u: Tables, free': set<nat>, root: int, slot: nat, ix: Index)
    requires WellFormed(t) && WellFormed(u) && Extended(t, free, u, free', root, slot)
    ensures NoHugeKept(t, u, ix)
  {
    NoNewHugeAt(t, free, u, free', root, slot, Pdpt(KERNEL, ix.l4), ix.l3);
    NoNewHugeAt(t, free, u, free', root, slot, Pd(KERNEL, ix.l4, ix.l3), ix.l2);
  }

  lemma NoNewHugeAt(t: Tables, free: set<nat>, u: Tables, free': set<nat>, root: int, slot: nat, n: Node, i: nat)
    requires WellFormed(t) && WellFormed(u) && Extended(t, free, u, free', root, slot) && IsUpper(n)
    ensures HugeAt(u, n, i) ==> HugeAt(t, n, i)
  {
    if HugeAt(u, n, i) {
      var f := u.at[n];
      assert NodeOk(u, n) && HugeKept(t, u, f, i) && FrameOk(t, f);
      assert MovedOk(t.role, free, u.role, free', root, slot, f);
    }
  }

  /** An entry that a walk passes leads on, unless a large page covers the address. */
  lemma NoHugeLeads(t: Tables, root: PageAddress, ix: Index)
    requires WellFormed(t) && IsRoot(t, root) && NoHuge(t, ix)
    ensures !Huge(Entry(t.mem, root, ix.l4))
    ensures forall f: PageAddress | f in t.role && t.role[f] == Pdpt(RootFor(root, ix.l4), ix.l4) ::
              !Huge(Entry(t.mem, f, ix.l3))
    ensures forall f: PageAddress | f in t.role && t.role[f] == Pd(RootFor(root, ix.l4), ix.l4, ix.l3) ::
              !Huge(Entry(t.mem, f, ix.l2))
  {
    OwnEntryLeads(t, root, ix.l4);
    forall f: PageAddress | f in t.role && t.role[f] == Pdpt(RootFor(root, ix.l4), ix.l4)
      ensures !Huge(Entry(t.mem, f, ix.l3))
    {
      assert FrameOk(t, f);
      if ix.l4 < KERNEL_HALF { OwnEntryLeads(t, f, ix.l3); }
    }
    forall f: PageAddress | f in t.role && t.role[f] == Pd(RootFor(root, ix.l4), ix.l4, ix.l3)
      ensures !Huge(Entry(t.mem, f, ix.l2))
    {
      assert FrameOk(t, f);
      if ix.l4 < KERNEL_HALF { OwnEntryLeads(t, f, ix.l2); }
    }
  }

  // ----- the way down, step by step

  /** The first step down is done: from `t` to `u`. */
  lemma TopDone(t: Tables, free: set<nat>, u: Tables, free': set<nat>, root: PageAddress, ix: Index, flags: Flags,
                r: Option<PageAddress>)
    requires WellFormed(t) && WellFormed(u) && IsRoot(t, root) && NoHuge(t, ix) && ix.Ok()
    requires TableStep(t, free, u, free', root, ix.l4, flags, r)
    requires Extended(t, free, u, free', RootFor(root, ix.l4), ix.l4)
    requires r.Some? ==> r.value in u.role && u.role[r.value] == Pdpt(RootFor(root, ix.l4), ix.l4)
    ensures RootsKept(t, u, root, ix.l4) && IsRoot(u, root) && NoHuge(u, ix)
    ensures r == None ==> |free| < Missing(t.mem, root, ix) && HalfPath(t, free, u, free', root, ix, flags, None)
    ensures r.Some? ==>
              && |free| - |free'| + MissingBelow(u.mem, r.value, ix) == Missing(t.mem, root, ix)
              && !Huge(Entry(u.mem, r.value, ix.l3))
              && (Entry(u.mem, r.value, ix.l3).present || Child(u.role[r.value], ix.l3) !in u.at)
  {
    var space := RootFor(root, ix.l4);
    RootsAfterTop(t, free, u, free', root, ix.l4, space);
    MissingAfterTop(t, free, u, free', root, ix, flags, r);
    assert MovedOk(t.role, free, u.role, free', space, ix.l4, root);
    NoNewHuge(t, free, u, free', space, ix.l4, ix);
    NoHugeLeads(u, root, ix);
    if r == None {
      HalfPathNone(t, free, root, ix, flags);
    } else if !Entry(u.mem, r.value, ix.l3).present {
      AbsentHasNoChild(u, r.value, ix.l3);
    }
  }

  /** And the second, from `u` to `v`. */
  lemma MiddleDone(t: Tables, free: set<nat>, u: Tables, free': set<nat>, v: Tables, free'': set<nat>,
                   root: PageAddress, ix: Index, flags: Flags, pdpt: PageAddress, r: Option<PageAddress>)
    requires WellFormed(t) && WellFormed(u) && WellFormed(v) && IsRoot(t, root) && NoHuge(t, ix) && ix.Ok()
    requires TableStep(t, free, u, free', root, ix.l4, flags, Some(pdpt))
    requires Extended(t, free, u, free', RootFor(root, ix.l4), ix.l4)
    requires pdpt in u.role && u.role[pdpt] == Pdpt(RootFor(root, ix.l4), ix.l4)
    requires TableStep(u, free', v, free'', pdpt, ix.l3, flags, r)
    requires Extended(u, free', v, free'', RootFor(root, ix.l4), ix.l4)
    requires r.Some? ==> r.value in v.role && v.role[r.value] == Pd(RootFor(root, ix.l4), ix.l4, ix.l3)
    ensures Extended(t, free, v, free'', RootFor(root, ix.l4), ix.l4) && IsRoot(v, root) && NoHuge(v, ix)
    ensures RootsKept(t, v, root, ix.l4) && Entry(v.mem, root, ix.l4) == Entry(u.mem, root, ix.l4)
    ensures HalfPath(t, free, v, free'', root, ix, flags, r)
    ensures r == None ==> |free| < Missing(t.mem, root, ix)
    ensures r.Some? ==>
              && !Huge(Entry(v.mem, r.value, ix.l2))
              && (Entry(v.mem, r.value, ix.l2).present || Child(v.role[r.value], ix.l2) !in v.at)
  {
    var space := RootFor(root, ix.l4);
    TopDone(t, free, u, free', root, ix, flags, Some(pdpt));
    ExtendedTwice(t, free, u, free', v, free'', space, ix.l4);
    RootsAfterBelow(u, free', v, free'', pdpt, ix.l3, root, ix.l4, space);
    RootsKeptTwice(t, u, v, root, ix.l4);
    assert MovedOk(t.role, free, v.role, free'', space, ix.l4, root);
    NoNewHuge(t, free, v, free'', space, ix.l4, ix);
    NoHugeLeads(v, root, ix);
    MissingAfterMiddle(u, free', v, free'', pdpt, ix, flags, r);
    HalfPathDone(t, free, u, free', v, free'', root, ix, flags, pdpt, r);
    if r == None {
      TablesAfterStep(t, free, u, free', root, ix.l4, flags, Some(pdpt));
    } else if !Entry(v.mem, r.value, ix.l2).present {
      AbsentHasNoChild(v, r.value, ix.l2);
    }
  }

  /** And the third. */
  lemma LastDone(t: Tables, free: set<nat>, u: Tables, free': set<nat>, v: Tables, free'': set<nat>,
                 root: PageAddress, ix: Index, flags: Flags, pd: PageAddress, r: Option<PageAddress>)
    requires WellFormed(t) && WellFormed(u) && WellFormed(v) && IsRoot(t, root) && IsRoot(u, root) && ix.Ok()
    requires Extended(t, free, u, free', RootFor(root, ix.l4), ix.l4) && RootsKept(t, u, root, ix.l4)
    requires HalfPath(t, free, u, free', root, ix, flags, Some(pd))
    requires pd in u.role && u.role[pd] == Pd(RootFor(root, ix.l4), ix.l4, ix.l3)
    requires var f3 := Entry(u.mem, root, ix.l4).addr;
      && Grants(u.mem, root, ix.l4, flags) && Leads(Entry(u.mem, root, ix.l4))
      && f3 in u.role && u.role[f3].Pdpt?
      && Grants(u.mem, f3, ix.l3, flags) && Leads(Entry(u.mem, f3, ix.l3)) && Entry(u.mem, f3, ix.l3).addr == pd
    requires TableStep(u, free', v, free'', pd, ix.l2, flags, r)
    requires Extended(u, free', v, free'', RootFor(root, ix.l4), ix.l4)
    requires r.Some? ==>
               && Grants(v.mem, pd, ix.l2, flags) && Leads(Entry(v.mem, pd, ix.l2))
               && Entry(v.mem, pd, ix.l2).addr == r.value
    ensures Extended(t, free, v, free'', RootFor(root, ix.l4), ix.l4)
    ensures RootsKept(t, v, root, ix.l4) && Entry(v.mem, root, ix.l4) == Entry(u.mem, root, ix.l4)
    ensures TablesMade(t, free, v, free'', root, ix, flags, r.Some?)
    ensures r.Some? ==> PtOf(v.mem, root, ix) == r && PathGrants(v.mem, root, ix, flags)
  {
    var space := RootFor(root, ix.l4);
    ExtendedTwice(t, free, u, free', v, free'', space, ix.l4);
    RootsAfterBelow(u, free', v, free'', pd, ix.l2, root, ix.l4, space);
    RootsKeptTwice(t, u, v, root, ix.l4);
    WholePath(t, free, u, free', v, free'', root, ix, flags, pd, r);
    if r.Some? { PathComplete(u, v, root, ix, flags, pd, r.value); }
  }

  /** A mapping that runs out of pages on the way to the page directory. */
  lemma HalfIsNotEnough(t: Tables, free: set<nat>, u: Tables, free': set<nat>, root: PageAddress, ix: Index,
                        flags: Flags)
    requires HalfPath(t, free, u, free', root, ix, flags, None) && free' == {} && |free| < Missing(t.mem, root, ix)
    ensures TablesMade(t, free, u, free', root, ix, flags, false)
  {
  }

  lemma PathOnlyAfterPut(t: Tables, u: Tables, f: PageAddress, root: PageAddress, ix: Index, w: Word, private: bool)
    requires WellFormed(u) && f in u.mem && f in u.role && ix.l1 < 512
    requires u.role[f] == Pt(RootFor(root, ix.l4), ix.l4, ix.l3, ix.l2) && PathOnly(t, u, root, ix)
    requires forall x: PageAddress | x in t.role :: x in u.role && u.role[x] == t.role[x]
    requires private ==> w.addr !in u.role
    ensures PathOnly(t, PutLeaf(u, f, ix.l1, w, private), root, ix)
  {
    var v := PutLeaf(u, f, ix.l1, w, private);
    PutLeafKeepsTables(u, f, ix.l1, w, private);
    forall x: PageAddress, j: nat ensures OffPathKept(t, v, root, ix, x, j) {
      assert OffPathKept(t, u, root, ix, x, j);
    }
  }

  /** The last-level store changes no other entry and no table. */
  lemma MadeAfterPut(t: Tables, free: set<nat>, u: Tables, free': set<nat>, root: PageAddress, ix: Index,
                     flags: Flags, w: Word, private: bool)
    requires WellFormed(u) && IsRoot(u, root) && ix.Ok() && PtOf(u.mem, root, ix).Some?
    requires PtOf(u.mem, root, ix).value in u.mem && PtOf(u.mem, root, ix).value in u.role
             && u.role[PtOf(u.mem, root, ix).value] == Pt(RootFor(root, ix.l4), ix.l4, ix.l3, ix.l2)
    requires TablesMade(t, free, u, free', root, ix, flags, true)
    requires Extended(t, free, u, free', RootFor(root, ix.l4), ix.l4) && PathGrants(u.mem, root, ix, flags)
    requires private ==> w.addr !in u.role
    ensures var v := PutLeaf(u, PtOf(u.mem, root, ix).value, ix.l1, w, private);
      TablesMade(t, free, v, free', root, ix, flags, true)
  {
    var f := PtOf(u.mem, root, ix).value;
    PutLeafKeepsTables(u, f, ix.l1, w, private);
    forall x: PageAddress | x in t.role ensures x in u.role && u.role[x] == t.role[x] {
      assert MovedOk(t.role, free, u.role, free', RootFor(root, ix.l4), ix.l4, x);
    }
    PathOnlyAfterPut(t, u, f, root, ix, w, private);
    TablesAfterPut(u, f, ix.l1, w, private);
    StepDown(u, root, ix.l4);
    StepDown(u, Entry(u.mem, root, ix.l4).addr, ix.l3);
  }

  lemma TablesAfterPut(t: Tables, f: PageAddress, i: nat, w: Word, private: bool)
    requires WellFormed(t) && f in t.mem && i < 512 && f in t.role && t.role[f].Pt?
    requires private ==> w.addr !in t.role
    ensures TableFrames(PutLeaf(t, f, i, w, private).role) == TableFrames(t.role)
  {
    PutLeafKeepsTables(t, f, i, w, private);
    assert NodeOk(t, Child(t.role[f], i));
  }

  /** What is still missing for another page once one has been mapped. */
  lemma MissingAfterMapping(t: Tables, free: set<nat>, u: Tables, free': set<nat>, root: PageAddress, ix: Index,
                            jx: Index, flags: Flags)
    requires WellFormed(t) && WellFormed(u) && IsRoot(t, root) && ix.Ok() && jx.Ok() && jx.l4 == ix.l4
    requires NoHuge(t, ix) && NoHuge(t, jx) && NoHuge(u, ix) && NoHuge(u, jx)
    requires Entry(t.mem, root, ix.l4).present || ix.l4 < KERNEL_HALF
    requires TablesMade(t, free, u, free', root, ix, flags, true)
    requires forall x: PageAddress | x in t.role :: x !in free
    ensures Missing(u.mem, root, jx) == MissingBeside(t.mem, root, ix, jx)
  {
    NoHugeLeads(t, root, ix);
    NoHugeLeads(t, root, jx);
    NoHugeLeads(u, root, ix);
    NoHugeLeads(u, root, jx);
    StepDown(u, root, ix.l4);
    var f3 := Entry(u.mem, root, ix.l4).addr;
    if Entry(t.mem, root, ix.l4).present {
      StepDown(t, root, ix.l4);
    } else {
      NewTableIsNew(t, u, root, ix.l4);
      assert f3 in TableFrames(u.role);
    }
    assert OffPathKept(t, u, root, ix, f3, jx.l3);
    if jx.l3 != ix.l3 {
      if EntryBefore(t, f3, jx.l3).present {
        StepDown(t, f3, jx.l3);
        assert OffPathKept(t, u, root, ix, Entry(t.mem, f3, jx.l3).addr, jx.l2);
      }
    } else if jx.l2 != ix.l2 {
      StepDown(u, f3, ix.l3);
      var f2 := Entry(u.mem, f3, ix.l3).addr;
      assert OffPathKept(t, u, root, ix, f2, jx.l2);
      if EntryBefore(t, f3, ix.l3).present {
        StepDown(t, f3, ix.l3);
      } else {
        NewTableIsNew(t, u, f3, ix.l3);
        assert f2 in TableFrames(u.role);
      }
    }
  }

  /** Where the code finds an address: it follows present entries and does not look at the page-size bit. */
  function Follow(mem: Memory, f: Option<PageAddress>, i: nat): Option<PageAddress> {
    if f.Some? && Entry(mem, f.value, i).present then Some(Entry(mem, f.value, i).addr) else None
  }

  function FoundPt(mem: Memory, root: PageAddress, ix: Index): Option<PageAddress> {
    Follow(mem, Follow(mem, Follow(mem, Some(root), ix.l4), ix.l3), ix.l2)
  }

  function Found(mem: Memory, root: PageAddress, ix: Index): Option<Word> {
    var pt := FoundPt(mem, root, ix);
    if pt.Some? && Entry(mem, pt.value, ix.l1).present then Some(Entry(mem, pt.value, ix.l1)) else None
  }

  /** That is what a walk finds, where no large page is. */
  lemma FoundIsWalk(t: Tables, root: PageAddress, ix: Index)
    requires WellFormed(t) && IsRoot(t, root) && ix.Ok() && NoHuge(t, ix)
    ensures FoundPt(t.mem, root, ix) == PtOf(t.mem, root, ix) && Found(t.mem, root, ix) == Walk(t.mem, root, ix)
  {
    NoHugeLeads(t, root, ix);
    if Entry(t.mem, root, ix.l4).present {
      StepDown(t, root, ix.l4);
      var f3 := Entry(t.mem, root, ix.l4).addr;
      if Entry(t.mem, f3, ix.l3).present { StepDown(t, f3, ix.l3); }
    }
  }

  /** Under a large page of the direct map the code takes the page itself for a table, and reads its data. */
  lemma LargePageIsFollowed(t: Tables, root: PageAddress, ix: Index)
    requires WellFormed(t) && IsRoot(t, root) && ix.Ok() && ix.l4 >= KERNEL_HALF
    requires Leads(Entry(t.mem, root, ix.l4)) && Pd(KERNEL, ix.l4, ix.l3) in t.at
             && HugeAt(t, Pd(KERNEL, ix.l4, ix.l3), ix.l2)
    ensures FoundPt(t.mem, root, ix) == Some(Entry(t.mem, t.at[Pd(KERNEL, ix.l4, ix.l3)], ix.l2).addr)
    ensures Walk(t.mem, root, ix) == None
  {
    StepDown(t, root, ix.l4);
    assert NodeOk(t, Pd(KERNEL, ix.l4, ix.l3)) && FrameOk(t, Entry(t.mem, root, ix.l4).addr);
  }

  // ----- the kernel half of all spaces

  ghost predicate SharedAt(t: Tables, r: PageAddress, s: PageAddress, j: nat) {
    IsRoot(t, r) && IsRoot(t, s) && KERNEL_HALF <= j < 512 ==> Entry(t.mem, r, j) == Entry(t.mem, s, j)
  }

  /** All spaces have the same kernel half. */
  ghost predicate KernelShared(t: Tables) {
    forall r: PageAddress, s: PageAddress, j: nat :: SharedAt(t, r, s, j)
  }

  /** Then every space sees the same there. */
  lemma SharedWalk(t: Tables, r: PageAddress, s: PageAddress, ix: Index)
    requires KernelShared(t) && IsRoot(t, r) && IsRoot(t, s) && KERNEL_HALF <= ix.l4 < 512
    ensures Walk(t.mem, r, ix) == Walk(t.mem, s, ix) && Entry(t.mem, r, ix.l4) == Entry(t.mem, s, ix.l4)
  {
    assert SharedAt(t, r, s, ix.l4);
  }

  ghost predicate OnlyRoot(t: Tables, root: PageAddress) {
    forall r: PageAddress | IsRoot(t, r) :: r == root
  }

  /** The spaces are the same, and so are all entries of their PML4s but one. */
  ghost predicate RootKept(t: Tables, u: Tables, root: PageAddress, slot: nat, r: PageAddress, j: nat) {
    && (IsRoot(u, r) <==> IsRoot(t, r))
    && (IsRoot(t, r) && (r != root || j != slot) ==> Entry(u.mem, r, j) == Entry(t.mem, r, j))
  }

  ghost predicate RootsKept(t: Tables, u: Tables, root: PageAddress, slot: nat) {
    forall r: PageAddress, j: nat :: RootKept(t, u, root, slot, r, j)
  }

  lemma RootsKeptTwice(t: Tables, u: Tables, v: Tables, root: PageAddress, slot: nat)
    requires RootsKept(t, u, root, slot) && RootsKept(u, v, root, slot)
    ensures RootsKept(t, v, root, slot)
  {
    forall r: PageAddress, j: nat ensures RootKept(t, v, root, slot, r, j) {
      assert RootKept(t, u, root, slot, r, j) && RootKept(u, v, root, slot, r, j);
    }
  }

  /** What making tables does to the entry of the PML4: it is widened, or made unless no page is free. */
  ghost predicate TopEntry(t: Tables, free: set<nat>, u: Tables, root: PageAddress, slot: nat, flags: Flags) {
    var w, w' := Entry(t.mem, root, slot), Entry(u.mem, root, slot);
    if w.present then w' == Widen(w, flags)
    else if free == {} then w' == w
    else Maps(w', w'.addr, flags)
  }

  ghost predicate EntryKept(t: Tables, u: Tables, parent: PageAddress, index: nat, x: PageAddress, j: nat) {
    x in t.role && (x != parent || j != index) ==> Entry(u.mem, x, j) == Entry(t.mem, x, j)
  }

  /** Every entry but one of the tables that were there is as it was. */
  ghost predicate OnlyEntry(t: Tables, u: Tables, parent: PageAddress, index: nat) {
    forall x: PageAddress, j: nat :: EntryKept(t, u, parent, index, x, j)
  }

  /** A change to the one entry of the PML4. */
  lemma RootsAfterTop(t: Tables, free: set<nat>, u: Tables, free': set<nat>, root: PageAddress, slot: nat, space: int)
    requires OnlyEntry(t, u, root, slot) && Moved(t.role, free, u.role, free', space, slot)
    ensures RootsKept(t, u, root, slot)
  {
    forall r: PageAddress, j: nat ensures RootKept(t, u, root, slot, r, j) {
      assert EntryKept(t, u, root, slot, r, j) && MovedOk(t.role, free, u.role, free', space, slot, r);
    }
  }

  /** A change to a table further down. */
  lemma RootsAfterBelow(t: Tables, free: set<nat>, u: Tables, free': set<nat>, parent: PageAddress, index: nat,
                        root: PageAddress, slot: nat, space: int)
    requires OnlyEntry(t, u, parent, index) && Moved(t.role, free, u.role, free', space, slot)
    requires parent in t.role && !t.role[parent].Pml4? && IsRoot(t, root)
    ensures RootsKept(t, u, root, slot) && Entry(u.mem, root, slot) == Entry(t.mem, root, slot)
  {
    forall r: PageAddress, j: nat ensures RootKept(t, u, root, slot, r, j) {
      assert EntryKept(t, u, parent, index, r, j) && MovedOk(t.role, free, u.role, free', space, slot, r);
    }
    assert EntryKept(t, u, parent, index, root, slot);
  }

  /** A last-level store changes no PML4 and makes no large page. */
  lemma RootsAfterPut(t: Tables, f: PageAddress, i: nat, w: Word, private: bool, root: PageAddress, slot: nat)
    requires WellFormed(t) && f in t.mem && i < 512 && f in t.role && t.role[f].Pt? && IsRoot(t, root)
    requires private ==> w.addr !in t.role
    ensures var u := PutLeaf(t, f, i, w, private);
      && RootsKept(t, u, root, slot) && Entry(u.mem, root, slot) == Entry(t.mem, root, slot)
      && forall j: Index :: NoHugeKept(t, u, j)
  {
    var u := PutLeaf(t, f, i, w, private);
    PutLeafKeepsTables(t, f, i, w, private);
    assert NodeOk(t, Child(t.role[f], i));
    forall r: PageAddress, j: nat ensures RootKept(t, u, root, slot, r, j) {
    }
    forall j: Index ensures NoHugeKept(t, u, j) {
      assert NodeOk(t, Pdpt(KERNEL, j.l4)) && NodeOk(t, Pd(KERNEL, j.l4, j.l3));
    }
  }

  /** When the kernel halves stay together: the slot is below them, there is no other space, the slot is there
      already with the rights asked for, or nothing at all can be made. */
  ghost predicate StaysShared(t: Tables, free: set<nat>, root: PageAddress, slot: nat, flags: Flags) {
    || slot < KERNEL_HALF || OnlyRoot(t, root)
    || if Entry(t.mem, root, slot).present then Grants(t.mem, root, slot, flags) else free == {}
  }

  lemma SharedIff(t: Tables, free: set<nat>, u: Tables, root: PageAddress, slot: nat, flags: Flags)
    requires IsRoot(t, root) && slot < 512 && KernelShared(t)
    requires RootsKept(t, u, root, slot) && TopEntry(t, free, u, root, slot, flags)
    ensures KernelShared(u) <==> StaysShared(t, free, root, slot, flags)
  {
    if StaysShared(t, free, root, slot, flags) {
      forall r: PageAddress, s: PageAddress, j: nat ensures SharedAt(u, r, s, j) {
        assert SharedAt(t, r, s, j) && RootKept(t, u, root, slot, r, j) && RootKept(t, u, root, slot, s, j);
      }
    } else {
      var r: PageAddress :| IsRoot(t, r) && r != root;
      assert SharedAt(t, r, root, slot);
      assert RootKept(t, u, root, slot, r, slot) && RootKept(t, u, root, slot, root, slot);
      assert !SharedAt(u, r, root, slot);
    }
  }

  lemma SharedStays(t: Tables, u: Tables, root: PageAddress, slot: nat)
    requires KernelShared(t) && RootsKept(t, u, root, slot) && Entry(u.mem, root, slot) == Entry(t.mem, root, slot)
    ensures KernelShared(u)
  {
    forall r: PageAddress, s: PageAddress, j: nat ensures SharedAt(u, r, s, j) {
      assert SharedAt(t, r, s, j) && RootKept(t, u, root, slot, r, j) && RootKept(t, u, root, slot, s, j);
    }
  }

  /** A change below the kernel half leaves it as shared as it was. */
  lemma SharedBelow(t: Tables, u: Tables, root: PageAddress, slot: nat)
    requires RootsKept(t, u, root, slot) && slot < KERNEL_HALF
    ensures KernelShared(u) <==> KernelShared(t)
  {
    forall r: PageAddress, s: PageAddress, j: nat ensures SharedAt(u, r, s, j) <==> SharedAt(t, r, s, j) {
      assert RootKept(t, u, root, slot, r, j) && RootKept(t, u, root, slot, s, j);
    }
  }

  /** What another space sees of a kernel page that has just been mapped: the same, if the slot was there; else
      nothing. */
  lemma OthersSee(t: Tables, free: set<nat>, u: Tables, root: PageAddress, ix: Index, flags: Flags, r: PageAddress)
    requires IsRoot(t, root) && IsRoot(t, r) && r != root && ix.Ok() && ix.l4 >= KERNEL_HALF && KernelShared(t)
    requires WellFormed(t)
    requires RootsKept(t, u, root, ix.l4) && TopEntry(t, free, u, root, ix.l4, flags)
    ensures Walk(u.mem, r, ix) == if Entry(t.mem, root, ix.l4).present then Walk(u.mem, root, ix) else None
  {
    assert SharedAt(t, r, root, ix.l4) && RootKept(t, u, root, ix.l4, r, ix.l4);
    OwnEntryLeads(t, root, ix.l4);
  }

  /** Both in one: when the halves stay together, and what the other spaces see. */
  lemma KernelAfterMapping(t: Tables, free: set<nat>, u: Tables, root: PageAddress, ix: Index, flags: Flags)
    requires WellFormed(t) && IsRoot(t, root) && ix.Ok() && KernelShared(t)
    requires RootsKept(t, u, root, ix.l4) && TopEntry(t, free, u, root, ix.l4, flags)
    ensures KernelShared(u) <==> StaysShared(t, free, root, ix.l4, flags)
    ensures ix.l4 >= KERNEL_HALF ==>
              forall r: PageAddress | IsRoot(t, r) && r != root ::
                Walk(u.mem, r, ix) == if Entry(t.mem, root, ix.l4).present then Walk(u.mem, root, ix) else None
  {
    SharedIff(t, free, u, root, ix.l4, flags);
    if ix.l4 >= KERNEL_HALF {
      forall r: PageAddress | IsRoot(t, r) && r != root
        ensures Walk(u.mem, r, ix) == if Entry(t.mem, root, ix.l4).present then Walk(u.mem, root, ix) else None
      {
        OthersSee(t, free, u, root, ix, flags, r);
      }
    }
  }

  // ----- memory outside the tables

  /** Changing a frame that is not a table changes no table. */
  lemma WriteOutside(t: Tables, x: PageAddress, data: Page)
    requires WellFormed(t) && (x in t.role ==> t.role[x].Leaf?)
    ensures WellFormed(t.(mem := t.mem[x := data])) && SameWalks(t, t.mem[x := data])
    ensures forall s: PageAddress | PrivateSpace(t, s) :: PrivateSpace(t.(mem := t.mem[x := data]), s)
  {
    var u := t.(mem := t.mem[x := data]);
    forall f: PageAddress, i: nat ensures EntryOk(u, f, i) {
      assert EntryOk(t, f, i);
    }
    forall n: Node ensures NodeOk(u, n) {
      assert NodeOk(t, n);
      if n in t.at && HasParent(n) { assert NodeOk(t, Parent(n)); }
    }
    forall f: PageAddress ensures FrameOk(u, f) {
      assert FrameOk(t, f);
    }
    forall f: PageAddress, j: nat | f in t.role && IsUpper(t.role[f]) ensures SameStep(t.mem, u.mem, f, j, None) {
    }
    SameTablesSameWalks(t, u.mem, None);
    forall s: PageAddress | PrivateSpace(t, s) ensures PrivateSpace(u, s) {
      forall f: PageAddress, i: nat ensures LeafOk(u, s, f, i) {
        assert LeafOk(t, s, f, i);
      }
      forall n: Node ensures OnlySlotZero(u, s, n) {
        assert OnlySlotZero(t, s, n);
      }
    }
  }

  lemma RootsOutside(t: Tables, x: PageAddress, data: Page, root: PageAddress, slot: nat)
    requires x in t.role ==> t.role[x].Leaf?
    ensures RootsKept(t, t.(mem := t.mem[x := data]), root, slot)
  {
    var u := t.(mem := t.mem[x := data]);
    forall r: PageAddress, j: nat ensures RootKept(t, u, root, slot, r, j) {
    }
  }

  // ----- nodes are reached

  /** The walk from a root arrives at every page table of its slot 0. */
  lemma PtIsReached(t: Tables, root: PageAddress, i: nat, j: nat, k: nat)
    requires WellFormed(t) && IsRoot(t, root) && Pt(root, 0, i, j) in t.at
    ensures PtOf(t.mem, root, Index(0, i, j, k)) == Some(t.at[Pt(root, 0, i, j)])
  {
    assert NodeOk(t, Pt(root, 0, i, j)) && NodeOk(t, Pd(root, 0, i)) && NodeOk(t, Pdpt(root, 0)) && FrameOk(t, root);
  }

  /** Nothing is mapped below an absent entry. */
  lemma NothingBelow(t: Tables, root: PageAddress, ix: Index)
    requires WellFormed(t) && IsRoot(t, root) && ix.Ok() && ix.l4 == 0 && PtOf(t.mem, root, ix).Some?
    ensures Pdpt(root, 0) in t.at && Pd(root, 0, ix.l3) in t.at && Pt(root, 0, ix.l3, ix.l2) in t.at
    ensures Entry(t.mem, root, 0).present && Entry(t.mem, root, 0).addr == t.at[Pdpt(root, 0)]
    ensures Entry(t.mem, t.at[Pdpt(root, 0)], ix.l3).present
            && Entry(t.mem, t.at[Pdpt(root, 0)], ix.l3).addr == t.at[Pd(root, 0, ix.l3)]
    ensures Entry(t.mem, t.at[Pd(root, 0, ix.l3)], ix.l2).present
            && Entry(t.mem, t.at[Pd(root, 0, ix.l3)], ix.l2).addr == t.at[Pt(root, 0, ix.l3, ix.l2)]
  {
    StepDown(t, root, ix.l4);
    var f3 := Entry(t.mem, root, ix.l4).addr;
    assert FrameOk(t, f3);
    StepDown(t, f3, ix.l3);
    var f2 := Entry(t.mem, f3, ix.l3).addr;
    assert FrameOk(t, f2);
    StepDown(t, f2, ix.l2);
    assert FrameOk(t, Entry(t.mem, f2, ix.l2).addr);
  }

  /** Every node of a space hangs, in the end, below its root. */
  lemma RootOfNode(t: Tables, n: Node)
    requires WellFormed(t) && n in t.at && n.root != KERNEL
    ensures Pml4(n.root) in t.at && 0 <= n.root < MAX_PHYSICAL && n.root % PAGE_SIZE == 0 && n.root in t.role
  {
    assert NodeOk(t, n);
    if n.Pml4? {
    } else if n.Leaf? {
      var a, b, c := Parent(n), Parent(Parent(n)), Parent(Parent(Parent(n)));
      assert NodeOk(t, a) && NodeOk(t, b) && NodeOk(t, c) && NodeOk(t, Parent(c));
    } else if n.Pt? {
      assert NodeOk(t, Parent(n)) && NodeOk(t, Parent(Parent(n))) && NodeOk(t, Pml4(n.root));
    } else if n.Pd? {
      assert NodeOk(t, Parent(n)) && NodeOk(t, Pml4(n.root));
    } else {
      assert NodeOk(t, Pml4(n.root));
    }
  }

  // ----- a new space

  /** The PML4 of a new space: the upper half of the current one, nothing below. */
  function NewPml4(current: Page): (p: Page)
    ensures forall i | 0 <= i < 512 :: p[i] == if i < KERNEL_HALF then ZERO_WORD else current[i]
  {
    seq(512, i requires 0 <= i < 512 => if i < KERNEL_HALF then ZERO_WORD else current[i])
  }

  function AddRoot(t: Tables, current: PageAddress, g: PageAddress): Tables
    requires current in t.mem
  {
    Tables(t.mem[g := NewPml4(t.mem[current])], t.role[g := Pml4(g)], t.at[Pml4(g) := g])
  }

  /** A new space shares the kernel half and nothing else. */
  lemma AddRootKeepsOrder(t: Tables, current: PageAddress, g: PageAddress)
    requires WellFormed(t) && IsRoot(t, current) && current in t.mem && g in t.mem && g !in t.role
    ensures WellFormed(AddRoot(t, current, g)) && SameWalks(t, AddRoot(t, current, g).mem)
    ensures PrivateSpace(AddRoot(t, current, g), g)
    ensures Owned(t.role, g) == {} && Owned(AddRoot(t, current, g).role, g) == {g}
    ensures forall s: PageAddress | PrivateSpace(t, s) :: PrivateSpace(AddRoot(t, current, g), s)
  {
    var u := AddRoot(t, current, g);
    NewRootIsFresh(t, g);
    forall f: PageAddress, i: nat ensures EntryOk(u, f, i) {
      assert EntryOk(t, f, i) && EntryOk(t, current, i);
    }
    forall n: Node ensures NodeOk(u, n) {
      assert NodeOk(t, n);
      if n in t.at && HasParent(n) { assert NodeOk(t, Parent(n)); }
    }
    forall f: PageAddress ensures FrameOk(u, f) {
      assert FrameOk(t, f);
    }
    forall f: PageAddress, j: nat | f in t.role && IsUpper(t.role[f]) ensures SameStep(t.mem, u.mem, f, j, None) {
    }
    SameTablesSameWalks(t, u.mem, None);
    forall s: PageAddress | PrivateSpace(t, s) || s == g ensures PrivateSpace(u, s) {
      forall f: PageAddress, i: nat ensures LeafOk(u, s, f, i) {
        if s != g { assert LeafOk(t, s, f, i); }
      }
      forall n: Node ensures OnlySlotZero(u, s, n) {
        if s != g { assert OnlySlotZero(t, s, n); }
      }
    }
  }

  lemma NewRootWalks(t: Tables, current: PageAddress, g: PageAddress, ix: Index)
    requires WellFormed(t) && IsRoot(t, current) && current in t.mem && g in t.mem && g !in t.role && ix.Ok()
    ensures var u := AddRoot(t, current, g);
      Walk(u.mem, g, ix) == if ix.l4 >= KERNEL_HALF then Walk(u.mem, current, ix) else None
  {
  }

  lemma SharedWithNewRoot(t: Tables, current: PageAddress, g: PageAddress)
    requires WellFormed(t) && IsRoot(t, current) && current in t.mem && g !in t.role && KernelShared(t)
    ensures KernelShared(AddRoot(t, current, g))
  {
    var u := AddRoot(t, current, g);
    forall r: PageAddress, s: PageAddress, j: nat ensures SharedAt(u, r, s, j) {
      assert SharedAt(t, if r == g then current else r, if s == g then current else s, j);
    }
  }

  lemma NewRootIsFresh(t: Tables, g: PageAddress)
    requires WellFormed(t) && g !in t.role
    ensures forall n: Node | n in t.at :: n.root != g
    ensures forall f: PageAddress | f in t.role :: t.role[f].root != g
  {
    forall n: Node | n in t.at ensures n.root != g {
      if n.root == g { RootOfNode(t, n); }
    }
    forall f: PageAddress | f in t.role ensures t.role[f].root != g {
      assert FrameOk(t, f);
    }
  }
}
