/** Deep copies of user address spaces, as `fork` makes them. */
module AddressSpaces {
  import opened Wrappers
  import opened PageTables
  import opened VirtualMemory

  // ----- what a copy is

  /** The position of a user page in the order of the visit. */
  function Pos(ix: Index): nat {
    (ix.l3 * 512 + ix.l2) * 512 + ix.l1
  }

  /** The page at `ix`, if it is mapped for user access. */
  function UserPage(mem: Memory, root: PageAddress, ix: Index): Option<Word> {
    var w := Walk(mem, root, ix);
    if w.Some? && w.value.user then w else None
  }

  /** The frame of a user page is in memory, and it is neither free nor a table.  It may be mapped more than
      once, and belong to any space or to none. */
  ghost predicate SourceOk(t: Tables, free: set<nat>, src: PageAddress, ix: Index) {
    ix.Ok() && ix.l4 == 0 && UserPage(t.mem, src, ix).Some? ==>
      var a := UserPage(t.mem, src, ix).value.addr;
      a in t.mem && a !in free && (a in t.role ==> t.role[a].Leaf?)
  }

  /** The entry of a copy: the twelve low bits are those of the entry copied, the bits above the address are clear. */
  predicate SameRights(w: Word, c: Word) {
    c.present && c.writable == w.writable && c.user == w.user && c.low == w.low && c.high == 0
  }

  /** Page `ix` of `dest` is a copy of that page of `src`: absent if that is absent or lacks the user bit, else
      with the same low flags and the same bytes, on a frame that was free. */
  ghost predicate CopyOk(t: Tables, free: set<nat>, u: Tables, src: PageAddress, dest: PageAddress, ix: Index) {
    var w, c := UserPage(t.mem, src, ix), Walk(u.mem, dest, ix);
    if w == None then c == None
    else c.Some?
         && SameRights(w.value, c.value)
         && c.value.addr in free && c.value.addr in u.role && u.role[c.value.addr] == Leaf(dest, 0, ix.l3, ix.l2, ix.l1)
         && c.value.addr in u.mem && w.value.addr in t.mem && u.mem[c.value.addr] == t.mem[w.value.addr]
  }

  /** Pages before position `n` have been copied, the others are not mapped yet. */
  ghost predicate PosOk(t: Tables, free: set<nat>, u: Tables, src: PageAddress, dest: PageAddress, n: nat, ix: Index) {
    ix.Ok() && ix.l4 == 0 ==> if Pos(ix) < n then CopyOk(t, free, u, src, dest, ix) else Walk(u.mem, dest, ix) == None
  }

  /** Translations other than those of user pages of `dest` are as before. */
  ghost predicate WalkKept(t: Tables, u: Tables, dest: PageAddress, r: PageAddress, ix: Index) {
    IsRoot(t, r) && ix.Ok() && (r != dest || ix.l4 != 0) ==> Walk(u.mem, r, ix) == Walk(t.mem, r, ix)
  }

  /** The tables of other spaces and of the kernel half are byte for byte as before. */
  ghost predicate TableKept(t: Tables, u: Tables, dest: PageAddress, x: PageAddress) {
    x in t.role && !t.role[x].Leaf? && t.role[x].root != dest && x in t.mem ==> x in u.mem && u.mem[x] == t.mem[x]
  }

  /** What copying into `dest` never disturbs: frames only move from the pool into `dest`, private spaces stay
      private, no table changes but those of `dest`, and of its PML4 only entry 0, and neither the translations of
      other spaces nor any data in use change. */
  ghost predicate Kept(t: Tables, free: set<nat>, u: Tables, free': set<nat>, dest: PageAddress) {
    && Moved(t.role, free, u.role, free', dest, 0)
    && RootsKept(t, u, dest, 0)
    && (forall s: PageAddress | PrivateSpace(t, s) :: PrivateSpace(u, s))
    && (forall r: PageAddress, ix: Index :: WalkKept(t, u, dest, r, ix))
    && (forall x: PageAddress :: DataKept(t, free, u, x))
    && (forall x: PageAddress :: TableKept(t, u, dest, x))
  }

  /** The visit has come to position `n`. */
  ghost predicate CopiedTo(t: Tables, free: set<nat>, u: Tables, free': set<nat>, src: PageAddress, dest: PageAddress,
                           n: nat)
  {
    (forall ix: Index :: PosOk(t, free, u, src, dest, n, ix)) && Paid(t, free, u, free', src, dest, n)
  }

  // ----- what a copy costs

  /** All places for pages below PML4 entry 0. */
  ghost function Places(): (r: set<Index>)
    ensures forall ix: Index :: ix in r <==> ix.Ok() && ix.l4 == 0
  {
    var r := set i: nat, j: nat, k: nat | i < 512 && j < 512 && k < 512 :: Index(0, i, j, k);
    assert forall ix: Index | ix.Ok() && ix.l4 == 0 :: ix == Index(0, ix.l3, ix.l2, ix.l1);
    r
  }

  /** The user pages of `src` whose position is below `n`. */
  ghost function PagesBefore(mem: Memory, src: PageAddress, n: nat): (r: set<Index>)
    ensures forall ix: Index :: ix in r <==> ix.Ok() && ix.l4 == 0 && Pos(ix) < n && UserPage(mem, src, ix).Some?
  {
    set ix | ix in Places() && Pos(ix) < n && UserPage(mem, src, ix).Some?
  }

  /** The directories and the page tables that pages need. */
  ghost function DirectoriesOf(pages: set<Index>): set<nat> {
    set ix | ix in pages :: ix.l3
  }

  ghost function TablesOf(pages: set<Index>): set<(nat, nat)> {
    set ix | ix in pages :: (ix.l3, ix.l2)
  }

  /** One frame for each page, one for each page table and each directory they need, and one for the table above. */
  ghost function CostOfPages(pages: set<Index>): nat {
    if pages == {} then 0 else 1 + |DirectoriesOf(pages)| + |TablesOf(pages)| + |pages|
  }

  /** What a copy of the space costs. */
  ghost function CopyCost(mem: Memory, src: PageAddress): nat {
    CostOfPages(PagesBefore(mem, src, Pos(Index(0, 512, 0, 0))))
  }

  /** The tables that are missing for one more page. */
  ghost function MissingFor(pages: set<Index>, ix: Index): nat {
    if pages == {} then 3
    else if ix.l3 !in DirectoriesOf(pages) then 2
    else if (ix.l3, ix.l2) !in TablesOf(pages) then 1
    else 0
  }

  lemma OneElementMore<T>(a: set<T>, x: T)
    ensures |a + {x}| == if x in a then |a| else |a| + 1
  {
    if x in a { assert a + {x} == a; }
  }

  /** What one more page adds to the directories and tables needed. */
  lemma NeedsOneMore(pages: set<Index>, ix: Index)
    ensures DirectoriesOf(pages + {ix}) == DirectoriesOf(pages) + {ix.l3}
    ensures TablesOf(pages + {ix}) == TablesOf(pages) + {(ix.l3, ix.l2)}
    ensures pages == {} ==> DirectoriesOf(pages) == {} && TablesOf(pages) == {}
    ensures forall d: nat, e: nat | (d, e) in TablesOf(pages) :: d in DirectoriesOf(pages)
  {
    forall d: nat, e: nat | (d, e) in TablesOf(pages) ensures d in DirectoriesOf(pages) {
      var jx :| jx in pages && (jx.l3, jx.l2) == (d, e);
      assert jx.l3 == d;
    }
  }

  lemma CostOneMore(pages: set<Index>, ix: Index)
    requires ix !in pages
    ensures CostOfPages(pages + {ix}) == CostOfPages(pages) + 1 + MissingFor(pages, ix)
  {
    NeedsOneMore(pages, ix);
    OneElementMore(DirectoriesOf(pages), ix.l3);
    OneElementMore(TablesOf(pages), (ix.l3, ix.l2));
    OneElementMore(pages, ix);
    assert pages + {ix} != {} by { assert ix in pages + {ix}; }
  }

  lemma MissingOneMore(pages: set<Index>, ix: Index, jx: Index)
    ensures MissingFor(pages + {ix}, jx) == Beside(ix, jx, MissingFor(pages, jx))
  {
    NeedsOneMore(pages, ix);
    assert pages + {ix} != {} by { assert ix in pages + {ix}; }
  }

  lemma SmallerSet<T>(a: set<T>, b: set<T>)
    requires a <= b
    ensures |a| <= |b|
  {
    assert b == a + (b - a);
  }

  lemma CostGrows(a: set<Index>, b: set<Index>)
    requires a <= b
    ensures CostOfPages(a) <= CostOfPages(b)
  {
    SmallerSet(a, b);
    SmallerSet(DirectoriesOf(a), DirectoriesOf(b));
    SmallerSet(TablesOf(a), TablesOf(b));
  }

  ghost predicate LeftOk(mem: Memory, dest: PageAddress, pages: set<Index>, ix: Index) {
    ix.Ok() && ix.l4 == 0 ==> Missing(mem, dest, ix) == MissingFor(pages, ix)
  }

  /** The pages below position `n` have been paid for, and what is missing in `dest` is what they leave. */
  ghost predicate Paid(t: Tables, free: set<nat>, u: Tables, free': set<nat>, src: PageAddress, dest: PageAddress,
                       n: nat)
  {
    Bare(t, dest) ==>
      && |free| - |free'| == CostOfPages(PagesBefore(t.mem, src, n))
      && forall ix: Index :: LeftOk(u.mem, dest, PagesBefore(t.mem, src, n), ix)
  }

  /** The space has no tables below entry 0 yet, as one that has just been created. */
  predicate Bare(t: Tables, dest: PageAddress) {
    !Entry(t.mem, dest, 0).present
  }

  /** The pool has too little for a copy into a space without tables. */
  ghost predicate TooLittle(t: Tables, free: set<nat>, src: PageAddress, dest: PageAddress) {
    Bare(t, dest) ==> |free| < CopyCost(t.mem, src)
  }

  lemma PagesUpTo(mem: Memory, src: PageAddress, ix: Index)
    requires ix.Ok() && ix.l4 == 0 && UserPage(mem, src, ix).Some?
    ensures ix !in PagesBefore(mem, src, Pos(ix))
    ensures PagesBefore(mem, src, Pos(ix) + 1) == PagesBefore(mem, src, Pos(ix)) + {ix}
  {
    forall jx: Index ensures jx in PagesBefore(mem, src, Pos(ix) + 1) <==> jx in PagesBefore(mem, src, Pos(ix)) + {ix} {
      if jx.Ok() && jx.l4 == 0 { PosIsInjective(ix, jx); }
    }
  }

  /** Storing into a page that is not a table leaves as many tables missing. */
  lemma MissingAfterStore(t: Tables, page: PageAddress, data: Page, root: PageAddress, ix: Index)
    requires WellFormed(t) && IsRoot(t, root) && ix.Ok() && ix.l4 == 0 && page !in t.role
    ensures Missing(t.mem[page := data], root, ix) == Missing(t.mem, root, ix)
  {
    OwnEntryLeads(t, root, 0);
    if Entry(t.mem, root, 0).present {
      StepDown(t, root, 0);
      var f3 := Entry(t.mem, root, 0).addr;
      OwnEntryLeads(t, f3, ix.l3);
      if Entry(t.mem, f3, ix.l3).present { StepDown(t, f3, ix.l3); }
    }
  }

  // ----- one page

  /** A frame set aside by the caller may be counted as free on both sides. */
  lemma MovedBeside(role: map<PageAddress, Node>, free: set<nat>, role': map<PageAddress, Node>, free': set<nat>,
                    root: int, slot: nat, page: PageAddress)
    requires page in free && page !in role && Moved(role, free - {page}, role', free', root, slot)
    ensures page !in role' && Moved(role, free, role', free' + {page}, root, slot)
  {
    assert MovedOk(role, free - {page}, role', free', root, slot, page);
    forall f: PageAddress ensures MovedOk(role, free, role', free' + {page}, root, slot, f) {
      assert MovedOk(role, free - {page}, role', free', root, slot, f);
    }
  }

  /** A user page of a private space: its frame has the role of that place. */
  lemma PrivatePage(t: Tables, root: PageAddress, ix: Index)
    requires WellFormed(t) && PrivateSpace(t, root) && ix.Ok() && ix.l4 == 0 && UserPage(t.mem, root, ix).Some?
    ensures var w := Walk(t.mem, root, ix).value;
      w.present && w.addr in t.role && t.role[w.addr] == Leaf(root, 0, ix.l3, ix.l2, ix.l1) && w.addr in t.mem
  {
    PtOfWalk(t, root, ix);
    var f := PtOf(t.mem, root, ix).value;
    assert LeafOk(t, root, f, ix.l1) && NodeOk(t, Child(t.role[f], ix.l1));
  }

  lemma PosIsInjective(ix: Index, j: Index)
    requires ix.Ok() && j.Ok() && ix.l4 == j.l4 == 0
    ensures Pos(ix) == Pos(j) ==> ix == j
  {
    PosDigits(ix);
    PosDigits(j);
  }

  lemma PosDigits(ix: Index)
    requires ix.Ok()
    ensures Pos(ix) % 512 == ix.l1 && Pos(ix) / 512 % 512 == ix.l2 && Pos(ix) / 512 / 512 == ix.l3
  {
    var high := ix.l3 * 512 + ix.l2;
    assert Pos(ix) == 512 * high + ix.l1;
    assert Pos(ix) / 512 == high;
  }

  /** One page has been filled and mapped: from `u`, with free pages `free'`, over the state in which only the
      bytes of `page` have been stored, to `z`. */
  ghost predicate PageStep(u: Tables, free': set<nat>, z: Tables, free'': set<nat>, src: PageAddress, dest: PageAddress,
                           ix: Index, page: PageAddress)
  {
    && ix.Ok() && ix.l4 == 0 && src != dest && UserPage(u.mem, src, ix).Some?
    && page in free' && page !in u.role && page in u.mem
    && Walk(u.mem, src, ix).value.addr in u.mem
    && MappedOne(u.(mem := u.mem[page := u.mem[Walk(u.mem, src, ix).value.addr]]), free' - {page}, z, dest, ix,
                 MakeEntry(page, LowFlags(Walk(u.mem, src, ix).value)))
    && Moved(u.role, free', z.role, free'', dest, 0)
    && RootsKept(u.(mem := u.mem[page := u.mem[Walk(u.mem, src, ix).value.addr]]), z, dest, 0)
    && page in z.role && z.role[page] == Leaf(dest, 0, ix.l3, ix.l2, ix.l1)
    && PathOnly(u.(mem := u.mem[page := u.mem[Walk(u.mem, src, ix).value.addr]]), z, dest, ix)
    && (forall s: PageAddress | PrivateSpace(u, s) :: PrivateSpace(z, s))
  }

  /** Besides, the tables missing for it have been made. */
  ghost predicate PageTablesMade(u: Tables, free': set<nat>, z: Tables, free'': set<nat>, src: PageAddress,
                                 dest: PageAddress, ix: Index, page: PageAddress)
  {
    && page in u.mem && UserPage(u.mem, src, ix).Some? && Walk(u.mem, src, ix).value.addr in u.mem
    && TablesMade(u.(mem := u.mem[page := u.mem[Walk(u.mem, src, ix).value.addr]]), free' - {page}, z, free'', dest, ix,
                  Flags(true, true, true, 0, 0), true)
  }

  lemma RootsAfterStore(t: Tables, u: Tables, z: Tables, dest: PageAddress, page: PageAddress, data: Page)
    requires RootsKept(t, u, dest, 0) && page !in u.role && RootsKept(u.(mem := u.mem[page := data]), z, dest, 0)
    ensures RootsKept(t, z, dest, 0)
  {
    RootsOutside(u, page, data, dest, 0);
    RootsKeptTwice(t, u, u.(mem := u.mem[page := data]), dest, 0);
    RootsKeptTwice(t, u.(mem := u.mem[page := data]), z, dest, 0);
  }

  /** Storing into a page that is no table, and then mapping it, changes no table of another space. */
  lemma TablesKeptOn(t: Tables, u: Tables, z: Tables, dest: PageAddress, ix: Index, page: PageAddress, data: Page,
                     x: PageAddress)
    requires TableKept(t, u, dest, x) && page !in u.role && PathOnly(u.(mem := u.mem[page := data]), z, dest, ix)
    requires ix.l4 == 0 && (x in t.role ==> x in u.role && u.role[x] == t.role[x])
    requires WellFormed(t) && (x in u.mem ==> x in z.mem)
    ensures TableKept(t, z, dest, x)
  {
    if x in t.role && !t.role[x].Leaf? && t.role[x].root != dest && x in t.mem {
      assert t.role[x] != Pml4(dest);
      ElsewhereKept(u.(mem := u.mem[page := data]), z, dest, ix, x);
    }
  }

  lemma KeptAfterPage(t: Tables, free: set<nat>, u: Tables, free': set<nat>, z: Tables, free'': set<nat>,
                      src: PageAddress, dest: PageAddress, ix: Index, page: PageAddress)
    requires WellFormed(t) && WellFormed(u) && Kept(t, free, u, free', dest)
    requires PageStep(u, free', z, free'', src, dest, ix, page)
    ensures Kept(t, free, z, free'', dest)
  {
    var v := u.(mem := u.mem[page := u.mem[Walk(u.mem, src, ix).value.addr]]);
    MovedTwice(t.role, free, u.role, free', z.role, free'', dest, 0);
    RootsAfterStore(t, u, z, dest, page, u.mem[Walk(u.mem, src, ix).value.addr]);
    WriteOutside(u, page, u.mem[Walk(u.mem, src, ix).value.addr]);
    assert MovedOk(t.role, free, u.role, free', dest, 0, page);
    forall r: PageAddress, j: Index ensures WalkKept(t, z, dest, r, j) {
      assert WalkKept(t, u, dest, r, j) && MovedOk(t.role, free, u.role, free', dest, 0, r);
    }
    forall x: PageAddress ensures DataKept(t, free, z, x) {
      assert DataKept(t, free, u, x) && DataKept(v, free' - {page}, z, x)
             && MovedOk(t.role, free, u.role, free', dest, 0, x);
    }
    forall x: PageAddress ensures TableKept(t, z, dest, x) {
      assert TableKept(t, u, dest, x) && MovedOk(t.role, free, u.role, free', dest, 0, x);
      assert DataKept(v, free' - {page}, z, x);
      TablesKeptOn(t, u, z, dest, ix, page, u.mem[Walk(u.mem, src, ix).value.addr], x);
    }
  }

  /** The page that was copied. */
  lemma PageIsCopied(t: Tables, free: set<nat>, u: Tables, free': set<nat>, z: Tables, free'': set<nat>,
                     src: PageAddress, dest: PageAddress, ix: Index, page: PageAddress)
    requires WellFormed(t) && IsRoot(t, src) && SourceOk(t, free, src, ix)
    requires Kept(t, free, u, free', dest) && PageStep(u, free', z, free'', src, dest, ix, page)
    ensures CopyOk(t, free, z, src, dest, ix)
  {
    var w := Walk(u.mem, src, ix).value;
    var v := u.(mem := u.mem[page := u.mem[w.addr]]);
    assert WalkKept(t, u, dest, src, ix);
    assert DataKept(t, free, u, w.addr) && DataKept(v, free' - {page}, z, page);
    assert MovedOk(t.role, free, u.role, free', dest, 0, page);
  }

  /** The pages that were copied before, and those still to be copied. */
  lemma OtherPagesStay(t: Tables, free: set<nat>, u: Tables, free': set<nat>, z: Tables, free'': set<nat>,
                       src: PageAddress, dest: PageAddress, ix: Index, page: PageAddress, n: nat, j: Index)
    requires WellFormed(u) && IsRoot(t, dest) && forall f: PageAddress | f in u.role :: f !in free'
    requires Kept(t, free, u, free', dest) && PageStep(u, free', z, free'', src, dest, ix, page)
    requires PosOk(t, free, u, src, dest, n, j) && j != ix && PrivateSpace(u, dest)
    ensures PosOk(t, free, z, src, dest, n, j)
  {
    var v := u.(mem := u.mem[page := u.mem[Walk(u.mem, src, ix).value.addr]]);
    WriteOutside(u, page, u.mem[Walk(u.mem, src, ix).value.addr]);
    assert MovedOk(t.role, free, u.role, free', dest, 0, dest);
    if j.Ok() && j.l4 == 0 {
      assert !SamePage(dest, ix, dest, j) && IsRoot(v, dest);
      assert Walk(z.mem, dest, j) == Walk(u.mem, dest, j);
      if UserPage(u.mem, dest, j).Some? {
        var a := Walk(u.mem, dest, j).value.addr;
        PrivatePage(u, dest, j);
        assert DataKept(v, free' - {page}, z, a) && MovedOk(u.role, free', z.role, free'', dest, 0, a);
      }
    }
  }

  /** The page and the tables made for it are paid for. */
  lemma PaidAfterPage(t: Tables, free: set<nat>, u: Tables, free': set<nat>, z: Tables, free'': set<nat>,
                      src: PageAddress, dest: PageAddress, ix: Index, page: PageAddress)
    requires WellFormed(t) && WellFormed(u) && WellFormed(z) && IsRoot(t, src) && PrivateSpace(u, dest)
    requires forall f: PageAddress | f in u.role :: f !in free'
    requires Kept(t, free, u, free', dest) && Paid(t, free, u, free', src, dest, Pos(ix))
    requires PageStep(u, free', z, free'', src, dest, ix, page)
    requires PageTablesMade(u, free', z, free'', src, dest, ix, page)
    ensures Paid(t, free, z, free'', src, dest, Pos(ix) + 1)
  {
    if Bare(t, dest) {
      var data := u.mem[Walk(u.mem, src, ix).value.addr];
      var v, pages, flags := u.(mem := u.mem[page := data]), PagesBefore(t.mem, src, Pos(ix)),
                             Flags(true, true, true, 0, 0);
      WriteOutside(u, page, data);
      assert WalkKept(t, u, dest, src, ix);
      PagesUpTo(t.mem, src, ix);
      CostOneMore(pages, ix);
      MissingAfterStore(u, page, data, dest, ix);
      assert LeftOk(u.mem, dest, pages, ix);
      var more := PagesBefore(t.mem, src, Pos(ix) + 1);
      forall jx: Index ensures LeftOk(z.mem, dest, more, jx) {
        if jx.Ok() && jx.l4 == 0 {
          assert LeftOk(u.mem, dest, pages, jx);
          MissingAfterStore(u, page, data, dest, jx);
          MissingAfterMapping(v, free' - {page}, z, free'', dest, ix, jx, flags);
          MissingOneMore(pages, ix, jx);
        }
      }
    }
  }

  lemma OnePageCopied(t: Tables, free: set<nat>, u: Tables, free': set<nat>, z: Tables, free'': set<nat>,
                      src: PageAddress, dest: PageAddress, ix: Index, page: PageAddress, next: nat)
    requires WellFormed(t) && WellFormed(u) && WellFormed(z) && IsRoot(t, dest)
    requires IsRoot(t, src) && SourceOk(t, free, src, ix) && PrivateSpace(u, dest)
    requires forall f: PageAddress | f in u.role :: f !in free'
    requires Kept(t, free, u, free', dest) && CopiedTo(t, free, u, free', src, dest, Pos(ix)) && next == Pos(ix) + 1
    requires PageStep(u, free', z, free'', src, dest, ix, page)
    requires PageTablesMade(u, free', z, free'', src, dest, ix, page)
    ensures Kept(t, free, z, free'', dest) && CopiedTo(t, free, z, free'', src, dest, next)
  {
    KeptAfterPage(t, free, u, free', z, free'', src, dest, ix, page);
    PaidAfterPage(t, free, u, free', z, free'', src, dest, ix, page);
    forall j: Index ensures PosOk(t, free, z, src, dest, next, j) {
      if j == ix {
        PageIsCopied(t, free, u, free', z, free'', src, dest, ix, page);
      } else if j.Ok() && j.l4 == 0 {
        assert PosOk(t, free, u, src, dest, Pos(ix), j);
        OtherPagesStay(t, free, u, free', z, free'', src, dest, ix, page, Pos(ix), j);
        PosIsInjective(ix, j);
      }
    }
  }

  // ----- the visitor of copy_user_pages

  /** A state from which pages of `src` can be copied into `dest`: `t` and `free` are those at the start. */
  ghost predicate Copying(t: Tables, free: set<nat>, src: PageAddress, dest: PageAddress) {
    && WellFormed(t) && src != dest && IsRoot(t, src) && PrivateSpace(t, dest)
    && (forall ix: Index :: SourceOk(t, free, src, ix))
    && (forall f: PageAddress | f in t.role :: f !in free)
    && (forall ix: Index | ix.Ok() && ix.l4 == 0 :: Walk(t.mem, dest, ix) == None)
  }

  /** At most one page is free. */
  ghost predicate Exhausted(free: set<nat>) {
    forall a: nat, b: nat | a in free && b in free :: a == b
  }

  /** The frame could not be mapped and has been given back: tables may have been added to `dest`. */
  ghost predicate FailedStep(u: Tables, free': set<nat>, z: Tables, free'': set<nat>, dest: PageAddress, ix: Index,
                             page: PageAddress, data: Page)
  {
    var v, left := u.(mem := u.mem[page := data]), free' - {page};
    && page in free' && page !in u.role && page in u.mem
    && Moved(u.role, free', z.role, free'', dest, 0)
    && SameWalks(v, z.mem) && RootsKept(v, z, dest, 0) && PathOnly(v, z, dest, ix) && ix.l4 == 0
    && (forall x: PageAddress :: DataKept(v, left, z, x))
    && (forall s: PageAddress | PrivateSpace(u, s) :: PrivateSpace(z, s))
  }

  lemma KeptAfterFailure(t: Tables, free: set<nat>, u: Tables, free': set<nat>, z: Tables, free'': set<nat>,
                         dest: PageAddress, ix: Index, page: PageAddress, data: Page)
    requires WellFormed(t) && WellFormed(u) && Kept(t, free, u, free', dest)
    requires FailedStep(u, free', z, free'', dest, ix, page, data)
    ensures Kept(t, free, z, free'', dest)
  {
    MovedTwice(t.role, free, u.role, free', z.role, free'', dest, 0);
    RootsAfterStore(t, u, z, dest, page, data);
    WriteOutside(u, page, data);
    assert MovedOk(t.role, free, u.role, free', dest, 0, page);
    forall r: PageAddress, j: Index ensures WalkKept(t, z, dest, r, j) {
      assert WalkKept(t, u, dest, r, j) && MovedOk(t.role, free, u.role, free', dest, 0, r);
    }
    forall x: PageAddress ensures DataKept(t, free, z, x) {
      assert DataKept(t, free, u, x) && MovedOk(t.role, free, u.role, free', dest, 0, x);
      assert DataKept(u.(mem := u.mem[page := data]), free' - {page}, z, x);
    }
    forall x: PageAddress ensures TableKept(t, z, dest, x) {
      assert TableKept(t, u, dest, x) && MovedOk(t.role, free, u.role, free', dest, 0, x);
      assert DataKept(u.(mem := u.mem[page := data]), free' - {page}, z, x);
      TablesKeptOn(t, u, z, dest, ix, page, data, x);
    }
  }

  /** `memcpy` into a page that is not mapped anywhere yet. */
  method StoreBytes(vm: VirtualMemoryManager, page: PageAddress, data: Page)
    requires vm.Valid() && page !in vm.role && page in vm.mem
    modifies vm`mem
    ensures vm.Valid() && vm.mem == old(vm.mem)[page := data] && SameWalks(old(vm.T()), vm.mem)
    ensures forall s: PageAddress | old(PrivateSpace(vm.T(), s)) :: PrivateSpace(vm.T(), s)
  {
    WriteOutside(vm.T(), page, data);
    vm.mem := vm.mem[page := data];
    forall a: nat ensures vm.PoolOk(a) {
      assert old(vm.PoolOk(a));
    }
  }

  /** `map_page_in` at the address made from the three indices, for a fresh page.  With the user bit it becomes a
      page of the space; without, it belongs to no space. */
  method MapAtPosition(vm: VirtualMemoryManager, root: PageAddress, ix: Index, page: PageAddress, flags: Flags)
    returns (ok: bool)
    requires vm.Valid() && vm.Fresh(page) && ix.Ok() && ix.l4 == 0 && IsRoot(vm.T(), root)
    requires Walk(vm.mem, root, ix) == None
    modifies vm`mem, vm`role, vm`at, vm.pmm`free, vm.pmm`free_pages, vm.pmm.bitmap
    ensures vm.Valid()
    ensures ok ==>
              && MappedOne(old(vm.T()), old(vm.pmm.free), vm.T(), root, ix, MakeEntry(page, flags))
              && (if flags.user then
                    Moved(old(vm.role), old(vm.pmm.free) + {page}, vm.role, vm.pmm.free, root, 0)
                    && page in vm.role && vm.role[page] == Leaf(root, 0, ix.l3, ix.l2, ix.l1)
                  else Moved(old(vm.role), old(vm.pmm.free), vm.role, vm.pmm.free, root, 0))
    ensures ok ==> Maps(MakeEntry(page, flags), page, flags)
    ensures TablesMade(old(vm.T()), old(vm.pmm.free), vm.T(), vm.pmm.free, root, ix, Flags(true, true, true, 0, 0), ok)
    ensures RootsKept(old(vm.T()), vm.T(), root, 0)
    ensures !ok ==> Extended(old(vm.T()), old(vm.pmm.free), vm.T(), vm.pmm.free, root, 0) && vm.pmm.free == {}
    ensures forall s: PageAddress | old(PrivateSpace(vm.T(), s)) :: PrivateSpace(vm.T(), s)
  {
    IndexOfUserAddress(ix.l3, ix.l2, ix.l1);
    var va := UserAddress(ix.l3, ix.l2, ix.l1);
    assert IndexOf(va) == ix && PageOf(page) == page;
    ok := vm.MapPageIn(root, va, Some(page), flags, flags.user);
  }

  /** Maps a filled page, or gives it back. */
  method MapOrGiveBack(vm: VirtualMemoryManager, dest: PageAddress, ix: Index, page: PageAddress, flags: Flags,
                       ghost free: set<nat>)
    returns (ok: bool)
    requires vm.Valid() && vm.Fresh(page) && ix.Ok() && ix.l4 == 0 && IsRoot(vm.T(), dest)
    requires Walk(vm.mem, dest, ix) == None && page in free && vm.pmm.free == free - {page}
    modifies vm`mem, vm`role, vm`at, vm.pmm`free, vm.pmm`free_pages, vm.pmm.bitmap
    ensures vm.Valid()
    ensures Moved(old(vm.role), if ok && !flags.user then free - {page} else free, vm.role, vm.pmm.free, dest, 0)
    ensures RootsKept(old(vm.T()), vm.T(), dest, 0) && PathOnly(old(vm.T()), vm.T(), dest, ix)
    ensures ok <==> old(Missing(vm.mem, dest, ix)) <= |old(vm.pmm.free)|
    ensures ok ==>
              && MappedOne(old(vm.T()), old(vm.pmm.free), vm.T(), dest, ix, MakeEntry(page, flags))
              && TablesMade(old(vm.T()), old(vm.pmm.free), vm.T(), vm.pmm.free, dest, ix, Flags(true, true, true, 0, 0),
                            true)
              && (flags.user ==> page in vm.role && vm.role[page] == Leaf(dest, 0, ix.l3, ix.l2, ix.l1))
    ensures !ok ==>
              && SameWalks(old(vm.T()), vm.mem) && Exhausted(vm.pmm.free)
              && (forall x: PageAddress :: DataKept(old(vm.T()), old(vm.pmm.free), vm.T(), x))
    ensures forall s: PageAddress | old(PrivateSpace(vm.T(), s)) :: PrivateSpace(vm.T(), s)
  {
    assert vm.PoolOk(page);
    ghost var role, t := vm.role, vm.T();
    ok := MapAtPosition(vm, dest, ix, page, flags);
    if ok {
      assert free - {page} + {page} == free;
      return true;
    }
    MovedBeside(role, free, vm.role, vm.pmm.free, dest, 0, page);
    forall x: PageAddress ensures DataKept(t, free - {page}, vm.T(), x) {
      assert PageKept(t, free - {page}, vm.T(), x);
    }
    GiveBack(vm, page);
  }

  method GiveBack(vm: VirtualMemoryManager, page: PageAddress)
    requires vm.Valid() && page !in vm.role && vm.pmm.Managed(page)
    modifies vm.pmm`free, vm.pmm`free_pages, vm.pmm.bitmap
    ensures vm.Valid() && vm.pmm.free == old(vm.pmm.free) + {page}
  {
    vm.pmm.Free(Some(page));
    forall a: nat ensures vm.PoolOk(a) {
      assert old(vm.PoolOk(a));
    }
  }

  /** When the pool has too little for a page and its tables, it had too little for the copy. */
  lemma PageIsTooMuch(t: Tables, free: set<nat>, u: Tables, free': set<nat>, src: PageAddress, dest: PageAddress,
                      ix: Index)
    requires ix.Ok() && ix.l4 == 0 && UserPage(t.mem, src, ix).Some? && Paid(t, free, u, free', src, dest, Pos(ix))
    ensures |free'| < 1 + Missing(u.mem, dest, ix) ==> TooLittle(t, free, src, dest)
  {
    if Bare(t, dest) {
      var pages := PagesBefore(t.mem, src, Pos(ix));
      assert LeftOk(u.mem, dest, pages, ix);
      PagesUpTo(t.mem, src, ix);
      CostOneMore(pages, ix);
      PosIsSmall(ix);
      CostGrows(pages + {ix}, PagesBefore(t.mem, src, Pos(Index(0, 512, 0, 0))));
    }
  }

  lemma PosIsSmall(ix: Index)
    requires ix.Ok()
    ensures Pos(ix) < Pos(Index(0, 512, 0, 0))
  {
  }

  /** Copies one page: takes a frame, fills it and maps it.  It fails only when memory is exhausted, and then
      gives the frame back. */
  method CopyPage(vm: VirtualMemoryManager, src: PageAddress, dest: PageAddress, ix: Index, entry: Word,
                  ghost t: Tables, ghost free: set<nat>, ghost next: nat) returns (ok: bool)
    requires vm.Valid() && Copying(t, free, src, dest) && ix.Ok() && ix.l4 == 0
    requires Kept(t, free, vm.T(), vm.pmm.free, dest) && CopiedTo(t, free, vm.T(), vm.pmm.free, src, dest, Pos(ix))
    requires UserPage(vm.mem, src, ix) == Some(entry) && next == Pos(ix) + 1
    modifies vm`mem, vm`role, vm`at, vm.pmm`free, vm.pmm`free_pages, vm.pmm.bitmap
    ensures vm.Valid() && Kept(t, free, vm.T(), vm.pmm.free, dest)
    ensures ok ==> CopiedTo(t, free, vm.T(), vm.pmm.free, src, dest, next)
    ensures !ok ==> Exhausted(vm.pmm.free) && TooLittle(t, free, src, dest)
  {
    ghost var u, free1 := vm.T(), vm.pmm.free;
    assert WalkKept(t, u, dest, src, ix) && SourceOk(t, free, src, ix) && DataKept(t, free, u, entry.addr);
    assert MovedOk(t.role, free, u.role, free1, dest, 0, dest);
    assert PosOk(t, free, u, src, dest, Pos(ix), ix);
    vm.RoleNotFree();
    var new_phys := vm.pmm.Allocate();
    forall a: nat ensures vm.PoolOk(a) {
      assert old(vm.PoolOk(a));
    }
    PageIsTooMuch(t, free, u, free1, src, dest, ix);
    if new_phys == None {
      return false;
    }
    assert old(vm.PoolOk(new_phys.value));
    MissingAfterStore(u, new_phys.value, u.mem[entry.addr], dest, ix);
    StoreBytes(vm, new_phys.value, vm.mem[entry.addr]);
    ok := MapOrGiveBack(vm, dest, ix, new_phys.value, LowFlags(entry), free1);
    if ok {
      OnePageCopied(t, free, u, free1, vm.T(), vm.pmm.free, src, dest, ix, new_phys.value, next);
    } else {
      KeptAfterFailure(t, free, u, free1, vm.T(), vm.pmm.free, dest, ix, new_phys.value, u.mem[entry.addr]);
    }
  }

  // ----- the visit of all user pages

  /** Pages that `src` does not map for user access need no copying. */
  lemma SkipPages(t: Tables, free: set<nat>, u: Tables, free': set<nat>, src: PageAddress, dest: PageAddress, n: nat,
                  n': nat)
    requires Copying(t, free, src, dest) && Kept(t, free, u, free', dest) && CopiedTo(t, free, u, free', src, dest, n)
             && n <= n'
    requires forall ix: Index | ix.Ok() && ix.l4 == 0 && n <= Pos(ix) < n' :: UserPage(u.mem, src, ix) == None
    ensures CopiedTo(t, free, u, free', src, dest, n')
  {
    forall ix: Index ensures PosOk(t, free, u, src, dest, n', ix) {
      assert PosOk(t, free, u, src, dest, n, ix) && WalkKept(t, u, dest, src, ix);
    }
    assert PagesBefore(t.mem, src, n') == PagesBefore(t.mem, src, n) by {
      forall ix: Index ensures ix in PagesBefore(t.mem, src, n') <==> ix in PagesBefore(t.mem, src, n) {
        assert WalkKept(t, u, dest, src, ix);
      }
    }
  }

  lemma SkipPage(t: Tables, free: set<nat>, u: Tables, free': set<nat>, src: PageAddress, dest: PageAddress, at: Index,
                 next: nat)
    requires Copying(t, free, src, dest) && Kept(t, free, u, free', dest) && at.Ok() && at.l4 == 0
    requires CopiedTo(t, free, u, free', src, dest, Pos(at)) && next == Pos(at) + 1 && UserPage(u.mem, src, at) == None
    ensures CopiedTo(t, free, u, free', src, dest, next)
  {
    forall ix: Index | ix.Ok() && ix.l4 == 0 && Pos(at) <= Pos(ix) < next ensures UserPage(u.mem, src, ix) == None {
      PosIsInjective(ix, at);
    }
    SkipPages(t, free, u, free', src, dest, Pos(at), next);
  }

  /** The same for all pages below an absent entry of a directory, or of the table above. */
  lemma SkipTable(t: Tables, free: set<nat>, u: Tables, free': set<nat>, src: PageAddress, dest: PageAddress,
                  i: nat, j: nat, pd: PageAddress)
    requires Copying(t, free, src, dest) && Kept(t, free, u, free', dest) && WellFormed(u) && IsRoot(u, src)
    requires i < 512 && j < 512 && Pd(src, 0, i) in u.at && u.at[Pd(src, 0, i)] == pd && !Entry(u.mem, pd, j).present
    requires CopiedTo(t, free, u, free', src, dest, Pos(Index(0, i, j, 0)))
    ensures CopiedTo(t, free, u, free', src, dest, Pos(Index(0, i, j + 1, 0)))
  {
    var at, next := Pos(Index(0, i, j, 0)), Pos(Index(0, i, j + 1, 0));
    forall ix: Index | ix.Ok() && ix.l4 == 0 && at <= Pos(ix) < next ensures UserPage(u.mem, src, ix) == None {
      PosInTable(i, j, ix);
      if Walk(u.mem, src, ix).Some? { NothingBelow(u, src, ix); }
    }
    SkipPages(t, free, u, free', src, dest, at, next);
  }

  lemma SkipDirectory(t: Tables, free: set<nat>, u: Tables, free': set<nat>, src: PageAddress, dest: PageAddress,
                      i: nat, pdpt: PageAddress)
    requires Copying(t, free, src, dest) && Kept(t, free, u, free', dest) && WellFormed(u) && IsRoot(u, src)
    requires i < 512 && Pdpt(src, 0) in u.at && u.at[Pdpt(src, 0)] == pdpt && !Entry(u.mem, pdpt, i).present
    requires CopiedTo(t, free, u, free', src, dest, Pos(Index(0, i, 0, 0)))
    ensures CopiedTo(t, free, u, free', src, dest, Pos(Index(0, i + 1, 0, 0)))
  {
    var at, next := Pos(Index(0, i, 0, 0)), Pos(Index(0, i + 1, 0, 0));
    forall ix: Index | ix.Ok() && ix.l4 == 0 && at <= Pos(ix) < next ensures UserPage(u.mem, src, ix) == None {
      PosInDirectory(i, ix);
      if Walk(u.mem, src, ix).Some? { NothingBelow(u, src, ix); }
    }
    SkipPages(t, free, u, free', src, dest, at, next);
  }

  /** Only pages below entry `j` of directory `i` have positions between those of its first and its next. */
  lemma PosInTable(i: nat, j: nat, ix: Index)
    requires i < 512 && j < 512 && ix.Ok() && ix.l4 == 0
    ensures Pos(Index(0, i, j, 0)) <= Pos(ix) < Pos(Index(0, i, j, 0)) + 512 ==> ix.l3 == i && ix.l2 == j
  {
    PosDigits(ix);
    assert Pos(Index(0, i, j, 0)) == 512 * (512 * i + j);
    if Pos(Index(0, i, j, 0)) <= Pos(ix) < Pos(Index(0, i, j, 0)) + 512 {
      assert Pos(ix) / 512 == 512 * i + j;
    }
  }

  lemma PosInDirectory(i: nat, ix: Index)
    requires i < 512 && ix.Ok() && ix.l4 == 0
    ensures Pos(Index(0, i, 0, 0)) <= Pos(ix) < Pos(Index(0, i, 0, 0)) + 512 * 512 ==> ix.l3 == i
  {
    PosDigits(ix);
    if Pos(Index(0, i, 0, 0)) <= Pos(ix) < Pos(Index(0, i, 0, 0)) + 512 * 512 {
      assert 512 * i <= Pos(ix) / 512 < 512 * i + 512;
    }
  }

  lemma TableEnds(i: nat, j: nat)
    ensures Pos(Index(0, i, j, 512)) == Pos(Index(0, i, j + 1, 0))
  {
  }

  lemma DirectoryEnds(i: nat)
    ensures Pos(Index(0, i, 512, 0)) == Pos(Index(0, i + 1, 0, 0))
  {
  }

  /** The innermost loop: the pages of one page table. */
  method CopyTable(vm: VirtualMemoryManager, src: PageAddress, dest: PageAddress, i: nat, j: nat, pt: PageAddress,
                   ghost t: Tables, ghost free: set<nat>) returns (ok: bool)
    requires vm.Valid() && Copying(t, free, src, dest) && i < 512 && j < 512
    requires Kept(t, free, vm.T(), vm.pmm.free, dest)
    requires CopiedTo(t, free, vm.T(), vm.pmm.free, src, dest, Pos(Index(0, i, j, 0)))
    requires pt in t.role && t.role[pt] == Pt(src, 0, i, j)
    modifies vm`mem, vm`role, vm`at, vm.pmm`free, vm.pmm`free_pages, vm.pmm.bitmap
    ensures vm.Valid() && Kept(t, free, vm.T(), vm.pmm.free, dest)
    ensures ok ==> CopiedTo(t, free, vm.T(), vm.pmm.free, src, dest, Pos(Index(0, i, j + 1, 0)))
    ensures !ok ==> Exhausted(vm.pmm.free) && TooLittle(t, free, src, dest)
  {
    var k := 0;
    ghost var at := Pos(Index(0, i, j, 0));
    while k < ENTRIES_PER_TABLE
      invariant 0 <= k <= 512 && vm.Valid() && Kept(t, free, vm.T(), vm.pmm.free, dest)
      invariant at == Pos(Index(0, i, j, k)) && CopiedTo(t, free, vm.T(), vm.pmm.free, src, dest, at)
    {
      EntryOfVisit(t, free, vm.T(), vm.pmm.free, src, dest, i, j, k, pt);
      var entry := vm.mem[pt][k];
      ghost var next := Pos(Index(0, i, j, k + 1));
      if entry.present && entry.user {
        ok := CopyPage(vm, src, dest, Index(0, i, j, k), entry, t, free, next);
        if !ok {
          return false;
        }
      } else {
        SkipPage(t, free, vm.T(), vm.pmm.free, src, dest, Index(0, i, j, k), next);
      }
      k, at := k + 1, next;
    }
    TableEnds(i, j);
    return true;
  }

  /** What the visitor sees in entry `k` of a page table of `src` is what a walk of `src` finds there. */
  lemma EntryOfVisit(t: Tables, free: set<nat>, u: Tables, free': set<nat>, src: PageAddress, dest: PageAddress,
                     i: nat, j: nat, k: nat, pt: PageAddress)
    requires WellFormed(t) && WellFormed(u) && Kept(t, free, u, free', dest) && IsRoot(t, src)
    requires i < 512 && j < 512 && k < 512 && pt in t.role && t.role[pt] == Pt(src, 0, i, j)
    ensures pt in u.mem
    ensures Walk(u.mem, src, Index(0, i, j, k)) == if u.mem[pt][k].present then Some(u.mem[pt][k]) else None
  {
    assert MovedOk(t.role, free, u.role, free', dest, 0, pt) && MovedOk(t.role, free, u.role, free', dest, 0, src);
    assert FrameOk(u, pt);
    PtIsReached(u, src, i, j, k);
  }

  /** The middle loop: the page tables of one directory. */
  method CopyDirectory(vm: VirtualMemoryManager, src: PageAddress, dest: PageAddress, i: nat, pd: PageAddress,
                       ghost t: Tables, ghost free: set<nat>) returns (ok: bool)
    requires vm.Valid() && Copying(t, free, src, dest) && i < 512
    requires Kept(t, free, vm.T(), vm.pmm.free, dest)
    requires CopiedTo(t, free, vm.T(), vm.pmm.free, src, dest, Pos(Index(0, i, 0, 0)))
    requires pd in t.role && t.role[pd] == Pd(src, 0, i)
    modifies vm`mem, vm`role, vm`at, vm.pmm`free, vm.pmm`free_pages, vm.pmm.bitmap
    ensures vm.Valid() && Kept(t, free, vm.T(), vm.pmm.free, dest)
    ensures ok ==> CopiedTo(t, free, vm.T(), vm.pmm.free, src, dest, Pos(Index(0, i + 1, 0, 0)))
    ensures !ok ==> Exhausted(vm.pmm.free) && TooLittle(t, free, src, dest)
  {
    var j := 0;
    ghost var at := Pos(Index(0, i, 0, 0));
    while j < ENTRIES_PER_TABLE
      invariant 0 <= j <= 512 && vm.Valid() && Kept(t, free, vm.T(), vm.pmm.free, dest)
      invariant at == Pos(Index(0, i, j, 0)) && CopiedTo(t, free, vm.T(), vm.pmm.free, src, dest, at)
    {
      TableOfVisit(t, free, vm.T(), vm.pmm.free, src, dest, pd, j);
      var entry := vm.mem[pd][j];
      if entry.present {
        ok := CopyTable(vm, src, dest, i, j, entry.addr, t, free);
        if !ok {
          return false;
        }
      } else {
        SkipTable(t, free, vm.T(), vm.pmm.free, src, dest, i, j, pd);
      }
      j, at := j + 1, Pos(Index(0, i, j + 1, 0));
    }
    DirectoryEnds(i);
    return true;
  }

  /** A present entry of a table of `src` leads to a table that `src` had at the start. */
  lemma TableOfVisit(t: Tables, free: set<nat>, u: Tables, free': set<nat>, src: PageAddress, dest: PageAddress,
                     f: PageAddress, i: nat)
    requires WellFormed(t) && WellFormed(u) && Kept(t, free, u, free', dest) && src != dest && IsRoot(t, src) && i < 512
    requires f in t.role && IsUpper(t.role[f]) && t.role[f].root == src && (t.role[f].Pml4? ==> i == 0)
    ensures f in u.mem && f in u.role && u.role[f] == t.role[f] && u.role[f] in u.at && u.at[u.role[f]] == f
            && IsRoot(u, src)
    ensures u.mem[f][i].present ==>
              var g := u.mem[f][i].addr;
              g in t.role && t.role[g] == Child(t.role[f], i)
  {
    assert MovedOk(t.role, free, u.role, free', dest, 0, f) && MovedOk(t.role, free, u.role, free', dest, 0, src);
    assert FrameOk(u, f);
    OwnEntryLeads(u, f, i);
    if u.mem[f][i].present {
      StepDown(u, f, i);
      assert MovedOk(t.role, free, u.role, free', dest, 0, u.mem[f][i].addr);
    }
  }

  /** The outermost loop: the directories of the space. */
  method CopyDirectories(vm: VirtualMemoryManager, src: PageAddress, dest: PageAddress, pdpt: PageAddress,
                         ghost t: Tables, ghost free: set<nat>) returns (ok: bool)
    requires vm.Valid() && Copying(t, free, src, dest)
    requires Kept(t, free, vm.T(), vm.pmm.free, dest)
    requires CopiedTo(t, free, vm.T(), vm.pmm.free, src, dest, Pos(Index(0, 0, 0, 0)))
    requires pdpt in t.role && t.role[pdpt] == Pdpt(src, 0)
    modifies vm`mem, vm`role, vm`at, vm.pmm`free, vm.pmm`free_pages, vm.pmm.bitmap
    ensures vm.Valid() && Kept(t, free, vm.T(), vm.pmm.free, dest)
    ensures ok ==> CopiedTo(t, free, vm.T(), vm.pmm.free, src, dest, Pos(Index(0, 512, 0, 0)))
    ensures !ok ==> Exhausted(vm.pmm.free) && TooLittle(t, free, src, dest)
  {
    var i := 0;
    ghost var at := Pos(Index(0, 0, 0, 0));
    while i < ENTRIES_PER_TABLE
      invariant 0 <= i <= 512 && vm.Valid() && Kept(t, free, vm.T(), vm.pmm.free, dest)
      invariant at == Pos(Index(0, i, 0, 0)) && CopiedTo(t, free, vm.T(), vm.pmm.free, src, dest, at)
    {
      TableOfVisit(t, free, vm.T(), vm.pmm.free, src, dest, pdpt, i);
      var entry := vm.mem[pdpt][i];
      if entry.present {
        ok := CopyDirectory(vm, src, dest, i, entry.addr, t, free);
        if !ok {
          return false;
        }
      } else {
        SkipDirectory(t, free, vm.T(), vm.pmm.free, src, dest, i, pdpt);
      }
      i, at := i + 1, Pos(Index(0, i + 1, 0, 0));
    }
    return true;
  }

  lemma NothingToCopy(t: Tables, free: set<nat>, src: PageAddress, dest: PageAddress)
    requires Copying(t, free, src, dest) && !Entry(t.mem, src, 0).present
    ensures forall ix: Index | ix.Ok() && ix.l4 == 0 :: CopyOk(t, free, t, src, dest, ix)
    ensures CopyCost(t.mem, src) == 0
  {
    forall ix: Index | ix.Ok() && ix.l4 == 0
      ensures CopyOk(t, free, t, src, dest, ix) && UserPage(t.mem, src, ix) == None
    {
      if Walk(t.mem, src, ix).Some? { NothingBelow(t, src, ix); }
    }
    assert PagesBefore(t.mem, src, Pos(Index(0, 512, 0, 0))) == {};
  }

  lemma EveryPageCopied(t: Tables, free: set<nat>, u: Tables, free': set<nat>, src: PageAddress, dest: PageAddress)
    requires CopiedTo(t, free, u, free', src, dest, Pos(Index(0, 512, 0, 0)))
    ensures forall ix: Index | ix.Ok() && ix.l4 == 0 :: CopyOk(t, free, u, src, dest, ix)
    ensures Bare(t, dest) ==> |free| - |free'| == CopyCost(t.mem, src)
  {
    forall ix: Index | ix.Ok() && ix.l4 == 0 ensures CopyOk(t, free, u, src, dest, ix) {
      assert PosOk(t, free, u, src, dest, Pos(Index(0, 512, 0, 0)), ix);
    }
  }

  /** Copies every user page of `src` into `dest`, which has none.  On success each page has a copy at the same
      address with the same bytes and low flags on a frame of its own; on failure memory is exhausted.  Either
      way nothing but `dest` has changed, and what was taken from the pool belongs to `dest`.  A copy into a space
      without tables succeeds exactly if the pool has a frame for each user page and for each table that a space with
      those pages needs, and takes those. */
  method CopyUserPages(vm: VirtualMemoryManager, src: PageAddress, dest: PageAddress) returns (ok: bool)
    requires vm.Valid() && Copying(vm.T(), vm.pmm.free, src, dest)
    modifies vm`mem, vm`role, vm`at, vm.pmm`free, vm.pmm`free_pages, vm.pmm.bitmap
    ensures vm.Valid() && Kept(old(vm.T()), old(vm.pmm.free), vm.T(), vm.pmm.free, dest)
    ensures KernelShared(vm.T()) <==> old(KernelShared(vm.T()))
    ensures ok ==> forall ix: Index | ix.Ok() && ix.l4 == 0 ::
                     CopyOk(old(vm.T()), old(vm.pmm.free), vm.T(), src, dest, ix)
    ensures !ok ==> Exhausted(vm.pmm.free)
    ensures old(Bare(vm.T(), dest)) ==>
              && (ok <==> old(CopyCost(vm.mem, src)) <= |old(vm.pmm.free)|)
              && (ok ==> |old(vm.pmm.free)| - |vm.pmm.free| == old(CopyCost(vm.mem, src)))
  {
    ghost var t, free := vm.T(), vm.pmm.free;
    KeptAtStart(t, free, src, dest);
    TableOfVisit(t, free, t, free, src, dest, src, 0);
    var entry := vm.mem[src][0];
    if !entry.present {
      NothingToCopy(t, free, src, dest);
      return true;
    }
    ok := CopyDirectories(vm, src, dest, entry.addr, t, free);
    if ok { EveryPageCopied(t, free, vm.T(), vm.pmm.free, src, dest); }
    SharedBelow(t, vm.T(), dest, 0);
  }

  lemma KeptAtStart(t: Tables, free: set<nat>, src: PageAddress, dest: PageAddress)
    requires Copying(t, free, src, dest)
    ensures Kept(t, free, t, free, dest) && CopiedTo(t, free, t, free, src, dest, 0)
  {
    forall f: PageAddress ensures MovedOk(t.role, free, t.role, free, dest, 0, f) {
    }
    forall r: PageAddress, j: nat ensures RootKept(t, t, dest, 0, r, j) {
    }
    forall r: PageAddress, ix: Index ensures WalkKept(t, t, dest, r, ix) {
    }
    forall x: PageAddress ensures DataKept(t, free, t, x) {
    }
    forall ix: Index ensures PosOk(t, free, t, src, dest, 0, ix) {
    }
    assert PagesBefore(t.mem, src, 0) == {};
  }

  // ----- isolation

  /** The bytes a space sees at a page. */
  function PageAt(mem: Memory, root: PageAddress, ix: Index): Option<Page> {
    var w := Walk(mem, root, ix);
    if w.Some? && w.value.addr in mem then Some(mem[w.value.addr]) else None
  }

  /** A store through a user page of one private space changes what that space sees at that page, and nothing
      else that it or any other private space can reach in user mode. */
  lemma StoresAreIsolated(t: Tables, a: PageAddress, ix: Index, data: Page, b: PageAddress, jx: Index)
    requires WellFormed(t) && PrivateSpace(t, a) && PrivateSpace(t, b)
    requires ix.Ok() && jx.Ok() && ix.l4 == 0 && jx.l4 == 0 && UserPage(t.mem, a, ix).Some?
    ensures var mem' := t.mem[Walk(t.mem, a, ix).value.addr := data];
      && Walk(mem', b, jx) == Walk(t.mem, b, jx)
      && (UserPage(t.mem, b, jx).Some? ==>
            PageAt(mem', b, jx) == if b == a && jx == ix then Some(data) else PageAt(t.mem, b, jx))
  {
    PrivatePage(t, a, ix);
    var x := Walk(t.mem, a, ix).value.addr;
    WriteOutside(t, x, data);
    assert SameWalks(t, t.mem[x := data]) && IsRoot(t, b);
    if UserPage(t.mem, b, jx).Some? { PrivatePage(t, b, jx); }
  }

  /** The source sees what it saw, on frames that were not free. */
  lemma SourceStays(t: Tables, free: set<nat>, u: Tables, free': set<nat>, src: PageAddress, dest: PageAddress,
                    ix: Index)
    requires Copying(t, free, src, dest) && Kept(t, free, u, free', dest) && ix.Ok() && ix.l4 == 0
    ensures IsRoot(u, src) && UserPage(u.mem, src, ix) == UserPage(t.mem, src, ix)
    ensures UserPage(u.mem, src, ix).Some? ==>
              var a := Walk(u.mem, src, ix).value.addr;
              a in u.mem && a !in free && (a in u.role ==> u.role[a].Leaf?)
  {
    assert WalkKept(t, u, dest, src, ix) && SourceOk(t, free, src, ix);
    assert MovedOk(t.role, free, u.role, free', dest, 0, src);
    if UserPage(u.mem, src, ix).Some? {
      var a := Walk(u.mem, src, ix).value.addr;
      assert MovedOk(t.role, free, u.role, free', dest, 0, a) && DataKept(t, free, u, a);
    }
  }

  /** A store through a page of the copy is not seen by the source. */
  lemma CopyIsApart(t: Tables, free: set<nat>, u: Tables, free': set<nat>, src: PageAddress, dest: PageAddress,
                    ix: Index, data: Page, jx: Index)
    requires Copying(t, free, src, dest) && WellFormed(u) && Kept(t, free, u, free', dest)
    requires ix.Ok() && jx.Ok() && ix.l4 == 0 && jx.l4 == 0 && UserPage(t.mem, src, ix).Some?
    requires CopyOk(t, free, u, src, dest, ix)
    ensures var mem' := u.mem[Walk(u.mem, dest, ix).value.addr := data];
      && Walk(mem', src, jx) == Walk(u.mem, src, jx)
      && (UserPage(u.mem, src, jx).Some? ==> PageAt(mem', src, jx) == PageAt(u.mem, src, jx))
  {
    SourceStays(t, free, u, free', src, dest, jx);
    WriteOutside(u, Walk(u.mem, dest, ix).value.addr, data);
  }

  /** And a store through a page of the source is not seen by the copy. */
  lemma SourceIsApart(t: Tables, free: set<nat>, u: Tables, free': set<nat>, src: PageAddress, dest: PageAddress,
                      ix: Index, data: Page, jx: Index)
    requires Copying(t, free, src, dest) && WellFormed(u) && Kept(t, free, u, free', dest)
    requires ix.Ok() && jx.Ok() && ix.l4 == 0 && jx.l4 == 0 && UserPage(u.mem, src, ix).Some?
    requires CopyOk(t, free, u, src, dest, jx)
    ensures var mem' := u.mem[Walk(u.mem, src, ix).value.addr := data];
      Walk(mem', dest, jx) == Walk(u.mem, dest, jx) && PageAt(mem', dest, jx) == PageAt(u.mem, dest, jx)
  {
    SourceStays(t, free, u, free', src, dest, ix);
    assert MovedOk(t.role, free, u.role, free', dest, 0, dest);
    WriteOutside(u, Walk(u.mem, src, ix).value.addr, data);
  }

  /** A copy is isolated from its source, whatever that is: a store through a page of either is not seen by the
      other. */
  lemma CopyIsIsolated(t: Tables, free: set<nat>, u: Tables, free': set<nat>, src: PageAddress, dest: PageAddress,
                       ix: Index, data: Page, jx: Index)
    requires Copying(t, free, src, dest) && WellFormed(u) && Kept(t, free, u, free', dest)
    requires ix.Ok() && jx.Ok() && ix.l4 == 0 && jx.l4 == 0 && UserPage(t.mem, src, ix).Some?
    requires CopyOk(t, free, u, src, dest, ix) && CopyOk(t, free, u, src, dest, jx)
    ensures var mem' := u.mem[Walk(u.mem, dest, ix).value.addr := data];
      && Walk(mem', src, jx) == Walk(u.mem, src, jx)
      && (UserPage(u.mem, src, jx).Some? ==> PageAt(mem', src, jx) == PageAt(u.mem, src, jx))
    ensures UserPage(u.mem, src, ix) == UserPage(t.mem, src, ix)
    ensures var mem' := u.mem[Walk(u.mem, src, ix).value.addr := data];
      Walk(mem', dest, jx) == Walk(u.mem, dest, jx) && PageAt(mem', dest, jx) == PageAt(u.mem, dest, jx)
  {
    SourceStays(t, free, u, free', src, dest, ix);
    CopyIsApart(t, free, u, free', src, dest, ix, data, jx);
    SourceIsApart(t, free, u, free', src, dest, ix, data, jx);
  }

  /** The user pages of a private space can be copied. */
  lemma PrivateIsSource(t: Tables, free: set<nat>, src: PageAddress)
    requires WellFormed(t) && PrivateSpace(t, src) && forall f: PageAddress | f in t.role :: f !in free
    ensures forall ix: Index :: SourceOk(t, free, src, ix)
  {
    forall ix: Index ensures SourceOk(t, free, src, ix) {
      if ix.Ok() && ix.l4 == 0 && UserPage(t.mem, src, ix).Some? { PrivatePage(t, src, ix); }
    }
  }
}
