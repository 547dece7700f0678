/** The physical page allocator: one bit per 4 KiB page, 1 = used, built from the boot loader's memory map. */
module PageAllocator {
  import opened Bytes
  import opened Machine
  import opened Wrappers

  const MAX_PAGES := 65536
  const BITMAP_SIZE := 8192
  const MULTIBOOT2_MEMORY_AVAILABLE := 1

  datatype MemoryMapEntry = MemoryMapEntry(base_addr: nat, length: nat, kind: nat) {
    /** First page boundary inside the entry. */
    function Start(): nat { (base_addr + PAGE_SIZE - 1) / PAGE_SIZE * PAGE_SIZE }
    /** Last page boundary inside the entry. */
    function End(): nat { (base_addr + length) / PAGE_SIZE * PAGE_SIZE }

    predicate Usable() { kind == MULTIBOOT2_MEMORY_AVAILABLE && Start() < End() }
  }

  lemma UsableHasPages(e: MemoryMapEntry)
    requires e.Usable()
    ensures (e.End() - e.Start()) / PAGE_SIZE > 0 && e.Start() % PAGE_SIZE == 0
    ensures e.End() == e.Start() + (e.End() - e.Start()) / PAGE_SIZE * PAGE_SIZE
  {
    var p, q := (e.base_addr + PAGE_SIZE - 1) / PAGE_SIZE, (e.base_addr + e.length) / PAGE_SIZE;
    assert e.Start() == PAGE_SIZE * p && e.End() == PAGE_SIZE * q;
    assert e.End() - e.Start() == PAGE_SIZE * (q - p);
  }

  /** The page at `a` lies wholly inside an available entry of the map. */
  ghost predicate InAvailable(entries: seq<MemoryMapEntry>, a: nat) {
    exists i :: 0 <= i < |entries| && entries[i].kind == MULTIBOOT2_MEMORY_AVAILABLE
                && entries[i].base_addr <= a && a + PAGE_SIZE <= entries[i].base_addr + entries[i].length
  }

  /** The pages that lie wholly inside an available entry. */
  ghost function WholePages(e: MemoryMapEntry): set<nat> {
    if e.kind != MULTIBOOT2_MEMORY_AVAILABLE then {}
    else set a: nat | e.base_addr <= a < e.base_addr + e.length && a % PAGE_SIZE == 0
                      && a + PAGE_SIZE <= e.base_addr + e.length
  }

  /** How many there are in the whole map; a page that two entries contain counts twice. */
  ghost function PagesOfMap(entries: seq<MemoryMapEntry>): nat {
    if entries == [] then 0
    else PagesOfMap(entries[..|entries| - 1]) + |WholePages(entries[|entries| - 1])|
  }

  /** Entry `i` is the first that contains a page. */
  ghost predicate IsFirst(entries: seq<MemoryMapEntry>, i: int) {
    0 <= i < |entries| && entries[i].Usable() && forall j | 0 <= j < i :: !entries[j].Usable()
  }

  /** The first `n` pages from a boundary on. */
  ghost function PagesFrom(start: nat, n: nat): set<nat> {
    if n == 0 then {} else PagesFrom(start, n - 1) + {start + (n - 1) * PAGE_SIZE}
  }

  lemma {:induction false} PagesFromMeans(start: nat, n: nat)
    requires start % PAGE_SIZE == 0
    ensures |PagesFrom(start, n)| == n
    ensures forall a: nat :: a in PagesFrom(start, n) <==> start <= a < start + n * PAGE_SIZE && a % PAGE_SIZE == 0
  {
    if n > 0 {
      var last := start + (n - 1) * PAGE_SIZE;
      PagesFromMeans(start, n - 1);
      Boundary(start, n - 1);
      OnePageMore(PagesFrom(start, n - 1), start, last);
    }
  }

  lemma OnePageMore(pages: set<nat>, start: nat, last: nat)
    requires start <= last && last % PAGE_SIZE == 0
    requires forall a: nat :: a in pages <==> start <= a < last && a % PAGE_SIZE == 0
    ensures |pages + {last}| == |pages| + 1
    ensures forall a: nat :: a in pages + {last} <==> start <= a < last + PAGE_SIZE && a % PAGE_SIZE == 0
  {
    forall a: nat ensures a in pages + {last} <==> start <= a < last + PAGE_SIZE && a % PAGE_SIZE == 0 {
      OneBoundary(a, last);
    }
  }

  lemma Boundary(start: nat, n: nat)
    requires start % PAGE_SIZE == 0
    ensures (start + n * PAGE_SIZE) % PAGE_SIZE == 0
  {
    assert start + n * PAGE_SIZE == (start / PAGE_SIZE + n) * PAGE_SIZE;
  }

  lemma OneBoundary(a: nat, last: nat)
    requires last % PAGE_SIZE == 0
    ensures last <= a < last + PAGE_SIZE && a % PAGE_SIZE == 0 <==> a == last
  {
    if last <= a < last + PAGE_SIZE && a % PAGE_SIZE == 0 { OnlyPage(a, last); }
  }

  /** A page boundary lies in an available entry exactly when it lies between its first and last boundary. */
  lemma BoundaryInEntry(e: MemoryMapEntry, a: nat)
    requires a % PAGE_SIZE == 0
    ensures e.base_addr <= a && a + PAGE_SIZE <= e.base_addr + e.length <==> e.Start() <= a < e.End()
  {
  }

  /** The difference of the boundaries counts the pages of an entry, and an entry is usable exactly if it has any. */
  lemma WholePagesCount(e: MemoryMapEntry)
    ensures e.Usable() <==> WholePages(e) != {}
    ensures |WholePages(e)| == if e.Usable() then (e.End() - e.Start()) / PAGE_SIZE else 0
  {
    if e.Usable() {
      UsableHasPages(e);
      BoundaryInEntry(e, e.Start());
      ghost var n := (e.End() - e.Start()) / PAGE_SIZE;
      ghost var pages := PagesFrom(e.Start(), n);
      PagesFromMeans(e.Start(), n);
      forall a: nat ensures a in WholePages(e) <==> a in pages {
        if a % PAGE_SIZE == 0 { BoundaryInEntry(e, a); }
      }
      assert WholePages(e) == pages;
    } else {
      forall a: nat ensures a !in WholePages(e) {
        if a % PAGE_SIZE == 0 { BoundaryInEntry(e, a); }
      }
    }
  }

  /** The page at `a` has a byte in common with [start, end). */
  predicate Touches(a: nat, start: nat, end: nat) {
    a < end && start < a + PAGE_SIZE
  }

  // ----- page arithmetic

  lemma PageIndex(base: nat, addr: nat)
    requires base % PAGE_SIZE == 0 && addr % PAGE_SIZE == 0 && base <= addr
    ensures base + (addr - base) / PAGE_SIZE * PAGE_SIZE == addr && (addr - base) % PAGE_SIZE == 0
  {
    var x, y := base / PAGE_SIZE, addr / PAGE_SIZE;
    assert addr - base == PAGE_SIZE * (y - x);
  }

  lemma PageIsAligned(base: nat, addr: nat)
    requires base % PAGE_SIZE == 0 && base <= addr && (addr - base) % PAGE_SIZE == 0
    ensures addr % PAGE_SIZE == 0
  {
    var x, y := base / PAGE_SIZE, (addr - base) / PAGE_SIZE;
    assert addr == PAGE_SIZE * (x + y);
  }

  lemma OnlyPage(a: nat, addr: nat)
    requires a % PAGE_SIZE == 0 && addr % PAGE_SIZE == 0 && addr <= a < addr + PAGE_SIZE
    ensures a == addr
  {
    assert a == PAGE_SIZE * (a / PAGE_SIZE) && addr == PAGE_SIZE * (addr / PAGE_SIZE);
  }

  /** A page touches a region exactly if it lies between its ends, rounded outward. */
  lemma TouchesRounded(a: nat, start: nat, end: nat)
    requires a % PAGE_SIZE == 0 && start < end
    ensures Touches(a, start, end) <==>
              start / PAGE_SIZE * PAGE_SIZE <= a < (end + PAGE_SIZE - 1) / PAGE_SIZE * PAGE_SIZE
  {
    var q := a / PAGE_SIZE;
    assert a == PAGE_SIZE * q;
    assert start < PAGE_SIZE * (q + 1) <==> start / PAGE_SIZE <= q;
    assert PAGE_SIZE * q < end <==> q < (end + PAGE_SIZE - 1) / PAGE_SIZE;
  }

  lemma StepFits(addr: nat, last: nat)
    requires addr % PAGE_SIZE == 0 && last % PAGE_SIZE == 0 && addr < last
    ensures addr + PAGE_SIZE <= last && (addr + PAGE_SIZE) % PAGE_SIZE == 0
  {
    var p, q := addr / PAGE_SIZE, last / PAGE_SIZE;
    assert addr == PAGE_SIZE * p && last == PAGE_SIZE * q && p < q;
    assert addr + PAGE_SIZE == PAGE_SIZE * (p + 1);
  }

  lemma NextPage(addr: nat)
    requires addr % PAGE_SIZE == 0
    ensures (addr + PAGE_SIZE) % PAGE_SIZE == 0
  {
    assert addr + PAGE_SIZE == PAGE_SIZE * (addr / PAGE_SIZE + 1);
  }

  lemma RoundedUp(a: nat, k: nat)
    requires a % PAGE_SIZE == 0 && k <= a
    ensures (k + PAGE_SIZE - 1) / PAGE_SIZE * PAGE_SIZE <= a
  {
    var q := a / PAGE_SIZE;
    assert a == PAGE_SIZE * q && k + PAGE_SIZE - 1 < PAGE_SIZE * (q + 1);
    assert (k + PAGE_SIZE - 1) / PAGE_SIZE < q + 1;
  }

  // ----- counting

  /** The pages whose bit is clear, by index.  The bitmap reaches past the last managed page. */
  ghost function ClearBits(bitmap: seq<byte>): set<nat> {
    set i: nat | i < 8 * |bitmap| && !BitAt(bitmap, i)
  }

  lemma ClearAfterSet(bitmap: seq<byte>, k: nat)
    requires k < 8 * |bitmap|
    ensures ClearBits(WithBit(bitmap, k)) == ClearBits(bitmap) - {k}
  {
  }

  lemma ClearAfterClear(bitmap: seq<byte>, k: nat)
    requires k < 8 * |bitmap|
    ensures ClearBits(WithoutBit(bitmap, k)) == ClearBits(bitmap) + {k}
  {
  }

  lemma {:induction false} BoundedSize(s: set<nat>, n: nat)
    requires forall i | i in s :: i < n
    ensures |s| <= n
  {
    if n > 0 {
      BoundedSize(s - {n - 1}, n - 1);
      assert s <= s - {n - 1} + {n - 1};
    } else {
      assert s == {};
    }
  }

  lemma OneMoreEach(a: set<nat>, b: set<nat>, x: nat, y: nat, more: bool)
    requires |a| == |b| && x !in a && y !in b
    ensures |a + (if more then {x} else {})| == |b + (if more then {y} else {})|
  {
    if more {
      assert |a + {x}| == |a| + 1 && |b + {y}| == |b| + 1;
    } else {
      assert a + {} == a && b + {} == b;
    }
  }

  /** What a counter holds that is decremented `n` times, but never below zero. */
  function Less(counter: nat, n: nat): nat {
    if counter >= n then counter - n else 0
  }

  function Min(a: nat, b: nat): nat {
    if a <= b then a else b
  }

  /** A step of both the number and its 64-bit counter keeps their difference. */
  lemma StepKeepsDifference(number: int, counter: nat, step: int)
    requires step == 1 || step == -1
    ensures (number + step - (counter + step) % TWO64) % TWO64 == (number - counter) % TWO64
  {
    var q, r := (counter + step) / TWO64, (counter + step) % TWO64;
    var d := number - counter;
    assert number + step - r == d + q * TWO64;
    SameRemainder(d, q);
  }

  lemma SameRemainder(d: int, q: int)
    ensures (d + q * TWO64) % TWO64 == d % TWO64
  {
    var a, b := d / TWO64, d % TWO64;
    assert d + q * TWO64 == (a + q) * TWO64 + b;
  }

  /** The pages from an aligned base up to an address, the last one possibly in part. */
  lemma PagesBelow(base: nat, end: nat, j: nat)
    requires base % PAGE_SIZE == 0 && base < end
    requires base + j * PAGE_SIZE == (end + PAGE_SIZE - 1) / PAGE_SIZE * PAGE_SIZE
    ensures j == (end - base + PAGE_SIZE - 1) / PAGE_SIZE
  {
    var q := base / PAGE_SIZE;
    assert base == q * PAGE_SIZE && end + PAGE_SIZE - 1 == q * PAGE_SIZE + (end - base + PAGE_SIZE - 1);
  }

  class PhysicalMemoryManager {
    const bitmap: array<byte>
    var base: nat
    var pages: nat
    var free_pages: nat

    // The addresses of the pages that can be handed out.
    ghost var free: set<nat>

    /** `a` is one of the pages the allocator hands out and takes back. */
    ghost predicate Managed(a: nat)
      reads this`base, this`pages
    {
      base <= a && (a - base) % PAGE_SIZE == 0 && (a - base) / PAGE_SIZE < pages
    }

    predicate InRange(a: nat)
      reads this`base, this`pages
    {
      base <= a && (a - base) / PAGE_SIZE < pages
    }

    predicate InBitmap(a: nat)
      reads this`base
    {
      base <= a && (a - base) / PAGE_SIZE < MAX_PAGES
    }

    /** The page that contains `a`. */
    function PageOf(a: nat): nat
      reads this`base
      requires base <= a
    {
      base + (a - base) / PAGE_SIZE * PAGE_SIZE
    }

    /** The pages counted by `free_pages`, if it counts right. */
    ghost function Clear(): set<nat>
      reads bitmap
    {
      ClearBits(bitmap[..])
    }

    ghost predicate CountsRight()
      reads this`free_pages, bitmap
    {
      free_pages == |Clear()|
    }

    /** How many pages the counter misses; it counts in 64 bits. */
    ghost function Missed(): nat
      reads this`free_pages, bitmap
    {
      (|Clear()| - free_pages) % TWO64
    }

    /** There are far fewer pages than the counter can count. */
    lemma ClearIsSmall()
      requires bitmap.Length == BITMAP_SIZE
      ensures |Clear()| <= MAX_PAGES
    {
      BoundedSize(Clear(), MAX_PAGES);
    }

    /** A counter in 64 bits is right exactly if it misses no page. */
    lemma RightIff()
      requires bitmap.Length == BITMAP_SIZE && free_pages < TWO64
      ensures CountsRight() <==> Missed() == 0
    {
      ClearIsSmall();
      var d := |Clear()| - free_pages;
      assert -TWO64 < d < TWO64;
    }

    ghost predicate FreeOk(a: nat)
      reads this`base, this`pages, this`free, bitmap
      requires bitmap.Length == BITMAP_SIZE && pages <= MAX_PAGES
    {
      a in free <==> Managed(a) && !BitAt(bitmap[..], (a - base) / PAGE_SIZE)
    }

    ghost predicate Valid()
      reads this, bitmap
    {
      && bitmap.Length == BITMAP_SIZE && pages <= MAX_PAGES
      && forall a: nat :: FreeOk(a)
    }

    method SetBitOf(i: nat)
      requires bitmap.Length == BITMAP_SIZE && i < MAX_PAGES
      modifies bitmap
      ensures bitmap[..] == WithBit(old(bitmap[..]), i)
    {
      BitOpsOnByte(bitmap[i / 8], i % 8);
      bitmap[i / 8] := SetBit(bitmap[i / 8], i % 8);
    }

    method ClearBitOf(i: nat)
      requires bitmap.Length == BITMAP_SIZE && i < MAX_PAGES
      modifies bitmap
      ensures bitmap[..] == WithoutBit(old(bitmap[..]), i)
    {
      BitOpsOnByte(bitmap[i / 8], i % 8);
      bitmap[i / 8] := ClearBit(bitmap[i / 8], i % 8);
    }

    /** Page `i` is no longer free, whatever it was. */
    method MarkUsed(i: nat)
      requires Valid() && i < pages
      modifies this`free, bitmap
      ensures Valid() && free == old(free) - {base + i * PAGE_SIZE} && Clear() == old(Clear()) - {i}
    {
      ClearAfterSet(bitmap[..], i);
      SetBitOf(i);
      free := free - {base + i * PAGE_SIZE};
      forall a: nat ensures FreeOk(a) {
        assert old(FreeOk(a));
      }
    }

    /** Page `i`, which was free, is handed out. */
    method TakePage(i: nat)
      requires Valid() && i < pages && !BitAt(bitmap[..], i)
      modifies this`free, this`free_pages, bitmap
      ensures Valid() && free == old(free) - {base + i * PAGE_SIZE}
      ensures Missed() == old(Missed()) && free_pages < TWO64 && |Clear()| == |old(Clear())| - 1
    {
      assert i in Clear();
      StepKeepsDifference(|Clear()|, free_pages, -1);
      MarkUsed(i);
      free_pages := (free_pages - 1) % TWO64;
    }

    /** If the first `n` pages are in use, a free page lies behind them. */
    lemma FreeBehind(a: nat, n: nat)
      requires Valid() && a in free && n <= pages && forall k | 0 <= k < n :: BitAt(bitmap[..], k)
      ensures base + n * PAGE_SIZE <= a && n < pages
    {
      assert FreeOk(a);
      var k := (a - base) / PAGE_SIZE;
      assert k >= n;
      assert a - base == PAGE_SIZE * k;
    }

    /** The lowest free page. */
    method Allocate() returns (r: Option<nat>)
      requires Valid()
      modifies this`free, this`free_pages, bitmap
      ensures Valid() && Missed() == old(Missed())
      ensures r == None ==> free == old(free) == {} && Clear() == old(Clear())
      ensures old(free_pages) < TWO64 ==> free_pages < TWO64
      ensures r.Some? ==> r.value in old(free) && free == old(free) - {r.value} && |Clear()| == |old(Clear())| - 1
      ensures r.Some? ==> forall a | a in old(free) :: r.value <= a
    {
      var i := 0;
      while i < pages
        invariant 0 <= i <= pages
        invariant bitmap[..] == old(bitmap[..]) && free == old(free) && Valid()
        invariant forall k | 0 <= k < i :: BitAt(bitmap[..], k)
      {
        if !BitAt(bitmap[..], i) {
          assert FreeOk(base + i * PAGE_SIZE);
          forall a | a in free ensures base + i * PAGE_SIZE <= a { FreeBehind(a, i); }
          TakePage(i);
          return Some(base + i * PAGE_SIZE);
        }
        i := i + 1;
      }
      forall a | a in free ensures false { FreeBehind(a, i); }
      return None;
    }

    /** Takes a page back.  Addresses outside the managed range and pages that are free are ignored. */
    method Free(page_address: Option<nat>)
      requires Valid()
      modifies this`free, this`free_pages, bitmap
      ensures Valid()
      ensures page_address.Some? && InRange(page_address.value) ==> free == old(free) + {PageOf(page_address.value)}
      ensures page_address == None || !InRange(page_address.value) ==> free == old(free)
      ensures Missed() == old(Missed()) && (old(free_pages) < TWO64 ==> free_pages < TWO64)
      ensures Clear() == if page_address.Some? && InBitmap(page_address.value)
                         then old(Clear()) + {(page_address.value - base) / PAGE_SIZE} else old(Clear())
    {
      if page_address == None || page_address.value < base {
        return;
      }
      var i := (page_address.value - base) / PAGE_SIZE;
      if i >= MAX_PAGES {
        return;
      }
      FreeBit(i);
    }

    /** Page `i` is taken back, unless it is free. */
    method FreeBit(i: nat)
      requires Valid() && i < MAX_PAGES
      modifies this`free, this`free_pages, bitmap
      ensures Valid() && free == if i < pages then old(free) + {base + i * PAGE_SIZE} else old(free)
      ensures Clear() == old(Clear()) + {i}
      ensures Missed() == old(Missed()) && (old(free_pages) < TWO64 ==> free_pages < TWO64)
    {
      if BitAt(bitmap[..], i) {
        Unreserve(i);
      } else {
        assert i in Clear();
        if i < pages { assert FreeOk(base + i * PAGE_SIZE); }
      }
    }

    /** Page `i` is free; the bitmap also has bits past the last managed page. */
    method MarkFree(i: nat)
      requires Valid() && i < MAX_PAGES
      modifies this`free, bitmap
      ensures Valid() && free == if i < pages then old(free) + {base + i * PAGE_SIZE} else old(free)
      ensures Clear() == old(Clear()) + {i}
    {
      ClearAfterClear(bitmap[..], i);
      ClearBitOf(i);
      if i < pages {
        free := free + {base + i * PAGE_SIZE};
      }
      forall a: nat ensures FreeOk(a) {
        assert old(FreeOk(a));
      }
    }

    /** Page `i`, which was used, is taken back. */
    method Unreserve(i: nat)
      requires Valid() && i < MAX_PAGES && BitAt(bitmap[..], i)
      modifies this`free, this`free_pages, bitmap
      ensures Valid() && free == if i < pages then old(free) + {base + i * PAGE_SIZE} else old(free)
      ensures Clear() == old(Clear()) + {i} && i !in old(Clear())
      ensures free_pages == (old(free_pages) + 1) % TWO64 && Missed() == old(Missed())
    {
      StepKeepsDifference(|Clear()|, free_pages, 1);
      MarkFree(i);
      free_pages := (free_pages + 1) % TWO64;
    }

    // ----- construction

    /** The first loop of the constructor: where the first usable entry starts, and how many whole pages
        there are in all. */
    method Measure(entries: seq<MemoryMapEntry>) returns (total: nat, base_found: nat)
      ensures total == PagesOfMap(entries)
      ensures total > 0 ==> exists i :: IsFirst(entries, i) && base_found == entries[i].Start()
      ensures total == 0 ==> forall i | 0 <= i < |entries| :: !entries[i].Usable()
      ensures base_found % PAGE_SIZE == 0
    {
      total, base_found := 0, 0;
      ghost var first := 0;
      var i := 0;
      assert entries[..0] == [];
      while i < |entries|
        invariant 0 <= i <= |entries| && base_found % PAGE_SIZE == 0
        invariant total == PagesOfMap(entries[..i])
        invariant total == 0 ==> forall j | 0 <= j < i :: !entries[j].Usable()
        invariant total > 0 ==> IsFirst(entries, first) && base_found == entries[first].Start()
      {
        assert entries[..i + 1][..i] == entries[..i];
        WholePagesCount(entries[i]);
        if entries[i].Usable() {
          UsableHasPages(entries[i]);
          if total == 0 {
            base_found := entries[i].Start();
            first := i;
          }
          total := total + (entries[i].End() - entries[i].Start()) / PAGE_SIZE;
        }
        i := i + 1;
      }
      assert entries[..|entries|] == entries;
    }

    /** The pages of the first `n` entries that the second loop frees. */
    ghost predicate Freed(entries: seq<MemoryMapEntry>, n: nat, kernel_end: nat, a: nat)
      requires n <= |entries|
    {
      kernel_end <= a && InAvailable(entries[..n], a)
    }

    /** The second loop: every whole page of a usable entry that is not the kernel's becomes free. */
    method FreeAvailable(entries: seq<MemoryMapEntry>, kernel_end: nat)
      requires Valid() && base % PAGE_SIZE == 0 && free == {} && CountsRight()
      modifies this`free, this`free_pages, bitmap
      ensures Valid() && forall a: nat :: a in free <==> Managed(a) && kernel_end <= a && InAvailable(entries, a)
      ensures CountsRight()
    {
      var i := 0;
      while i < |entries|
        invariant 0 <= i <= |entries| && Valid() && CountsRight()
        invariant forall a: nat :: a in free <==> Managed(a) && Freed(entries, i, kernel_end, a)
      {
        FreeEntry(entries, i, kernel_end);
        i := i + 1;
      }
      assert entries[..|entries|] == entries;
    }

    lemma FreedByEntry(entries: seq<MemoryMapEntry>, i: nat, kernel_end: nat, a: nat)
      requires i < |entries| && a % PAGE_SIZE == 0
      ensures Freed(entries, i + 1, kernel_end, a) <==>
                Freed(entries, i, kernel_end, a) || (entries[i].Usable() && kernel_end <= a
                                                     && entries[i].Start() <= a < entries[i].End())
    {
      BoundaryInEntry(entries[i], a);
      assert entries[..i + 1][i] == entries[i];
      assert forall j | 0 <= j < i :: entries[..i + 1][j] == entries[..i][j];
      if InAvailable(entries[..i], a) {
        var j :| 0 <= j < i && entries[..i][j].kind == MULTIBOOT2_MEMORY_AVAILABLE
                 && entries[..i][j].base_addr <= a
                 && a + PAGE_SIZE <= entries[..i][j].base_addr + entries[..i][j].length;
        assert entries[..i + 1][j] == entries[..i][j];
      }
    }

    method FreeEntry(entries: seq<MemoryMapEntry>, i: nat, kernel_end: nat)
      requires Valid() && base % PAGE_SIZE == 0 && i < |entries| && CountsRight()
      requires forall a: nat :: a in free <==> Managed(a) && Freed(entries, i, kernel_end, a)
      modifies this`free, this`free_pages, bitmap
      ensures Valid() && forall a: nat :: a in free <==> Managed(a) && Freed(entries, i + 1, kernel_end, a)
      ensures CountsRight()
    {
      if entries[i].Usable() {
        FreePages(entries[i].Start(), entries[i].End(), kernel_end);
      }
      forall a: nat ensures a in free <==> Managed(a) && Freed(entries, i + 1, kernel_end, a) {
        if Managed(a) { FreedByEntry(entries, i, kernel_end, a); }
      }
    }

    /** One call of `free` in the second loop. */
    method FreePage(addr: nat)
      requires Valid() && base % PAGE_SIZE == 0 && addr % PAGE_SIZE == 0 && CountsRight()
      modifies this`free, this`free_pages, bitmap
      ensures Valid() && CountsRight() && free == if InRange(addr) then old(free) + {addr} else old(free)
    {
      ClearIsSmall();
      if addr >= base { PageIndex(base, addr); }
      Free(Some(addr));
      RightIff();
    }

    method FreePages(start: nat, end: nat, kernel_end: nat)
      requires Valid() && base % PAGE_SIZE == 0 && start % PAGE_SIZE == 0 && end % PAGE_SIZE == 0 && start <= end
      requires CountsRight()
      modifies this`free, this`free_pages, bitmap
      ensures CountsRight()
      ensures Valid() && forall a: nat :: a in free <==>
                                            a in old(free) || (Managed(a) && kernel_end <= a && start <= a < end)
    {
      var addr := start;
      while addr < end
        invariant start <= addr <= end && addr % PAGE_SIZE == 0 && Valid() && CountsRight()
        invariant forall a: nat :: a in free <==> a in old(free) || (Managed(a) && kernel_end <= a && start <= a < addr)
        decreases end - addr
      {
        ghost var before := free;
        if addr >= kernel_end {
          FreePage(addr);
        }
        NextPage(addr);
        if addr < end { RoundedUp(end, addr + 1); }
        forall a: nat ensures a in free <==> a in old(free)
                                             || (Managed(a) && kernel_end <= a && start <= a < addr + PAGE_SIZE)
        {
          FreedHere(before, addr, kernel_end, a);
        }
        addr := addr + PAGE_SIZE;
      }
    }

    /** Of the addresses of one page only its first is a page. */
    lemma FreedHere(before: set<nat>, addr: nat, kernel_end: nat, a: nat)
      requires base % PAGE_SIZE == 0 && addr % PAGE_SIZE == 0
      requires free == if addr >= kernel_end && InRange(addr) then before + {addr} else before
      ensures a in free <==> a in before || (Managed(a) && kernel_end <= a && addr <= a < addr + PAGE_SIZE)
    {
      if addr >= base { PageIndex(base, addr); }
      if Managed(a) && addr <= a < addr + PAGE_SIZE {
        PageIsAligned(base, a);
        OnlyPage(a, addr);
      }
    }

    /** Marks page `i` used. */
    method Reserve(i: nat)
      requires Valid() && i < pages
      modifies this`free, this`free_pages, bitmap
      ensures Valid() && free == old(free) - {base + i * PAGE_SIZE}
      ensures Clear() == old(Clear()) - {i} && free_pages == Less(old(free_pages), 1)
    {
      MarkUsed(i);
      if free_pages > 0 {
        free_pages := free_pages - 1;
      }
    }

    /** Reserves every managed page that has a byte in [start, end). */
    method ReserveRegion(start: nat, end: nat)
      requires Valid() && base % PAGE_SIZE == 0
      modifies this`free, this`free_pages, bitmap
      ensures Valid()
      ensures forall a: nat :: a in free <==> a in old(free) && !(start < end && Touches(a, start, end))
      ensures |Clear()| <= |old(Clear())| && free_pages == Less(old(free_pages), |old(Clear())| - |Clear()|)
    {
      if end <= start {
        return;
      }
      var first_page := start / PAGE_SIZE * PAGE_SIZE;
      var last_page := (end + PAGE_SIZE - 1) / PAGE_SIZE * PAGE_SIZE;
      ReservePages(first_page, last_page);
      forall a: nat ensures a in free <==> a in old(free) && !Touches(a, start, end) {
        if a in old(free) {
          assert old(FreeOk(a));
          PageIsAligned(base, a);
          TouchesRounded(a, start, end);
        }
      }
    }

    /** The loop of `reserve_region`. */
    method ReservePages(first_page: nat, last_page: nat)
      requires Valid() && base % PAGE_SIZE == 0 && first_page % PAGE_SIZE == 0 && last_page % PAGE_SIZE == 0
               && first_page <= last_page
      modifies this`free, this`free_pages, bitmap
      ensures Valid() && forall a: nat :: a in free <==> a in old(free) && !(first_page <= a < last_page)
      ensures |Clear()| <= |old(Clear())| && free_pages == Less(old(free_pages), |old(Clear())| - |Clear()|)
    {
      var addr := first_page;
      while addr < last_page
        invariant first_page <= addr <= last_page && addr % PAGE_SIZE == 0 && Valid()
        invariant forall a: nat :: a in free <==> a in old(free) && !(first_page <= a < addr)
        invariant |Clear()| <= |old(Clear())| && free_pages == Less(old(free_pages), |old(Clear())| - |Clear()|)
        decreases last_page - addr
      {
        ghost var before := free;
        forall a | a in before ensures Managed(a) {
          assert FreeOk(a);
        }
        ReservePage(addr);
        StepFits(addr, last_page);
        forall a: nat ensures a in free <==> a in before && !(addr <= a < addr + PAGE_SIZE) {
          TakenHere(before, addr, a);
        }
        addr := addr + PAGE_SIZE;
      }
    }

    /** One round of it; a page that is used already is not subtracted from the counter again. */
    method ReservePage(addr: nat)
      requires Valid() && base % PAGE_SIZE == 0 && addr % PAGE_SIZE == 0
      modifies this`free, this`free_pages, bitmap
      ensures Valid() && free == old(free) - {addr}
      ensures |Clear()| <= |old(Clear())| && free_pages == Less(old(free_pages), |old(Clear())| - |Clear()|)
    {
      if addr >= base { PageIndex(base, addr); }
      assert FreeOk(addr);
      if addr >= base && (addr - base) / PAGE_SIZE < pages && !BitAt(bitmap[..], (addr - base) / PAGE_SIZE) {
        assert (addr - base) / PAGE_SIZE in Clear();
        Reserve((addr - base) / PAGE_SIZE);
      }
    }

    lemma TakenHere(before: set<nat>, addr: nat, a: nat)
      requires Valid() && base % PAGE_SIZE == 0 && addr % PAGE_SIZE == 0 && free == before - {addr}
      requires a in before ==> Managed(a)
      ensures a in free <==> a in before && !(addr <= a < addr + PAGE_SIZE)
    {
      if a in before && addr <= a < addr + PAGE_SIZE {
        PageIsAligned(base, a);
        OnlyPage(a, addr);
      }
    }

    /** The managed pages with a byte below `kernel_end`, as the kernel loop counts them. */
    function KernelPages(kernel_end: nat): nat
      reads this`base, this`pages
    {
      if kernel_end <= base then 0 else Min(pages, (kernel_end - base + PAGE_SIZE - 1) / PAGE_SIZE)
    }

    /** The loop over the kernel's pages, none of which is free any more.  Each is subtracted from the counter
        all the same. */
    method ReserveKernel(kernel_end: nat)
      requires Valid() && base % PAGE_SIZE == 0 && forall a | a in free :: kernel_end <= a
      modifies this`free, this`free_pages, bitmap
      ensures Valid() && free == old(free) && Clear() == old(Clear())
      ensures free_pages == Less(old(free_pages), KernelPages(kernel_end))
    {
      var kernel_end_page := (kernel_end + PAGE_SIZE - 1) / PAGE_SIZE * PAGE_SIZE;
      var addr := base;
      forall a | a in free ensures kernel_end_page <= a {
        assert FreeOk(a);
        PageIsAligned(base, a);
        RoundedUp(a, kernel_end);
      }
      ghost var before, j := free, 0;
      while addr < kernel_end_page
        invariant addr == base + j * PAGE_SIZE && addr % PAGE_SIZE == 0 && (j == 0 || addr <= kernel_end_page)
        invariant Valid() && free == before && Clear() == old(Clear())
        invariant free_pages == Less(old(free_pages), Min(pages, j))
        decreases kernel_end_page - addr
      {
        var i := (addr - base) / PAGE_SIZE;
        PageIndex(base, addr);
        NextPage(addr);
        StepFits(addr, kernel_end_page);
        if i < pages {
          assert FreeOk(addr);
          Reserve(i);
        }
        addr, j := addr + PAGE_SIZE, j + 1;
      }
      if base < kernel_end { PagesBelow(base, kernel_end, j); }
    }

    /** How often the counter is decremented for a page whose bit was not clear: once for every managed page
        below the end of the kernel, and once more for page 0. */
    function Uncounted(kernel_end: nat): nat
      reads this`base, this`pages
    {
      var k := KernelPages(kernel_end);
      if base == 0 && k > 0 then k + 1 else k
    }

    /** Page 0 is not handed out; the counter goes down even if it was not free. */
    method ReserveNullPage()
      requires Valid() && pages > 0
      modifies this`free, this`free_pages, bitmap
      ensures Valid() && free == old(free) - {0}
      ensures Clear() == if base == 0 then old(Clear()) - {0} else old(Clear())
      ensures free_pages == if base == 0 then Less(old(free_pages), 1) else old(free_pages)
      ensures base == 0 ==> (0 in old(Clear()) <==> 0 in old(free))
    {
      assert FreeOk(0);
      if base == 0 {
        Reserve(0);
      }
    }

    /** The part of the constructor after `base` and `pages` are known.  The kernel loop is a second
        precaution: no page it reserves was free.  `info_size` is the size of the boot information. */
    method ReserveBootAreas(kernel_end: nat, multiboot_address: u32, info_size: u32)
      requires Valid() && base % PAGE_SIZE == 0 && CountsRight() && pages > 0
      requires forall a | a in free :: kernel_end <= a
      requires base == 0 && kernel_end == 0 ==> 0 in free
      modifies this`free, this`free_pages, bitmap
      ensures Valid()
      ensures forall a: nat :: a in free <==>
                a in old(free) && a != 0 && !InInfo(multiboot_address, info_size, a)
      ensures free_pages == Less(|Clear()|, Uncounted(kernel_end))
    {
      ReserveNullPage();
      ReserveKernel(kernel_end);
      ReserveRegion(multiboot_address, (multiboot_address + info_size) % TWO32);
    }

    /** Builds the allocator from the memory map.  It manages as many pages as the available entries contain, or
        65536, from the first page of the first such entry on.  A page is free exactly when the allocator manages it,
        it lies wholly inside an available entry, at or above the end of the kernel, is not page 0 and has no byte in
        common with the boot information. */
    constructor (entries: seq<MemoryMapEntry>, kernel_end: nat, multiboot_address: u32, info_size: u32)
      ensures Valid() && fresh(bitmap) && base % PAGE_SIZE == 0
      ensures pages == Min(MAX_PAGES, PagesOfMap(entries))
      ensures pages > 0 ==> exists i :: IsFirst(entries, i) && base == entries[i].Start()
      ensures forall a: nat :: a in free <==>
                Managed(a) && InAvailable(entries, a) && kernel_end <= a && a != 0
                && !InInfo(multiboot_address, info_size, a)
      ensures free_pages == Less(|Clear()|, Uncounted(kernel_end)) && |Clear()| <= MAX_PAGES
      ensures CountsRight() <==> kernel_end <= base || Clear() == {}
    {
      bitmap := new byte[BITMAP_SIZE](_ => 0xFF);
      base, pages, free_pages, free := 0, 0, 0, {};
      new;
      AllBitsSet(bitmap[..]);
      var total, base_found := Measure(entries);
      if total == 0 {
        return;
      }
      base := base_found;
      pages := if total > MAX_PAGES then MAX_PAGES else total;
      FreeAvailable(entries, kernel_end);
      ReserveBootAreas(kernel_end, multiboot_address, info_size);
      ClearIsSmall();
    }

    // ----- the counter and the pool

    /** Clear bits past the last managed page: `free` accepts these pages too, but none is ever handed out. */
    ghost function Surplus(): set<nat>
      reads this`pages, bitmap
    {
      set i | i in Clear() && i >= pages
    }

    /** The free pages at indices below `n`. */
    ghost function FreeBelow(n: nat): set<nat>
      reads this`base, this`free
    {
      set a | a in free && a < base + n * PAGE_SIZE
    }

    ghost function ClearBelow(n: nat): set<nat>
      reads bitmap
    {
      set i | i in Clear() && i < n
    }

    lemma OneMoreFree(n: nat) returns (a: nat)
      requires Valid() && n < pages
      ensures FreeBelow(n + 1) == FreeBelow(n) + (if n in Clear() then {a} else {}) && a !in FreeBelow(n)
    {
      a := base + n * PAGE_SIZE;
      assert FreeOk(a);
      forall b | b in free ensures b < a + PAGE_SIZE ==> b <= a {
        assert FreeOk(b);
        var k := (b - base) / PAGE_SIZE;
        assert b == base + k * PAGE_SIZE;
      }
    }

    lemma OneMoreClear(n: nat)
      ensures ClearBelow(n + 1) == ClearBelow(n) + (if n in Clear() then {n} else {}) && n !in ClearBelow(n)
    {
    }

    lemma NoneFreeBelow()
      requires Valid()
      ensures FreeBelow(0) == {} && ClearBelow(0) == {}
    {
      forall a | a in free ensures base <= a {
        assert FreeOk(a);
      }
    }

    lemma StepAsMany(n: nat)
      requires Valid() && n < pages && |FreeBelow(n)| == |ClearBelow(n)|
      ensures |FreeBelow(n + 1)| == |ClearBelow(n + 1)|
    {
      var a := OneMoreFree(n);
      OneMoreClear(n);
      OneMoreEach(FreeBelow(n), ClearBelow(n), a, n, n in Clear());
    }

    lemma {:induction false} AsManyFreeAsClear(n: nat)
      requires Valid() && n <= pages
      ensures |FreeBelow(n)| == |ClearBelow(n)|
    {
      if n == 0 {
        NoneFreeBelow();
      } else {
        AsManyFreeAsClear(n - 1);
        StepAsMany(n - 1);
      }
    }

    /** After construction the counter is the number of pages that can be handed out exactly if as many surplus
        pages were counted as pages were missed, or if there is nothing to hand out and no surplus left. */
    lemma CounterAndPool(kernel_end: nat)
      requires Valid() && free_pages == Less(|Clear()|, Uncounted(kernel_end))
      ensures |Clear()| == |free| + |Surplus()|
      ensures free_pages == |free| <==>
                |Surplus()| == Uncounted(kernel_end) || (free == {} && |Surplus()| < Uncounted(kernel_end))
    {
      AsManyFreeAsClear(pages);
      forall a | a in free ensures a in FreeBelow(pages) {
        assert FreeOk(a);
      }
      assert FreeBelow(pages) == free && Clear() == ClearBelow(pages) + Surplus();
    }
  }

  /** The page at `a` meets the region that is reserved for the boot information.  Its end is computed in
      32 bits, so the region is empty when the sum wraps. */
  predicate InInfo(multiboot_address: u32, info_size: u32, a: nat) {
    var end := (multiboot_address + info_size) % TWO32;
    multiboot_address < end && Touches(a, multiboot_address, end)
  }

  /** What `InInfo` protects is the boot information exactly when its end does not reach 4 GiB. */
  lemma InfoIsProtected(multiboot_address: u32, info_size: u32)
    requires info_size > 0
    ensures (forall a: nat | a % PAGE_SIZE == 0 && Touches(a, multiboot_address, multiboot_address + info_size) ::
               InInfo(multiboot_address, info_size, a))
            <==> multiboot_address + info_size < TWO32
  {
    var a := multiboot_address / PAGE_SIZE * PAGE_SIZE;
    assert a % PAGE_SIZE == 0 && Touches(a, multiboot_address, multiboot_address + info_size);
    if multiboot_address + info_size >= TWO32 {
      assert !InInfo(multiboot_address, info_size, a);
    }
  }

  lemma {:induction false} OnesHaveAllBits(i: nat)
    requires i < 8
    ensures Bit(0xFF, i)
  {
    assert 0xFF / 2 == 127 && 127 / 2 == 63 && 63 / 2 == 31 && 31 / 2 == 15 && 15 / 2 == 7 && 7 / 2 == 3 && 3 / 2 == 1;
    OnesBelow(8, i);
  }

  lemma {:induction false} OnesBelow(k: nat, i: nat)
    requires i < k
    ensures Bit(Pow2(k) - 1, i)
    decreases i
  {
    assert (Pow2(k) - 1) / 2 == Pow2(k - 1) - 1 && (Pow2(k) - 1) % 2 == 1;
    if i > 0 { OnesBelow(k - 1, i - 1); }
  }

  lemma AllBitsSet(bitmap: seq<byte>)
    requires forall i | 0 <= i < |bitmap| :: bitmap[i] == 0xFF
    ensures forall i | 0 <= i < 8 * |bitmap| :: BitAt(bitmap, i)
  {
    forall i | 0 <= i < 8 * |bitmap| ensures BitAt(bitmap, i) {
      OnesHaveAllBits(i % 8);
    }
  }

  // ----- which pages are managed

  /** The pages managed are the first of those between `base` and the end, gaps included: all pages of the map are
      managed exactly if each usable entry lies between them.  A gap between two entries costs as many pages at
      the end as there are in it. */
  lemma AllManaged(pmm: PhysicalMemoryManager, entries: seq<MemoryMapEntry>)
    requires pmm.base % PAGE_SIZE == 0
    ensures (forall a: nat | a % PAGE_SIZE == 0 && InAvailable(entries, a) :: pmm.Managed(a))
            <==> forall i | 0 <= i < |entries| && entries[i].Usable() ::
                   pmm.base <= entries[i].Start() && entries[i].End() <= pmm.base + pmm.pages * PAGE_SIZE
  {
    var last := pmm.base + pmm.pages * PAGE_SIZE;
    Boundary(pmm.base, pmm.pages);
    forall a: nat | a % PAGE_SIZE == 0 ensures pmm.Managed(a) <==> pmm.base <= a < last {
      ManagedMeans(pmm, a);
    }
    if forall a: nat | a % PAGE_SIZE == 0 && InAvailable(entries, a) :: pmm.Managed(a) {
      forall i | 0 <= i < |entries| && entries[i].Usable()
        ensures pmm.base <= entries[i].Start() && entries[i].End() <= last
      {
        EndsAreInside(entries, i, pmm.base, last);
      }
    } else {
      var a: nat :| a % PAGE_SIZE == 0 && InAvailable(entries, a) && !pmm.Managed(a);
      var i :| 0 <= i < |entries| && entries[i].kind == MULTIBOOT2_MEMORY_AVAILABLE
               && entries[i].base_addr <= a && a + PAGE_SIZE <= entries[i].base_addr + entries[i].length;
      BoundaryInEntry(entries[i], a);
    }
  }

  lemma ManagedMeans(pmm: PhysicalMemoryManager, a: nat)
    requires pmm.base % PAGE_SIZE == 0 && a % PAGE_SIZE == 0
    ensures pmm.Managed(a) <==> pmm.base <= a < pmm.base + pmm.pages * PAGE_SIZE
  {
    if pmm.base <= a { PageIndex(pmm.base, a); }
  }

  /** The first and the last page of an entry. */
  lemma EndsAreInside(entries: seq<MemoryMapEntry>, i: nat, base: nat, last: nat)
    requires i < |entries| && entries[i].Usable() && base % PAGE_SIZE == 0 && last % PAGE_SIZE == 0
    requires forall a: nat | a % PAGE_SIZE == 0 && InAvailable(entries, a) :: base <= a < last
    ensures base <= entries[i].Start() && entries[i].End() <= last
  {
    var e := entries[i];
    UsableHasPages(e);
    var a := e.End() - PAGE_SIZE;
    assert e.End() == PAGE_SIZE * ((e.base_addr + e.length) / PAGE_SIZE);
    assert a == PAGE_SIZE * ((e.base_addr + e.length) / PAGE_SIZE - 1);
    BoundaryInEntry(e, e.Start());
    BoundaryInEntry(e, a);
    assert InAvailable(entries, e.Start()) && InAvailable(entries, a);
    StepFits(a, last);
  }

  /** With one usable entry of at most 65536 pages every page of it is managed. */
  lemma OneEntryIsManaged(pmm: PhysicalMemoryManager, entries: seq<MemoryMapEntry>, i: nat, a: nat)
    requires i < |entries| && entries[i].Usable() && forall j | 0 <= j < |entries| && j != i :: !entries[j].Usable()
    requires (entries[i].End() - entries[i].Start()) / PAGE_SIZE <= MAX_PAGES
    requires pmm.pages == Min(MAX_PAGES, PagesOfMap(entries))
    requires pmm.pages > 0 ==> exists k :: IsFirst(entries, k) && pmm.base == entries[k].Start()
    ensures pmm.pages == |WholePages(entries[i])|
    ensures a in WholePages(entries[i]) <==> pmm.Managed(a)
  {
    var e := entries[i];
    OnlyEntryCounts(entries, i);
    UsableHasPages(e);
    WholePagesCount(e);
    PagesFromMeans(e.Start(), pmm.pages);
    if a % PAGE_SIZE == 0 {
      BoundaryInEntry(e, a);
      if pmm.base <= a { PageIndex(pmm.base, a); }
    } else if pmm.Managed(a) {
      PageIsAligned(pmm.base, a);
    }
  }

  lemma {:induction false} OnlyEntryCounts(entries: seq<MemoryMapEntry>, i: nat)
    requires i < |entries| && forall j | 0 <= j < |entries| && j != i :: !entries[j].Usable()
    ensures PagesOfMap(entries) == |WholePages(entries[i])|
  {
    var n := |entries| - 1;
    if i == n {
      NoneCounts(entries[..n]);
    } else {
      WholePagesCount(entries[n]);
      OnlyEntryCounts(entries[..n], i);
    }
  }

  lemma {:induction false} NoneCounts(entries: seq<MemoryMapEntry>)
    requires forall j | 0 <= j < |entries| :: !entries[j].Usable()
    ensures PagesOfMap(entries) == 0
  {
    if entries != [] {
      WholePagesCount(entries[|entries| - 1]);
      NoneCounts(entries[..|entries| - 1]);
    }
  }

  // ----- runs

  /** What a client does next: ask for a page, or give back one of those it holds. */
  datatype Request = Take | GiveBack(which: nat)

  /** A page that may be handed out at all. */
  ghost predicate Usable(entries: seq<MemoryMapEntry>, kernel_end: nat, multiboot_address: u32, info_size: u32,
                         a: nat) {
    InAvailable(entries, a) && kernel_end <= a && a != 0 && !InInfo(multiboot_address, info_size, a)
  }

  /** The pages held and the pages free are together exactly the usable managed ones; none is held twice or
      held and free. */
  ghost predicate Shared(pmm: PhysicalMemoryManager, held: seq<nat>, entries: seq<MemoryMapEntry>, kernel_end: nat,
                         multiboot_address: u32, info_size: u32)
    reads pmm, pmm.bitmap
  {
    && (forall a: nat :: a in pmm.free || a in held <==>
          pmm.Managed(a) && Usable(entries, kernel_end, multiboot_address, info_size, a))
    && (forall i | 0 <= i < |held| :: held[i] !in pmm.free)
    && (forall i, j | 0 <= i < j < |held| :: held[i] != held[j])
  }

  /** In any run of requests, from the construction on, the pages held and the pages free are together exactly
      the usable managed ones, no page is handed out again while it is held, and none is lost.  The counter is
      the number of clear bits, at every moment, exactly if the kernel ends at or below the first managed page
      or there never was a page to count. */
  method ServeRequests(entries: seq<MemoryMapEntry>, kernel_end: nat, multiboot_address: u32, info_size: u32,
                       requests: seq<Request>)
    returns (pmm: PhysicalMemoryManager, held: seq<nat>)
    ensures fresh(pmm) && pmm.Valid()
    ensures pmm.pages == Min(MAX_PAGES, PagesOfMap(entries))
    ensures pmm.pages > 0 ==> exists i :: IsFirst(entries, i) && pmm.base == entries[i].Start()
    ensures forall a: nat :: a in pmm.free || a in held <==>
              pmm.Managed(a) && Usable(entries, kernel_end, multiboot_address, info_size, a)
    ensures forall i | 0 <= i < |held| :: held[i] !in pmm.free
    ensures forall i, j | 0 <= i < j < |held| :: held[i] != held[j]
    ensures pmm.CountsRight() <==> kernel_end <= pmm.base || (held == [] && pmm.Clear() == {})
  {
    pmm := new PhysicalMemoryManager(entries, kernel_end, multiboot_address, info_size);
    held := [];
    ghost var clear, base, pages := |pmm.Clear()|, pmm.base, pmm.pages;
    MissedAtFirst(pmm, kernel_end);
    for n := 0 to |requests|
      invariant pmm.Valid() && fresh(pmm) && fresh(pmm.bitmap) && pmm.base == base && pmm.pages == pages
      invariant Shared(pmm, held, entries, kernel_end, multiboot_address, info_size)
      invariant pmm.free_pages < TWO64 && |pmm.Clear()| + |held| == clear
      invariant pmm.Missed() == 0 <==> kernel_end <= pmm.base || clear == 0
    {
      held := ServeOne(pmm, requests[n], held, entries, kernel_end, multiboot_address, info_size);
    }
    pmm.RightIff();
  }

  lemma MissedAtFirst(pmm: PhysicalMemoryManager, kernel_end: nat)
    requires pmm.bitmap.Length == BITMAP_SIZE && pmm.free_pages == Less(|pmm.Clear()|, pmm.Uncounted(kernel_end))
    requires pmm.CountsRight() <==> kernel_end <= pmm.base || pmm.Clear() == {}
    ensures pmm.free_pages < TWO64
    ensures pmm.Missed() == 0 <==> kernel_end <= pmm.base || |pmm.Clear()| == 0
  {
    pmm.ClearIsSmall();
    pmm.RightIff();
  }

  lemma WithoutOne(held: seq<nat>, k: nat)
    requires k < |held| && forall i, j | 0 <= i < j < |held| :: held[i] != held[j]
    ensures var less := held[..k] + held[k + 1..];
      && (forall a: nat :: a in less <==> a in held && a != held[k])
      && (forall i, j | 0 <= i < j < |less| :: less[i] != less[j])
  {
    assert held == held[..k] + [held[k]] + held[k + 1..];
  }

  method ServeOne(pmm: PhysicalMemoryManager, request: Request, held: seq<nat>, ghost entries: seq<MemoryMapEntry>,
                  ghost kernel_end: nat, ghost multiboot_address: u32, ghost info_size: u32)
    returns (held': seq<nat>)
    requires pmm.Valid() && pmm.free_pages < TWO64
    requires Shared(pmm, held, entries, kernel_end, multiboot_address, info_size)
    modifies pmm`free, pmm`free_pages, pmm.bitmap
    ensures pmm.Valid() && pmm.free_pages < TWO64
    ensures Shared(pmm, held', entries, kernel_end, multiboot_address, info_size)
    ensures pmm.Missed() == old(pmm.Missed()) && |pmm.Clear()| + |held'| == |old(pmm.Clear())| + |held|
  {
    held' := held;
    match request
    case Take =>
      var page := pmm.Allocate();
      if page.Some? {
        held' := held + [page.value];
      }
    case GiveBack(which) =>
      if which < |held| {
        WithoutOne(held, which);
        TakeBack(pmm, held[which]);
        held' := held[..which] + held[which + 1..];
      }
  }

  /** Giving back a page that is held. */
  method TakeBack(pmm: PhysicalMemoryManager, page: nat)
    requires pmm.Valid() && pmm.free_pages < TWO64 && pmm.Managed(page) && page !in pmm.free
    modifies pmm`free, pmm`free_pages, pmm.bitmap
    ensures pmm.Valid() && pmm.free == old(pmm.free) + {page}
    ensures pmm.free_pages < TWO64 && pmm.Missed() == old(pmm.Missed()) && |pmm.Clear()| == |old(pmm.Clear())| + 1
  {
    assert pmm.PageOf(page) == page;
    assert pmm.FreeOk(page) && (page - pmm.base) / PAGE_SIZE !in pmm.Clear();
    pmm.Free(Some(page));
  }
}
