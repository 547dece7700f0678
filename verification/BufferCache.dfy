/** The write-back buffer cache: buffers on a circular doubly linked list with a sentinel, most recently
    used first, over a block device whose reads and writes may fail. */
module BufferCache {
  import opened Bytes
  import opened DiskFormat

  const NBUF := 30

  /** A disk of 512-byte blocks.  Either operation may report an error.  A failed read may leave anything in
      the caller's buffer; a failed write changes no block. */
  class Device {
    var blocks: seq<Block>

    // The block numbers for which an operation has reported an error, in the order of the reports.
    ghost var failed_reads: seq<nat>
    ghost var failed_writes: seq<nat>

    method ReadBlock(n: nat) returns (ok: bool, data: Block)
      modifies this`failed_reads
      ensures ok ==> n < |blocks| && data == blocks[n] && failed_reads == old(failed_reads)
      ensures !ok ==> failed_reads == old(failed_reads) + [n]
    {
      ok, data := *, *;
      ok := ok && n < |blocks|;
      if ok {
        data := blocks[n];
      } else {
        failed_reads := failed_reads + [n];
      }
    }

    method WriteBlock(n: nat, data: Block) returns (ok: bool)
      modifies this`blocks, this`failed_writes
      ensures ok ==> n < |old(blocks)| && blocks == old(blocks)[n := data] && failed_writes == old(failed_writes)
      ensures !ok ==> blocks == old(blocks) && failed_writes == old(failed_writes) + [n]
    {
      ok := *;
      ok := ok && n < |blocks|;
      if ok {
        blocks := blocks[n := data];
      } else {
        failed_writes := failed_writes + [n];
      }
    }
  }

  class Buffer {
    var block_number: nat
    var valid: bool
    var dirty: bool
    var refcnt: nat
    var prev: Buffer?
    var next: Buffer?
    var data: Block

    constructor ()
      ensures !valid && !dirty && refcnt == 0
    {
      block_number, valid, dirty, refcnt, prev, next, data := 0, false, false, 0, null, null, ZeroedBlock();
    }
  }

  // ----- the ring

  ghost function Node(head: Buffer, order: seq<Buffer>, i: nat): Buffer
    requires i <= |order| + 1
  {
    if i == 0 || i == |order| + 1 then head else order[i - 1]
  }

  ghost predicate Linked(head: Buffer, order: seq<Buffer>, i: nat)
    requires i <= |order|
    reads head`next, head`prev, order`next, order`prev
  {
    Node(head, order, i).next == Node(head, order, i + 1) && Node(head, order, i + 1).prev == Node(head, order, i)
  }

  ghost predicate Distinct(order: seq<Buffer>) {
    forall i, j | 0 <= i < j < |order| :: order[i] != order[j]
  }

  /** The list threads the buffers of `order`, each once, in both directions and back to the sentinel. */
  ghost predicate Ring(head: Buffer, order: seq<Buffer>)
    reads head`next, head`prev, order`next, order`prev
  {
    && head !in order && Distinct(order)
    && forall i | 0 <= i <= |order| :: Linked(head, order, i)
  }

  lemma NodeInList(head: Buffer, order: seq<Buffer>, i: nat)
    requires i <= |order| + 1
    ensures Node(head, order, i) == head || Node(head, order, i) in order
  {
  }

  /** Takes a buffer out of the list. */
  method Unlink(head: Buffer, buffer: Buffer, ghost order: seq<Buffer>, ghost k: nat)
    requires Ring(head, order) && k < |order| && order[k] == buffer
    requires buffer.prev != null && buffer.next != null
    modifies buffer.prev`next, buffer.next`prev
    ensures Ring(head, Without(order, k))
  {
    assert Linked(head, order, k) && Linked(head, order, k + 1);
    ghost var rest := Without(order, k);
    label before:
    buffer.prev.next := buffer.next;
    buffer.next.prev := buffer.prev;
    forall i | 0 <= i <= |rest| ensures Linked(head, rest, i) {
      assert old@before(Linked(head, order, if i <= k then i else i + 1));
    }
  }

  /** Puts a buffer in front of the list, as the most recently used. */
  method LinkAsMostRecent(head: Buffer, buffer: Buffer, ghost order: seq<Buffer>)
    requires Ring(head, order) && buffer !in order && buffer != head
    requires head.next != null
    modifies buffer`next, buffer`prev, head`next, head.next`prev
    ensures Ring(head, [buffer] + order)
  {
    assert Linked(head, order, 0);
    ghost var order' := [buffer] + order;
    label before:
    buffer.next := head.next;
    buffer.prev := head;
    head.next.prev := buffer;
    head.next := buffer;
    forall i | 0 <= i <= |order'| ensures Linked(head, order', i) {
      if i >= 1 { assert old@before(Linked(head, order, i - 1)); }
    }
  }

  // ----- age

  /** When the count of `b` last fell to zero, as a position in the list of such falls; -1 for never. */
  ghost function LastFall(falls: seq<Buffer>, b: Buffer): (i: int)
    ensures -1 <= i < |falls|
  {
    if falls == [] then -1
    else if falls[|falls| - 1] == b then |falls| - 1
    else LastFall(falls[..|falls| - 1], b)
  }

  lemma {:induction false} LastFallMeans(falls: seq<Buffer>, b: Buffer)
    ensures var i := LastFall(falls, b);
      (i >= 0 ==> falls[i] == b) && forall j | i < j < |falls| :: falls[j] != b
  {
    if falls != [] && falls[|falls| - 1] != b { LastFallMeans(falls[..|falls| - 1], b); }
  }

  lemma FallAdded(falls: seq<Buffer>, b: Buffer, x: Buffer)
    ensures LastFall(falls + [b], x) == if x == b then |falls| else LastFall(falls, x)
  {
    assert (falls + [b])[..|falls|] == falls;
  }

  ghost predicate Older(order: seq<Buffer>, falls: seq<Buffer>, i: nat, j: nat)
    requires i < |order| && j < |order|
  {
    LastFall(falls, order[i]) >= 0 && (i < j ==> LastFall(falls, order[j]) < LastFall(falls, order[i]))
  }

  /** The list is sorted by the time the counts of its buffers fell to zero, the latest first. */
  ghost predicate ByAge(order: seq<Buffer>, falls: seq<Buffer>) {
    forall i, j | 0 <= i < |order| && 0 <= j < |order| :: Older(order, falls, i, j)
  }

  lemma FrontIsYoungest(order: seq<Buffer>, falls: seq<Buffer>, b: Buffer)
    requires ByAge(order, falls) && b !in order
    ensures ByAge([b] + order, falls + [b])
  {
    var order', falls' := [b] + order, falls + [b];
    forall i, j | 0 <= i < |order'| && 0 <= j < |order'| ensures Older(order', falls', i, j) {
      FallAdded(falls, b, order'[i]);
      FallAdded(falls, b, order'[j]);
      if i > 0 && j > 0 { assert Older(order, falls, i - 1, j - 1); }
      if i > 0 { assert Older(order, falls, i - 1, i - 1); }
    }
  }

  ghost function IndexIn(order: seq<Buffer>, b: Buffer): (k: nat)
    requires b in order
    ensures k < |order| && order[k] == b
  {
    if order[|order| - 1] == b then |order| - 1 else IndexIn(order[..|order| - 1], b)
  }

  function Without<T>(order: seq<T>, k: nat): seq<T>
    requires k < |order|
  {
    order[..k] + order[k + 1..]
  }

  lemma WithoutLosesOne(order: seq<Buffer>, k: nat)
    requires Distinct(order) && k < |order|
    ensures order[k] !in Without(order, k)
    ensures forall x | x in order :: x == order[k] || x in Without(order, k)
    ensures forall x | x in Without(order, k) :: x in order
  {
    assert order == order[..k] + [order[k]] + order[k + 1..];
  }

  lemma RemovalKeepsAge(order: seq<Buffer>, falls: seq<Buffer>, k: nat)
    requires ByAge(order, falls) && k < |order|
    ensures ByAge(Without(order, k), falls)
  {
    var order' := Without(order, k);
    forall i, j | 0 <= i < |order'| && 0 <= j < |order'| ensures Older(order', falls, i, j) {
      assert Older(order, falls, if i < k then i else i + 1, if j < k then j else j + 1);
    }
  }

  datatype Statistics = Statistics(hits: nat, misses: nat, evictions: nat, writebacks: nat)

  function One(b: bool): nat { if b then 1 else 0 }

  /** A buffer is given to another block: that is an eviction if it held one, and takes a write if that was dirty. */
  function Recycling(s: Statistics, held: bool, dirty: bool): Statistics {
    s.(evictions := s.evictions + One(held), writebacks := s.writebacks + One(dirty))
  }

  class Cache {
    const buffers: seq<Buffer>
    const head: Buffer
    const device: Device
    var stats: Statistics

    ghost var order: seq<Buffer>         // the list, most recently used first
    ghost var falls: seq<Buffer>         // the buffers whose count has fallen to zero, in that order from the start
    ghost var holder: map<nat, Buffer>   // the valid buffer of each cached block

    /** The list threads all buffers, and its order is that of age. */
    ghost predicate ListOk()
      reads this`order, this`falls, head`next, head`prev, order`next, order`prev
    {
      && |buffers| == NBUF && head !in buffers && Distinct(buffers)
      && (forall b | b in order :: b in buffers)
      && (forall b | b in buffers :: b in order)
      && Ring(head, order)
      && ByAge(order, falls)
    }

    /** Nothing is lost if the buffer is dropped. */
    ghost predicate Synced(b: Buffer)
      reads b`valid, b`dirty, b`block_number, b`data, device`blocks
    {
      b.valid ==> b.dirty || (b.block_number < |device.blocks| && b.data == device.blocks[b.block_number])
    }

    ghost predicate BufferOk(b: Buffer)
      reads this`holder, b`valid, b`dirty, b`refcnt, b`block_number, b`data, device`blocks
    {
      && (b.valid ==> b.block_number < |device.blocks| && b.block_number in holder && holder[b.block_number] == b)
      && (b.dirty ==> b.valid)
      && (b.refcnt == 0 ==> Synced(b))
    }

    ghost predicate HolderOk(n: nat)
      reads this`holder, buffers`valid, buffers`block_number
    {
      n in holder ==> holder[n] in buffers && holder[n].valid && holder[n].block_number == n
    }

    /** The invariant, but for a buffer `x` that has been recycled and not yet filled. */
    ghost predicate ValidExcept(x: Buffer?)
      reads this, buffers, head, device`blocks, order
    {
      && ListOk()
      && (forall b | b in buffers :: BufferOk(b))
      && (forall n: nat :: HolderOk(n))
      && (forall b | b in buffers && b != x && b.refcnt > 0 :: b.valid)
    }

    ghost predicate Valid()
      reads this, buffers, head, device`blocks, order
    {
      ValidExcept(null)
    }

    /** Block `n` as the layers above see it: the cached bytes if it is cached, else the device's. */
    ghost function Content(n: nat): Block
      reads this`holder, buffers`data, device`blocks
    {
      if n in holder && holder[n] in buffers then holder[n].data
      else if n < |device.blocks| then device.blocks[n]
      else ZeroedBlock()
    }

    ghost function Footprint(): set<object> {
      {this, head, device} + set b | b in buffers
    }

    /** Makes the buffers, all empty, and threads them onto the list. */
    constructor (block_device: Device)
      ensures Valid() && fresh(buffers) && fresh(head) && device == block_device
      ensures holder == map[] && falls == buffers && stats == Statistics(0, 0, 0, 0)
      ensures forall b | b in buffers :: !b.valid && !b.dirty && b.refcnt == 0
    {
      var bs: seq<Buffer> := [];
      while |bs| < NBUF
        invariant |bs| <= NBUF && fresh(bs) && Distinct(bs)
        invariant forall b | b in bs :: !b.valid && !b.dirty && b.refcnt == 0
      {
        var b := new Buffer();
        bs := bs + [b];
      }
      var sentinel := new Buffer();
      buffers, head, device := bs, sentinel, block_device;
      stats := Statistics(0, 0, 0, 0);
      order, falls, holder := [], [], map[];
      new;
      head.next, head.prev := head, head;
      forall i | 0 <= i <= 0 ensures Linked(head, [], i) {
      }
      ThreadAll();
    }

    /** The loop of `initialize`: each buffer goes to the front of the list in turn. */
    method ThreadAll()
      requires |buffers| == NBUF && Distinct(buffers) && head !in buffers
      requires order == falls == [] && Ring(head, [])
      modifies this`order, this`falls, head`next, head`prev, buffers`next, buffers`prev
      ensures ListOk() && falls == buffers
    {
      var i := 0;
      while i < |buffers|
        invariant 0 <= i <= |buffers| && |order| == i && falls == buffers[..i]
        invariant Ring(head, order)
        invariant forall b | b in order :: b in buffers[..i]
        invariant forall j | 0 <= j < i :: buffers[j] in order
        invariant ByAge(order, falls)
      {
        assert Linked(head, order, 0);
        if order != [] { assert order[0] in order && order[0] in buffers; }
        LinkAsMostRecent(head, buffers[i], order);
        FrontIsYoungest(order, falls, buffers[i]);
        order, falls := [buffers[i]] + order, falls + [buffers[i]];
        i := i + 1;
      }
    }

    /** The device has reported no error of a write meanwhile. */
    twostate predicate WritesSucceed()
      reads device`failed_writes
    {
      device.failed_writes == old(device.failed_writes)
    }

    /** The last write has failed, and no other. */
    twostate predicate WriteFails(n: nat)
      reads device`failed_writes
    {
      device.failed_writes == old(device.failed_writes) + [n]
    }

    twostate predicate ReadFails(n: nat)
      reads device`failed_reads
    {
      device.failed_reads == old(device.failed_reads) + [n]
    }

    /** Writes a buffer to the device. */
    method WriteBackBuffer(b: Buffer) returns (ok: bool)
      requires ValidExcept(null) && b in buffers && b.valid
      modifies b`dirty, device`blocks, device`failed_writes, this`stats
      ensures ValidExcept(null)
      ensures forall n: nat :: Content(n) == old(Content(n))
      ensures ok ==> !b.dirty && device.blocks == old(device.blocks)[b.block_number := b.data] && WritesSucceed()
      ensures !ok ==> b.dirty == old(b.dirty) && device.blocks == old(device.blocks) && WriteFails(b.block_number)
      ensures stats == if ok then old(stats).(writebacks := old(stats.writebacks) + 1) else old(stats)
    {
      assert BufferOk(b);
      ok := device.WriteBlock(b.block_number, b.data);
      if !ok {
        return false;
      }
      b.dirty := false;
      stats := stats.(writebacks := stats.writebacks + 1);
      assert HolderOk(b.block_number);
      forall a | a in buffers ensures BufferOk(a) {
        assert old(BufferOk(a));
      }
    }

    /** The buffer that holds block `n`, if any. */
    method Lookup(n: nat) returns (r: Buffer?)
      requires ListOk() && (forall b | b in buffers :: BufferOk(b)) && HolderOk(n)
      ensures r != null <==> n in holder
      ensures r != null ==> r == holder[n]
    {
      assert Linked(head, order, 0);
      var b := head.next;
      ghost var i := 0;
      while b != head
        invariant 0 <= i <= |order| && b == Node(head, order, i + 1)
        invariant forall j | 0 <= j < i :: !(order[j].valid && order[j].block_number == n)
        decreases |order| - i
      {
        assert BufferOk(b);
        if b.valid && b.block_number == n {
          return b;
        }
        assert Linked(head, order, i + 1);
        b := b.next;
        i := i + 1;
      }
      return null;
    }

    /** Every buffer but `r` is as it was. */
    twostate predicate OthersKept(r: Buffer?)
      reads this, buffers
    {
      forall b | b in buffers && b != r ::
        b.block_number == old(b.block_number) && b.valid == old(b.valid) && b.refcnt == old(b.refcnt)
        && b.dirty == old(b.dirty) && b.data == old(b.data)
    }

    /** `v` is the unreferenced buffer whose count fell to zero longest ago. */
    ghost predicate Victim(v: Buffer)
      reads this`falls, buffers`refcnt
    {
      && v in buffers && v.refcnt == 0
      && forall b | b in buffers && b.refcnt == 0 :: LastFall(falls, v) <= LastFall(falls, b)
    }

    /** The list is as it was, and no count has fallen to zero. */
    twostate predicate Unmoved()
      reads this
    {
      order == old(order) && falls == old(falls)
    }

    /** The count of `b` has fallen to zero, and the list is `b` followed by what it was without `b`. */
    twostate predicate MovedToFront(b: Buffer)
      reads this
    {
      && falls == old(falls) + [b] && b in old(order)
      && var k := IndexIn(old(order), b); order == [b] + old(order)[..k] + old(order)[k + 1..]
    }

    /** `v` was the oldest unused buffer; it has been emptied, and come to the front. */
    twostate predicate Emptied(v: Buffer)
      reads this, buffers
    {
      old(Victim(v)) && v in buffers && !v.valid && v.refcnt == 0 && OthersKept(v) && MovedToFront(v)
    }

    /** The least recently used buffer that nobody refers to. */
    method OldestUnused() returns (r: Buffer?)
      requires ListOk()
      ensures r != null ==> Victim(r)
      ensures r == null ==> forall b | b in buffers :: b.refcnt > 0
    {
      assert Linked(head, order, |order|);
      var b := head.prev;
      ghost var i := |order|;
      while b != head
        invariant 0 <= i <= |order| && b == Node(head, order, i)
        invariant forall j | i <= j < |order| :: order[j].refcnt > 0
        decreases i
      {
        if b.refcnt == 0 {
          forall a | a in buffers && a.refcnt == 0 ensures LastFall(falls, b) <= LastFall(falls, a) {
            var j :| 0 <= j < |order| && order[j] == a;
            assert Older(order, falls, j, i - 1);
          }
          return b;
        }
        assert Linked(head, order, i - 1);
        b := b.prev;
        i := i - 1;
      }
      return null;
    }

    method AddReference(b: Buffer)
      requires Valid() && b in buffers && b.valid
      modifies b`refcnt
      ensures Valid() && b.refcnt == old(b.refcnt) + 1
    {
      b.refcnt := b.refcnt + 1;
      forall a | a in buffers ensures BufferOk(a) {
        assert old(BufferOk(a));
      }
    }

    /** Why there is no buffer for block `n`: every buffer is in use, or the one to be emptied could not be
        written back. */
    twostate predicate NoBuffer(n: nat)
      reads this, buffers, device`failed_writes
    {
      || (WritesSucceed() && forall b | b in buffers :: old(b.refcnt) > 0)
      || exists v: Buffer :: v in buffers && old(Victim(v)) && old(v.dirty) && WriteFails(old(v.block_number))
    }

    /** A buffer for block `n`, referenced once more: the one that holds it, or else the oldest unused one,
        written back if need be and then emptied.  Fails without a change when every buffer is in use, or
        when the device refuses the write. */
    method FindCached(n: nat) returns (r: Buffer?)
      requires Valid()
      modifies buffers`block_number, buffers`valid, buffers`dirty, buffers`refcnt, this`stats, this`holder
      modifies device`blocks, device`failed_writes
      ensures r == null ==> Valid() && OthersKept(null) && holder == old(holder) && n !in old(holder) && NoBuffer(n)
      ensures r != null ==> r in buffers && ValidExcept(r) && OthersKept(r) && r.block_number == n && WritesSucceed()
      ensures r != null && n in old(holder) ==>
                && r == old(holder[n]) && r.valid && r.refcnt == old(r.refcnt) + 1 && r.data == old(r.data)
                && r.dirty == old(r.dirty) && device.blocks == old(device.blocks)
      ensures r != null && n !in old(holder) ==>
                old(Victim(r)) && !r.valid && !r.dirty && r.refcnt == 1 && n !in holder
      ensures stats == if r == null || n in old(holder) then old(stats)
                       else Recycling(old(stats), old(r.valid), old(r.dirty))
      ensures Unmoved()
      ensures forall m: nat :: Content(m) == old(Content(m))
    {
      assert HolderOk(n);
      var cached := Lookup(n);
      if cached != null {
        AddReference(cached);
        return cached;
      }
      r := Claim(n);
    }

    /** The second half of `find_cached`, for a block that is not cached. */
    method Claim(n: nat) returns (r: Buffer?)
      requires Valid() && n !in holder
      modifies buffers`block_number, buffers`valid, buffers`dirty, buffers`refcnt, this`stats, this`holder
      modifies device`blocks, device`failed_writes
      ensures r == null ==> Valid() && OthersKept(null) && holder == old(holder) && NoBuffer(n)
      ensures r != null ==> r in buffers && ValidExcept(r) && OthersKept(r) && r.block_number == n && WritesSucceed()
      ensures r != null ==> old(Victim(r)) && !r.valid && !r.dirty && r.refcnt == 1 && n !in holder
      ensures stats == if r == null then old(stats) else Recycling(old(stats), old(r.valid), old(r.dirty))
      ensures forall m: nat :: Content(m) == old(Content(m))
    {
      var b := OldestUnused();
      if b == null {
        return null;
      }
      if b.dirty {
        assert BufferOk(b);
        var ok := WriteBackBuffer(b);
        if !ok {
          return null;
        }
      }
      Recycle(b, n);
      return b;
    }

    /** Turns a buffer that is in step with the device into an empty one for block `n`. */
    method Recycle(b: Buffer, n: nat)
      requires Valid() && b in buffers && b.refcnt == 0 && !b.dirty && n !in holder
      modifies b`block_number, b`valid, b`dirty, b`refcnt, this`stats, this`holder
      ensures ValidExcept(b) && b.block_number == n && !b.valid && !b.dirty && b.refcnt == 1 && n !in holder
      ensures stats == old(stats).(evictions := old(stats.evictions) + One(old(b.valid)))
      ensures forall m: nat :: Content(m) == old(Content(m))
    {
      assert BufferOk(b);
      if b.valid {
        stats := stats.(evictions := stats.evictions + 1);
        holder := holder - {b.block_number};
      }
      b.block_number := n;
      b.valid := false;
      b.dirty := false;
      b.refcnt := 1;
      forall a | a in buffers ensures BufferOk(a) {
        assert old(BufferOk(a));
      }
      forall m: nat ensures HolderOk(m) {
        assert old(HolderOk(m));
      }
      forall m: nat ensures Content(m) == old(Content(m)) {
        assert old(HolderOk(m));
      }
    }

    /** Lends the buffer of block `n`, filled from the device if it was not cached.  When the device refuses,
        the buffer stays empty and is given back at once. */
    method Read(n: nat) returns (r: Buffer?)
      requires Valid()
      modifies this, head`next, head`prev, buffers, device
      ensures Valid()
      ensures r == null <==> n !in old(holder) && (NoBuffer(n) || ReadFails(n))
      ensures r != null ==> WritesSucceed() && device.failed_reads == old(device.failed_reads)
      ensures r != null ==>
                && r in buffers && OthersKept(r) && r.valid && r.block_number == n && r.data == Content(n)
                && r.refcnt == (if n in old(holder) then old(r.refcnt) + 1 else 1)
                && (if n in old(holder) then r == old(holder[n]) && r.dirty == old(r.dirty)
                                             && device.blocks == old(device.blocks)
                    else old(Victim(r)) && !r.dirty && n < |device.blocks| && r.data == device.blocks[n])
      ensures r != null ==>
                stats == if n in old(holder) then old(stats).(hits := old(stats.hits) + 1)
                         else Recycling(old(stats), old(r.valid), old(r.dirty)).(misses := old(stats.misses) + 1)
      ensures r == null && !ReadFails(n) ==> stats == old(stats)
      ensures OthersLent(r)
      ensures !ReadFails(n) ==> Unmoved() && (r == null ==> OthersKept(null))
      ensures ReadFails(n) ==> exists v: Buffer :: v in buffers && Emptied(v)
      ensures forall m: nat :: Content(m) == old(Content(m))
    {
      r := FindCached(n);
      if r == null {
        return null;
      }
      ghost var b := r;
      r := Complete(r);
      assert r == null ==> Emptied(b);
    }

    /** What `read` does with the buffer it got. */
    method Complete(b: Buffer) returns (r: Buffer?)
      requires ValidExcept(b) && b in buffers && b.refcnt > 0
               && (!b.valid ==> b.refcnt == 1 && b.block_number !in holder)
      modifies this, head`next, head`prev, buffers`next, buffers`prev, b`valid, b`refcnt, b`data, device`failed_reads
      ensures Valid()
      ensures r == null <==> ReadFails(b.block_number)
      ensures r != null ==> device.failed_reads == old(device.failed_reads)
      ensures r != null && !old(b.valid) ==>
                b.block_number < |device.blocks| && b.data == device.blocks[b.block_number]
      ensures old(b.valid) ==> r == b && b.data == old(b.data)
      ensures stats == if old(b.valid) then old(stats).(hits := old(stats.hits) + 1)
                       else old(stats).(misses := old(stats.misses) + 1)
      ensures r != null ==> r == b && b.valid && b.refcnt == old(b.refcnt) && b.data == Content(b.block_number)
      ensures r == null ==> !old(b.valid) && !b.valid && b.refcnt == 0
      ensures OthersKept(b) && if r == null then MovedToFront(b) else Unmoved()
      ensures forall m: nat :: Content(m) == old(Content(m))
    {
      if b.valid {
        stats := stats.(hits := stats.hits + 1);
        assert BufferOk(b);
        return b;
      }
      stats := stats.(misses := stats.misses + 1);
      var ok, data := device.ReadBlock(b.block_number);
      r := Fill(b, ok, data);
      assert BufferOk(b);
    }

    /** Every other buffer that was lent is still lent for the same block, with the same bytes. */
    twostate predicate OthersLent(r: Buffer?)
      reads this, buffers
    {
      forall b | b in buffers && b != r ::
        && b.refcnt == old(b.refcnt)
        && (b.refcnt > 0 ==> b.block_number == old(b.block_number) && b.valid && b.data == old(b.data)
                             && b.dirty == old(b.dirty))
    }

    /** Every buffer that was lent for another block than `n` is lent as before, with the same bytes. */
    twostate predicate LoansKept(n: nat)
      reads this, buffers
    {
      forall b | b in buffers && old(b.refcnt) > 0 && old(b.block_number) != n ::
        b.refcnt == old(b.refcnt) && b.valid && b.block_number == old(b.block_number) && b.data == old(b.data)
    }

    /** The end of a read: the recycled buffer becomes valid, or is given back empty. */
    method Fill(b: Buffer, ok: bool, data: Block) returns (r: Buffer?)
      requires ValidExcept(b) && b in buffers && !b.valid && b.refcnt == 1
      requires ok ==> b.block_number < |device.blocks| && data == device.blocks[b.block_number]
      requires b.block_number !in holder
      modifies this`order, this`falls, this`holder, head`next, head`prev
      modifies buffers`next, buffers`prev, b`valid, b`refcnt, b`data
      ensures Valid()
      ensures r == if ok then b else null
      ensures b.valid == ok && b.refcnt == (if ok then 1 else 0) && (ok ==> b.data == data)
      ensures OthersKept(b) && if ok then Unmoved() else MovedToFront(b)
      ensures forall m: nat :: Content(m) == old(Content(m))
    {
      b.data := data;
      forall m: nat ensures HolderOk(m) && Content(m) == old(Content(m)) {
        assert old(HolderOk(m));
      }
      if !ok {
        Release(b);
        return null;
      }
      b.valid := true;
      holder := holder[b.block_number := b];
      forall a | a in buffers ensures BufferOk(a) {
        assert old(BufferOk(a));
      }
      forall m: nat ensures HolderOk(m) && Content(m) == old(Content(m)) {
        assert old(HolderOk(m));
      }
      return b;
    }

    /** Gives one reference back; with the last one the buffer moves to the front of the list. */
    method Release(b: Buffer)
      requires ValidExcept(b) && b in buffers && (!b.valid ==> b.refcnt <= 1)
      modifies this`order, this`falls, head`next, head`prev, buffers`next, buffers`prev, b`refcnt
      ensures b.refcnt == if old(b.refcnt) == 0 then 0 else old(b.refcnt) - 1
      ensures Valid() <==> (old(b.refcnt) == 1 ==> Synced(b))
      ensures ListOk() && if old(b.refcnt) == 1 then MovedToFront(b) else Unmoved()
    {
      if b.refcnt == 0 {
        return;
      }
      b.refcnt := b.refcnt - 1;
      forall a | a in buffers && a != b ensures BufferOk(a) {
        assert old(BufferOk(a));
      }
      assert old(BufferOk(b));
      forall m: nat ensures HolderOk(m) {
        assert old(HolderOk(m));
      }
      if b.refcnt > 0 {
        assert BufferOk(b);
        return;
      }
      MoveToFront(b);
      assert BufferOk(b) <==> Synced(b);
    }

    /** Unlinks `b`; `rest` is the list without it. */
    method TakeOut(b: Buffer) returns (ghost rest: seq<Buffer>)
      requires ListOk() && b in buffers
      modifies head`next, head`prev, buffers`next, buffers`prev
      ensures Ring(head, rest) && ByAge(rest, falls) && b !in rest
      ensures b in order && rest == Without(order, IndexIn(order, b))
      ensures (forall x | x in rest :: x in buffers) && (forall x | x in buffers :: x == b || x in rest)
    {
      ghost var k := IndexIn(order, b);
      assert Linked(head, order, k) && Linked(head, order, k + 1);
      NodeInList(head, order, k);
      NodeInList(head, order, k + 2);
      Unlink(head, b, order, k);
      RemovalKeepsAge(order, falls, k);
      rest := Without(order, k);
      WithoutLosesOne(order, k);
    }

    method MoveToFront(b: Buffer)
      requires ListOk() && b in buffers
      modifies this`order, this`falls, head`next, head`prev, buffers`next, buffers`prev
      ensures ListOk() && MovedToFront(b)
    {
      ghost var rest := TakeOut(b);
      assert Linked(head, rest, 0);
      NodeInList(head, rest, 1);
      LinkAsMostRecent(head, b, rest);
      FrontIsYoungest(rest, falls, b);
      order, falls := [b] + rest, falls + [b];
      ghost var k := IndexIn(old(order), b);
      assert order == [b] + old(order)[..k] + old(order)[k + 1..];
    }

    // ----- what a client does with a lent buffer

    /** The client stores into the bytes it was lent: exactly that block of the logical disk changes. */
    method Store(b: Buffer, data: Block)
      requires Valid() && b in buffers && b.refcnt > 0
      modifies b`data
      ensures Valid() && b.data == data
      ensures forall m: nat :: Content(m) == if m == b.block_number then data else old(Content(m))
    {
      assert BufferOk(b);
      b.data := data;
      forall a | a in buffers ensures BufferOk(a) {
        assert old(BufferOk(a));
      }
      forall m: nat ensures Content(m) == if m == b.block_number then data else old(Content(m)) {
        assert HolderOk(m);
      }
    }

    /** The client says that it has changed the bytes.  The invariant survives exactly if the buffer holds a block:
        the code does not ask. */
    method MarkDirty(b: Buffer?)
      requires Valid() && (b != null ==> b in buffers)
      modifies if b == null then {} else {b}`dirty
      ensures b != null ==> b.dirty && Synced(b)
      ensures Valid() <==> b == null || b.valid
      ensures forall m: nat :: Content(m) == old(Content(m))
    {
      if b != null {
        b.dirty := true;
        if b.valid {
          forall a | a in buffers ensures BufferOk(a) {
            assert old(BufferOk(a));
          }
        } else {
          assert !BufferOk(b);
        }
      }
    }

    /** Writes a buffer through to the device, dirty or not. */
    method Write(b: Buffer?) returns (ok: bool)
      requires Valid() && (b != null ==> b in buffers)
      modifies buffers`dirty, device`blocks, device`failed_writes, this`stats
      ensures Valid()
      ensures b != null && b.valid ==> if ok then WritesSucceed() else WriteFails(b.block_number)
      ensures b == null || !b.valid ==> !ok && WritesSucceed()
      ensures forall m: nat :: Content(m) == old(Content(m))
      ensures ok ==> b != null && b.valid && !b.dirty && device.blocks == old(device.blocks)[b.block_number := b.data]
                     && Synced(b)
      ensures !ok ==> device.blocks == old(device.blocks) && (b != null ==> b.dirty == old(b.dirty))
      ensures forall a | a in buffers && a != b :: a.dirty == old(a.dirty)
      ensures stats == old(stats).(writebacks := old(stats.writebacks) + One(ok))
      ensures Unmoved()
    {
      if b == null || !b.valid {
        return false;
      }
      ok := WriteBackBuffer(b);
    }

    ghost function Dirty(): set<Buffer>
      reads buffers`dirty
    {
      set b | b in buffers && b.dirty
    }

    /** The blocks of the chosen ones among the first `k` buffers, in order. */
    ghost function BlocksOf(k: nat, chosen: set<Buffer>): seq<nat>
      requires k <= |buffers|
      reads buffers`block_number
    {
      if k == 0 then []
      else BlocksOf(k - 1, chosen) + if buffers[k - 1] in chosen then [buffers[k - 1].block_number] else []
    }

    lemma {:induction false} BlocksOfFirst(k: nat, chosen: set<Buffer>, more: set<Buffer>)
      requires k <= |buffers| && forall j | 0 <= j < k :: buffers[j] in chosen <==> buffers[j] in more
      ensures BlocksOf(k, chosen) == BlocksOf(k, more)
    {
      if k > 0 { BlocksOfFirst(k - 1, chosen, more); }
    }

    lemma {:induction false} NoBlocks(k: nat, chosen: set<Buffer>)
      requires k <= |buffers|
      ensures BlocksOf(k, chosen) == [] <==> forall j | 0 <= j < k :: buffers[j] !in chosen
    {
      if k > 0 { NoBlocks(k - 1, chosen); }
    }

    /** The block of buffer `b` is on the device what a flush makes of it, from `blocks` on. */
    ghost predicate Flushed(b: Buffer, blocks: seq<Block>, was_dirty: bool)
      reads b, device`blocks
    {
      b.valid && b.block_number < |device.blocks| == |blocks| ==>
        device.blocks[b.block_number] == if was_dirty && !b.dirty then b.data else blocks[b.block_number]
    }

    /** The first `i` buffers have been flushed, and no other. */
    ghost predicate FlushedTo(i: nat, blocks: seq<Block>, dirty: set<Buffer>)
      requires i <= |buffers|
      reads this, buffers, device`blocks
    {
      && |device.blocks| == |blocks|
      && (forall b | b in buffers :: Flushed(b, blocks, b in dirty) && (b.dirty ==> b in dirty))
      && (forall j | i <= j < |buffers| :: buffers[j].dirty <==> buffers[j] in dirty)
      && (forall m | 0 <= m < |blocks| && m !in holder :: device.blocks[m] == blocks[m])
    }

    /** Buffers hold different blocks, so a round of a flush concerns no other. */
    lemma OwnBlock(a: Buffer, b: Buffer)
      requires Valid() && a in buffers && b in buffers && a.valid && b.valid && a.block_number == b.block_number
      ensures a == b
    {
      assert BufferOk(a) && BufferOk(b);
    }

    /** Buffer `b` is flushed. */
    method FlushOne(b: Buffer) returns (ok: bool)
      requires Valid() && b in buffers
      modifies b`dirty, device`blocks, device`failed_writes, this`stats
      ensures Valid() && (ok <==> !b.dirty) && (b.dirty ==> old(b.dirty))
      ensures old(b.dirty) ==> b.valid && b.block_number in holder
      ensures device.blocks == if ok && old(b.dirty) && b.block_number < |old(device.blocks)|
                               then old(device.blocks)[b.block_number := b.data] else old(device.blocks)
      ensures Synced(b) <==> old(Synced(b))
      ensures if ok then WritesSucceed() else WriteFails(b.block_number)
      ensures Dirty() == if ok then old(Dirty()) - {b} else old(Dirty())
      ensures stats == old(stats).(writebacks := old(stats.writebacks) + One(ok && old(b.dirty)))
      ensures forall m: nat :: Content(m) == old(Content(m))
    {
      assert BufferOk(b);
      ok := true;
      if b.valid && b.dirty {
        ok := WriteBackBuffer(b);
      }
    }

    /** What became of the buffers in a round of a flush. */
    method FlushNext(b: Buffer, ghost i: nat, ghost blocks: seq<Block>, ghost dirty: set<Buffer>) returns (ok: bool)
      requires Valid() && i < |buffers| && b == buffers[i] && FlushedTo(i, blocks, dirty)
      modifies b`dirty, device`blocks, device`failed_writes, this`stats
      ensures Valid() && FlushedTo(i + 1, blocks, dirty) && (ok <==> !b.dirty)
      ensures if ok then WritesSucceed() else WriteFails(b.block_number)
      ensures Dirty() == if ok then old(Dirty()) - {b} else old(Dirty())
      ensures stats == old(stats).(writebacks := old(stats.writebacks) + One(ok && old(b.dirty)))
      ensures forall m: nat :: Content(m) == old(Content(m))
      ensures forall a | a in buffers :: Synced(a) <==> old(Synced(a))
    {
      ok := FlushOne(b);
      forall a | a in buffers ensures Flushed(a, blocks, a in dirty) && (Synced(a) <==> old(Synced(a))) {
        if a != b && a.valid && b.valid && a.block_number == b.block_number { OwnBlock(a, b); }
      }
    }

    /** A write that fails leaves the buffer dirty, and one that succeeds does not. */
    lemma OneTried(i: nat, before: set<Buffer>, after: set<Buffer>, ok: bool)
      requires i < |buffers| && Distinct(buffers) && (ok <==> buffers[i] !in after)
      requires after == if ok then before - {buffers[i]} else before
      ensures BlocksOf(i + 1, after) == BlocksOf(i, before) + if ok then [] else [buffers[i].block_number]
      ensures |before| == |after| + One(ok && buffers[i] in before)
    {
      BlocksOfFirst(i, before, after);
    }

    /** The books of a flush behind the first `i` buffers: the writes that failed are those of buffers still dirty, and
        the statistics count the others. */
    ghost predicate Books(i: nat, failed: seq<nat>, s: Statistics, dirty: nat)
      requires i <= |buffers|
      reads this`stats, buffers`dirty, buffers`block_number, device`failed_writes
    {
      && device.failed_writes == failed + BlocksOf(i, Dirty())
      && stats == s.(writebacks := stats.writebacks) && stats.writebacks + |Dirty()| == s.writebacks + dirty
    }

    lemma BooksKept(i: nat, failed: seq<nat>, s: Statistics, dirty: nat, before: set<Buffer>, ok: bool)
      requires i < |buffers| && Distinct(buffers) && (ok <==> buffers[i] !in Dirty())
      requires Dirty() == if ok then before - {buffers[i]} else before
      requires device.failed_writes == failed + BlocksOf(i, before) + if ok then [] else [buffers[i].block_number]
      requires stats == s.(writebacks := stats.writebacks)
      requires stats.writebacks + |before| == s.writebacks + dirty + One(ok && buffers[i] in before)
      ensures Books(i + 1, failed, s, dirty)
    {
      OneTried(i, before, Dirty(), ok);
    }

    /** One round of a flush. */
    method FlushRound(i: nat, ghost blocks: seq<Block>, ghost dirty: set<Buffer>, ghost failed: seq<nat>,
                      ghost s: Statistics)
      returns (ok: bool)
      requires Valid() && i < |buffers| && FlushedTo(i, blocks, dirty) && Books(i, failed, s, |dirty|)
      modifies buffers`dirty, device`blocks, device`failed_writes, this`stats
      ensures Valid() && FlushedTo(i + 1, blocks, dirty) && Books(i + 1, failed, s, |dirty|)
      ensures |device.failed_writes| == |old(device.failed_writes)| + One(!ok)
      ensures forall m: nat :: Content(m) == old(Content(m))
      ensures forall a | a in buffers :: Synced(a) <==> old(Synced(a))
    {
      ghost var before, tried := Dirty(), BlocksOf(i, Dirty());
      ok := FlushNext(buffers[i], i, blocks, dirty);
      assert BlocksOf(i, before) == tried;
      BooksKept(i, failed, s, |dirty|, before, ok);
    }

    /** The loop of a flush. */
    method FlushAll() returns (all_succeeded: bool)
      requires Valid()
      modifies buffers`dirty, device`blocks, device`failed_writes, this`stats
      ensures Valid() && FlushedTo(|buffers|, old(device.blocks), old(Dirty()))
      ensures Books(|buffers|, old(device.failed_writes), old(stats), |old(Dirty())|)
      ensures all_succeeded <==> |device.failed_writes| == |old(device.failed_writes)|
      ensures forall m: nat :: Content(m) == old(Content(m))
      ensures forall b | b in buffers :: Synced(b) <==> old(Synced(b))
    {
      all_succeeded := true;
      var i := 0;
      while i < |buffers|
        invariant 0 <= i <= |buffers| && Valid() && FlushedTo(i, old(device.blocks), old(Dirty()))
        invariant Books(i, old(device.failed_writes), old(stats), |old(Dirty())|)
        invariant |device.failed_writes| >= |old(device.failed_writes)|
        invariant all_succeeded <==> |device.failed_writes| == |old(device.failed_writes)|
        invariant forall m: nat :: Content(m) == old(Content(m))
        invariant forall b | b in buffers :: Synced(b) <==> old(Synced(b))
      {
        var ok := FlushRound(i, old(device.blocks), old(Dirty()), old(device.failed_writes), old(stats));
        if !ok {
          all_succeeded := false;
        }
        i := i + 1;
      }
    }

    /** Writes every dirty buffer to the device once, and goes on when one of them cannot be written: the writes that
        failed are those of the buffers that are dirty still.  It reports success exactly if there are none.  Then
        the device holds every block as it is seen through the cache, except where a client has stored into a buffer
        and not marked it dirty. */
    method Flush() returns (all_succeeded: bool)
      requires Valid()
      modifies buffers`dirty, device`blocks, device`failed_writes, this`stats
      ensures Valid()
      ensures forall m: nat :: Content(m) == old(Content(m))
      ensures |device.blocks| == old(|device.blocks|)
      ensures all_succeeded <==> forall b | b in buffers :: !b.dirty
      ensures all_succeeded <==> WritesSucceed()
      ensures forall b | b in buffers && !old(b.dirty) :: !b.dirty
      ensures device.failed_writes == old(device.failed_writes) + BlocksOf(|buffers|, Dirty())
      ensures forall b | b in buffers :: Flushed(b, old(device.blocks), old(b.dirty))
      ensures forall m | 0 <= m < |device.blocks| && m !in holder :: device.blocks[m] == old(device.blocks)[m]
      ensures forall b | b in buffers :: Synced(b) <==> old(Synced(b))
      ensures Dirty() <= old(Dirty()) && stats == old(stats).(writebacks := stats.writebacks)
      ensures stats.writebacks + |Dirty()| == old(stats.writebacks + |Dirty()|)
      ensures Unmoved()
      ensures all_succeeded ==>
                ((forall m | 0 <= m < |device.blocks| :: device.blocks[m] == Content(m))
                 <==> old(forall b | b in buffers :: Synced(b)))
    {
      all_succeeded := FlushAll();
      NoBlocks(|buffers|, Dirty());
      if all_succeeded { DeviceAgrees(); }
    }

    /** With no dirty buffer left, the device agrees with the cache exactly when every buffer is in step. */
    lemma DeviceAgrees()
      requires Valid() && forall b | b in buffers && b.valid :: !b.dirty
      ensures (forall m | 0 <= m < |device.blocks| :: device.blocks[m] == Content(m)) <==>
                (forall b | b in buffers :: Synced(b))
    {
      if forall b | b in buffers :: Synced(b) {
        forall m | 0 <= m < |device.blocks| ensures device.blocks[m] == Content(m) {
          assert HolderOk(m);
        }
      }
      if forall m | 0 <= m < |device.blocks| :: device.blocks[m] == Content(m) {
        forall b | b in buffers ensures Synced(b) {
          assert BufferOk(b);
        }
      }
    }
  }
}
