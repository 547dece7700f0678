/** The block store that the file system sees: blocks are lent by number, and a `BlockRef` is the single
    owner of one loan. */
module BlockStore {
  import opened DiskFormat
  import opened BufferCache

  /** `BlockStore::release`: finds the buffer by number; `lent` is the one that was lent. */
  method ReleaseNumber(cache: Cache, n: nat, ghost lent: Buffer)
    requires cache.Valid() && lent in cache.buffers && lent.valid && lent.refcnt > 0 && lent.block_number == n
    modifies cache`order, cache`falls, cache.head`next, cache.head`prev
    modifies cache.buffers`next, cache.buffers`prev, lent`refcnt
    ensures lent.refcnt == old(lent.refcnt) - 1
    ensures cache.Valid() <==> (old(lent.refcnt) == 1 ==> cache.Synced(lent))
    ensures if old(lent.refcnt) == 1 then cache.MovedToFront(lent) else cache.Unmoved()
  {
    assert cache.BufferOk(lent) && cache.HolderOk(n);
    var b := cache.Lookup(n);
    cache.Release(b);
  }

  class BlockRef {
    var block_number: nat
    var store: Cache?
    var data: Buffer?

    constructor (n: nat, cache: Cache?, buffer: Buffer?)
      ensures block_number == n && store == cache && data == buffer
    {
      block_number, store, data := n, cache, buffer;
    }

    /** The move constructor: the loan changes hands. */
    constructor Move(other: BlockRef)
      modifies other`store, other`data
      ensures block_number == old(other.block_number) && store == old(other.store) && data == old(other.data)
      ensures !other.Holding() && other.store == null && other.data == null
    {
      block_number, store, data := other.block_number, other.store, other.data;
      new;
      other.store := null;
      other.data := null;
    }

    ghost predicate Holding()
      reads this
    {
      store != null && data != null
    }

    /** The loan is good: the buffer still holds the block it was lent for. */
    ghost predicate Good()
      reads this, store, data
    {
      Holding() ==> data in store.buffers && data.valid && data.refcnt > 0 && data.block_number == block_number
    }

    ghost function StoreFootprint(): set<object>
      reads this
    {
      if store == null then {} else store.Footprint()
    }

    ghost predicate StoreValid()
      reads this, StoreFootprint(), if store == null then {} else set b | b in store.order
    {
      store != null ==> store.Valid() && this !in store.Footprint()
    }

    /** Writes the lent bytes to the device.  The store looks the buffer up by number; it finds the one lent. */
    method WriteBack() returns (ok: bool)
      requires Good() && StoreValid()
      modifies StoreFootprint()
      ensures Good() && StoreValid() && store == old(store) && data == old(data) && block_number == old(block_number)
      ensures !Holding() ==> !ok
      ensures store != null ==> forall m: nat :: store.Content(m) == old(store.Content(m))
      ensures ok ==> store.device.blocks == old(store.device.blocks)[block_number := data.data] && store.Synced(data)
      ensures store != null && !ok ==> store.device.blocks == old(store.device.blocks)
      ensures Holding() ==> if ok then store.WritesSucceed() else store.WriteFails(block_number)
      ensures store != null ==> store.Unmoved()
      ensures Holding() ==> store.OthersLent(data) && data.refcnt == old(data.refcnt) && data.data == old(data.data)
    {
      if store == null {
        return false;
      }
      if data == null {
        return false;
      }
      assert store.BufferOk(data) && store.HolderOk(block_number);
      var b := store.Lookup(block_number);
      ok := store.Write(b);
    }

    /** Gives the loan back; a second call does nothing.  With the last reference the cache may drop the
        buffer, so it stays valid exactly when the bytes have been written or marked dirty before. */
    method Reset()
      requires Good() && StoreValid()
      modifies this, StoreFootprint()
      ensures !old(Holding()) ==> store == old(store) && data == old(data) && StoreValid()
      ensures old(Holding()) ==>
                && store == null && data == null
                && old(data).refcnt == old(data.refcnt) - 1
                && (old(store).Valid() <==> old(data.refcnt == 1 ==> store.Synced(data)))
                && (forall m: nat :: old(store).Content(m) == old(store.Content(m)))
                && old(store).LoansKept(old(block_number))
                && (if old(data.refcnt) == 1 then old(store).MovedToFront(old(data)) else old(store).Unmoved())
                && old(store).device.blocks == old(store.device.blocks)
                && old(store).device.failed_writes == old(store.device.failed_writes)
    {
      if store != null && data != null {
        ReleaseNumber(store, block_number, data);
        store := null;
        data := null;
      }
    }
  }

  method Acquire(cache: Cache, n: nat) returns (r: BlockRef)
    requires cache.Valid()
    modifies cache.Footprint()
    ensures fresh(r) && cache.Valid() && r.Good() && r.store == cache && r.block_number == n
    ensures forall m: nat :: cache.Content(m) == old(cache.Content(m))
    ensures r.Holding() ==> r.data.data == cache.Content(n)
    ensures cache.OthersLent(r.data) && cache.LoansKept(n)
    ensures !r.Holding() <==> n !in old(cache.holder) && (cache.NoBuffer(n) || cache.ReadFails(n))
    ensures r.Holding() ==> cache.WritesSucceed()
  {
    assert cache.HolderOk(n);
    var b := cache.Read(n);
    r := new BlockRef(n, cache, b);
  }

  /** What the file system does with a block: borrow it, change its bytes, write it back and return it.
      Without errors the cache behaves as one array of blocks in which block `n` has been assigned.  The block is
      refused only if all buffers are in use or the device reports an error, and the write only if it does. */
  method Transaction(cache: Cache, n: nat, bytes: Block) returns (acquired: bool, ok: bool)
    requires cache.Valid()
    modifies cache.Footprint()
    ensures !acquired ==> n !in old(cache.holder) && (cache.NoBuffer(n) || cache.ReadFails(n))
    ensures acquired ==> if ok then cache.WritesSucceed() else cache.WriteFails(n)
    ensures !acquired ==> !ok && cache.Valid() && forall m: nat :: cache.Content(m) == old(cache.Content(m))
    ensures acquired ==> forall m: nat :: cache.Content(m) == if m == n then bytes else old(cache.Content(m))
    ensures ok ==> acquired && cache.Valid() && n < |cache.device.blocks| && cache.device.blocks[n] == bytes
    ensures cache.LoansKept(n)
  {
    var r := Acquire(cache, n);
    if r.data == null {
      return false, false;
    }
    cache.Store(r.data, bytes);
    ok := r.WriteBack();
    assert ok ==> n < |cache.device.blocks| && cache.device.blocks[n] == bytes by {
      assert cache.BufferOk(r.data);
    }
    r.Reset();
    return true, ok;
  }

  /** One block is held while another is borrowed, changed and returned, as an indirect block is held while a block is
      allocated.  The loan held stays good, and without errors both assignments are made on the logical disk.  When
      the device refuses the inner write, the run is not followed further. */
  method NestedTransactions(cache: Cache, outer: nat, inner: nat, table: Block, bytes: Block)
    returns (held: bool, written: bool, ok: bool)
    requires cache.Valid() && outer != inner
    modifies cache.Footprint()
    ensures !held ==> outer !in old(cache.holder) && (cache.NoBuffer(outer) || cache.ReadFails(outer))
    ensures !held ==> !written && cache.Valid() && forall m: nat :: cache.Content(m) == old(cache.Content(m))
    ensures written ==> forall m: nat :: cache.Content(m) == if m == outer then table else if m == inner then bytes
                                                             else old(cache.Content(m))
    ensures !written ==> forall m: nat | m != inner :: cache.Content(m) == old(cache.Content(m))
    ensures ok ==> held && written && cache.Valid() && outer < |cache.device.blocks| && inner < |cache.device.blocks|
    ensures ok ==> cache.device.blocks[outer] == table && cache.device.blocks[inner] == bytes
  {
    var r := Acquire(cache, outer);
    if r.data == null {
      return false, false, false;
    }
    var acquired;
    acquired, written := Transaction(cache, inner, bytes);
    if !written {
      return true, false, false;
    }
    cache.Store(r.data, table);
    ok := r.WriteBack();
    assert ok ==> outer < |cache.device.blocks| && cache.device.blocks[outer] == table by {
      assert cache.BufferOk(r.data);
    }
    r.Reset();
    return true, true, ok;
  }
}
