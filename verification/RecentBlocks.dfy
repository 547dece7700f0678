/** The ring of buffers as a plain list of block numbers, and what that list means over a run: a block is cached
    exactly if fewer than NBUF other blocks have been asked for since it was. */
module RecentBlocks {
  import opened BufferCache
  import opened DiskFormat
  import opened Wrappers

  // ----- the list

  function Held(b: Buffer): Option<nat>
    reads b`valid, b`block_number
  {
    if b.valid then Some(b.block_number) else None
  }

  /** What the buffers hold, the most recently used first. */
  ghost function HeldList(order: seq<Buffer>): (r: seq<Option<nat>>)
    reads order`valid, order`block_number
    ensures |r| == |order| && forall i | 0 <= i < |r| :: r[i] == Held(order[i])
  {
    if order == [] then [] else HeldList(order[..|order| - 1]) + [Held(order[|order| - 1])]
  }

  function Place(list: seq<Option<nat>>, n: nat): (k: int)
    ensures -1 <= k < |list|
    ensures if k >= 0 then list[k] == Some(n) else Some(n) !in list
  {
    if list == [] then -1
    else if list[|list| - 1] == Some(n) then |list| - 1
    else Place(list[..|list| - 1], n)
  }

  /** Asking for block `n` puts it in front.  If it is not in the list the last place is given to it; and if it cannot
      be read, that place comes to the front all the same, and is empty. */
  function Asked(list: seq<Option<nat>>, n: nat, ok: bool): seq<Option<nat>>
    requires list != []
  {
    var k := Place(list, n);
    if k >= 0 then [Some(n)] + list[..k] + list[k + 1..]
    else [if ok then Some(n) else None] + list[..|list| - 1]
  }

  function AskedAll(list: seq<Option<nat>>, ns: seq<nat>, oks: seq<bool>): (r: seq<Option<nat>>)
    requires list != [] && |oks| == |ns|
    ensures |r| == |list|
  {
    if ns == [] then list
    else Asked(AskedAll(list, ns[..|ns| - 1], oks[..|ns| - 1]), ns[|ns| - 1], oks[|ns| - 1])
  }

  /** No block is in two places. */
  predicate OnceAt(list: seq<Option<nat>>, i: nat, j: nat) {
    i < |list| && j < |list| && list[i] == list[j] && list[i].Some? ==> i == j
  }

  ghost predicate Once(list: seq<Option<nat>>) {
    forall i: nat, j: nat :: OnceAt(list, i, j)
  }

  // ----- the ring is that list

  /** Nobody holds a buffer, and none needs to be written back. */
  ghost predicate AtRest(cache: Cache)
    reads cache, cache.buffers, cache.head, cache.device`blocks, cache.order
  {
    cache.Valid() && forall b | b in cache.buffers :: b.refcnt == 0 && !b.dirty
  }

  lemma HeldOnce(cache: Cache)
    requires cache.Valid()
    ensures Once(HeldList(cache.order))
    ensures forall n: nat :: n in cache.holder <==> Some(n) in HeldList(cache.order)
  {
    var list := HeldList(cache.order);
    forall i: nat, j: nat ensures OnceAt(list, i, j) {
      if i < |list| && j < |list| {
        assert cache.BufferOk(cache.order[i]) && cache.BufferOk(cache.order[j]);
      }
    }
    forall n: nat ensures n in cache.holder <==> Some(n) in list {
      assert cache.HolderOk(n);
      if n in cache.holder {
        var i :| 0 <= i < |cache.order| && cache.order[i] == cache.holder[n];
        assert list[i] == Some(n);
      }
      if Some(n) in list {
        var i :| 0 <= i < |list| && list[i] == Some(n);
        assert cache.BufferOk(cache.order[i]);
      }
    }
  }

  /** With no buffer in use, the one to be given away is the last of the list. */
  lemma VictimIsLast(cache: Cache, v: Buffer)
    requires AtRest(cache) && cache.Victim(v)
    ensures cache.order != [] && cache.order[|cache.order| - 1] == v
  {
    assert cache.buffers[0] in cache.order;
    var last := |cache.order| - 1;
    var i :| 0 <= i < |cache.order| && cache.order[i] == v;
    assert Older(cache.order, cache.falls, i, last);
  }

  lemma FrontIsAsked(list: seq<Option<nat>>, k: nat, n: nat, ok: bool)
    requires k < |list| && Once(list)
    requires if list[k] == Some(n) then ok else k == |list| - 1 && Some(n) !in list
    ensures [if ok then Some(n) else None] + list[..k] + list[k + 1..] == Asked(list, n, ok)
  {
    if list[k] == Some(n) { assert OnceAt(list, Place(list, n), k); }
  }

  /** The buffers have come into another order. */
  lemma HeldReordered(order: seq<Buffer>, k: nat, list: seq<Option<nat>>, order': seq<Buffer>)
    requires k < |order| == |list| && order' == [order[k]] + order[..k] + order[k + 1..]
    requires forall i | 0 <= i < |order| :: list[i] == Held(order[i])
    ensures HeldList(order') == [list[k]] + list[..k] + list[k + 1..]
  {
    var list' := [list[k]] + list[..k] + list[k + 1..];
    forall i | 0 <= i < |order'| ensures HeldList(order')[i] == list'[i] {
      var j := if i == 0 then k else if i <= k then i - 1 else i;
      assert order'[i] == order[j] && list'[i] == list[j];
    }
  }

  /** Buffer `v` has come to the front for block `n`, and the others hold what they held. */
  lemma ListAfter(order: seq<Buffer>, list: seq<Option<nat>>, v: Buffer, order': seq<Buffer>, n: nat, ok: bool)
    requires |order| == |list| && v in order && Distinct(order) && Once(list)
    requires var k := IndexIn(order, v);
      && order' == [v] + order[..k] + order[k + 1..]
      && if list[k] == Some(n) then ok else k == |list| - 1 && Some(n) !in list
    requires Held(v) == if ok then Some(n) else None
    requires forall i | 0 <= i < |order| && order[i] != v :: list[i] == Held(order[i])
    ensures HeldList(order') == Asked(list, n, ok)
  {
    var k := IndexIn(order, v);
    HeldReordered(order, k, list[k := if ok then Some(n) else None], order');
    FrontIsAsked(list, k, n, ok);
  }

  /** Which buffer a request for block `n` will bring to the front. */
  lemma BeforeAsking(cache: Cache, n: nat)
    requires AtRest(cache)
    ensures var list := HeldList(cache.order);
      && |list| > 0 && Distinct(cache.order) && Once(list)
      && (n in cache.holder ==> cache.holder[n] in cache.order
                                && list[IndexIn(cache.order, cache.holder[n])] == Some(n))
      && (n !in cache.holder ==>
            Some(n) !in list && forall u: Buffer | u in cache.buffers && cache.Victim(u) ::
                                  u in cache.order && IndexIn(cache.order, u) == |list| - 1)
  {
    HeldOnce(cache);
    assert cache.HolderOk(n) && cache.buffers[0] in cache.order;
    forall u: Buffer | u in cache.buffers && cache.Victim(u)
      ensures u in cache.order && IndexIn(cache.order, u) == |cache.order| - 1
    {
      VictimIsLast(cache, u);
    }
  }

  /** Gives back the only buffer in use. */
  method GiveBack(cache: Cache, b: Buffer)
    requires cache.Valid() && b in cache.buffers && b.refcnt == 1 && cache.Synced(b)
    requires forall a | a in cache.buffers :: !a.dirty && (a != b ==> a.refcnt == 0)
    modifies cache`order, cache`falls, cache.head`next, cache.head`prev
    modifies cache.buffers`next, cache.buffers`prev, b`refcnt
    ensures AtRest(cache) && cache.MovedToFront(b)
  {
    cache.Release(b);
  }

  /** Reads a block with no other buffer in use; `v` is the buffer that holds it, or has been emptied for it. */
  method ReadAtRest(cache: Cache, n: nat) returns (b: Buffer?, ghost v: Buffer)
    requires AtRest(cache)
    modifies cache.Footprint()
    ensures cache.Valid() && v in cache.buffers && cache.OthersKept(v)
    ensures b != null <==> n in old(cache.holder) || !cache.ReadFails(n)
    ensures if n in old(cache.holder) then v == old(cache.holder[n]) else old(cache.Victim(v))
    ensures b == null ==> AtRest(cache) && cache.MovedToFront(v) && !v.valid
    ensures b != null ==>
              && b == v && v.valid && v.block_number == n && v.refcnt == 1 && !v.dirty && cache.Synced(v)
              && cache.Unmoved()
    ensures forall m: nat :: cache.Content(m) == old(cache.Content(m))
  {
    assert cache.buffers[0].refcnt == 0 && cache.HolderOk(n);
    b := cache.Read(n);
    if b == null {
      v :| v in cache.buffers && cache.Emptied(v);
      assert cache.BufferOk(v);
    } else {
      v := b;
    }
  }

  /** Reads a block and gives it back. */
  method Touch(cache: Cache, n: nat) returns (ok: bool, ghost v: Buffer)
    requires AtRest(cache)
    modifies cache.Footprint()
    ensures AtRest(cache) && v in cache.buffers
    ensures ok <==> n in old(cache.holder) || !cache.ReadFails(n)
    ensures cache.MovedToFront(v) && cache.OthersKept(v) && Held(v) == if ok then Some(n) else None
    ensures if n in old(cache.holder) then v == old(cache.holder[n]) else old(cache.Victim(v))
    ensures forall m: nat :: cache.Content(m) == old(cache.Content(m))
  {
    var b;
    b, v := ReadAtRest(cache, n);
    ok := b != null;
    if ok {
      GiveBack(cache, b);
    }
  }

  /** In the list that is what `Asked` says. */
  method Ask(cache: Cache, n: nat) returns (ok: bool)
    requires AtRest(cache)
    modifies cache.Footprint()
    ensures AtRest(cache) && old(cache.order) != [] && cache.order != []
    ensures ok <==> n in old(cache.holder) || !cache.ReadFails(n)
    ensures HeldList(cache.order) == Asked(old(HeldList(cache.order)), n, ok)
    ensures forall m: nat :: cache.Content(m) == old(cache.Content(m))
  {
    ghost var order, list := cache.order, HeldList(cache.order);
    BeforeAsking(cache, n);
    ghost var v;
    ok, v := Touch(cache, n);
    ListAfter(order, list, v, cache.order, n, ok);
  }

  /** All buffers are in the ring, each once. */
  lemma RingIsFull(cache: Cache)
    requires cache.ListOk()
    ensures |cache.order| == NBUF
  {
    SizeOfDistinct(cache.order);
    SizeOfDistinct(cache.buffers);
    assert (set b | b in cache.order) == (set b | b in cache.buffers);
  }

  lemma {:induction false} SizeOfDistinct(order: seq<Buffer>)
    requires Distinct(order)
    ensures |set b | b in order| == |order|
  {
    if order == [] {
      assert (set b | b in order) == {};
    } else {
      var last := |order| - 1;
      SizeOfDistinct(order[..last]);
      assert (set b | b in order) == (set b | b in order[..last]) + {order[last]};
    }
  }

  /** Reads blocks and gives each back before the next. */
  method AskAll(cache: Cache, ns: seq<nat>) returns (oks: seq<bool>)
    requires AtRest(cache)
    modifies cache.Footprint()
    ensures AtRest(cache) && |oks| == |ns| && |old(cache.order)| == NBUF
    ensures HeldList(cache.order) == AskedAll(old(HeldList(cache.order)), ns, oks)
    ensures forall m: nat :: cache.Content(m) == old(cache.Content(m))
  {
    RingIsFull(cache);
    ghost var list := HeldList(cache.order);
    oks := [];
    while |oks| < |ns|
      invariant |oks| <= |ns| && AtRest(cache) && HeldList(cache.order) == AskedAll(list, ns[..|oks|], oks)
      invariant forall m: nat :: cache.Content(m) == old(cache.Content(m))
    {
      var ok := Ask(cache, ns[|oks|]);
      AskedOneMore(list, ns, oks, ok);
      oks := oks + [ok];
    }
    assert ns[..|ns|] == ns;
  }

  lemma AskedOneMore(list: seq<Option<nat>>, ns: seq<nat>, oks: seq<bool>, ok: bool)
    requires list != [] && |oks| < |ns|
    ensures AskedAll(list, ns[..|oks| + 1], oks + [ok]) == Asked(AskedAll(list, ns[..|oks|], oks), ns[|oks|], ok)
  {
    assert ns[..|oks| + 1][..|oks|] == ns[..|oks|] && (oks + [ok])[..|oks|] == oks;
  }

  // ----- what the list means

  /** The blocks that have been asked for since `x` was asked for last. */
  function Since(ns: seq<nat>, x: nat): set<nat> {
    if ns == [] || ns[|ns| - 1] == x then {} else Since(ns[..|ns| - 1], x) + {ns[|ns| - 1]}
  }

  function Blocks(list: seq<Option<nat>>): set<nat> {
    set i | 0 <= i < |list| && list[i].Some? :: list[i].value
  }

  /** In front of a block are exactly those asked for since. */
  predicate RankOk(list: seq<Option<nat>>, ns: seq<nat>, i: nat) {
    i < |list| && list[i].Some? ==>
      var x := list[i].value;
      x in ns && Blocks(list[..i]) == Since(ns, x) && |Since(ns, x)| == i
  }

  /** A block that is not in the list any more has seen as many others. */
  predicate GoneOk(list: seq<Option<nat>>, ns: seq<nat>, x: nat) {
    x in ns && Some(x) !in list ==> |Since(ns, x)| >= |list|
  }

  ghost predicate Ranked(list: seq<Option<nat>>, ns: seq<nat>) {
    && Once(list)
    && (forall i: nat :: RankOk(list, ns, i))
    && (forall x: nat :: GoneOk(list, ns, x))
    && (forall i: nat, j: nat :: NoneBehind(list, i, j))
  }

  predicate NoneBehind(list: seq<Option<nat>>, i: nat, j: nat) {
    i <= j < |list| && list[i] == None ==> list[j] == None
  }

  lemma SinceOneMore(ns: seq<nat>, n: nat, x: nat)
    ensures Since(ns + [n], x) == if n == x then {} else Since(ns, x) + {n}
  {
    assert (ns + [n])[..|ns|] == ns;
  }

  lemma MoreBlocks(list: seq<Option<nat>>, n: nat)
    ensures Blocks([Some(n)] + list) == Blocks(list) + {n}
  {
    assert forall i | 0 <= i < |list| :: ([Some(n)] + list)[i + 1] == list[i];
    assert ([Some(n)] + list)[0] == Some(n);
  }

  lemma InBlocks(list: seq<Option<nat>>, n: nat)
    ensures n in Blocks(list) <==> Some(n) in list
  {
  }

  /** Place `k` is given to block `n`: it is the one that `n` has, or the last, if `n` has none. */
  predicate Gives(list: seq<Option<nat>>, n: nat, k: nat) {
    k < |list| && (list[k] == Some(n) || (k == |list| - 1 && Some(n) !in list))
  }

  function ToFront(list: seq<Option<nat>>, n: nat, k: nat): seq<Option<nat>>
    requires k < |list|
  {
    [Some(n)] + (list[..k] + list[k + 1..])
  }

  lemma AskedIsToFront(list: seq<Option<nat>>, n: nat) returns (k: nat)
    requires list != []
    ensures Gives(list, n, k) && Asked(list, n, true) == ToFront(list, n, k)
  {
    k := if Place(list, n) >= 0 then Place(list, n) else |list| - 1;
  }

  lemma BlocksBefore(list: seq<Option<nat>>, n: nat, k: nat, j: nat)
    requires Once(list) && Gives(list, n, k) && j < k
    ensures Blocks(ToFront(list, n, k)[..j + 1]) == Blocks(list[..j]) + {n} && n !in Blocks(list[..j])
  {
    assert ToFront(list, n, k)[..j + 1] == [Some(n)] + list[..j];
    MoreBlocks(list[..j], n);
    forall i: nat | i < j ensures list[..j][i] != Some(n) {
      assert OnceAt(list, i, k);
    }
    InBlocks(list[..j], n);
  }

  lemma RankBefore(list: seq<Option<nat>>, ns: seq<nat>, n: nat, k: nat, j: nat)
    requires Ranked(list, ns) && Gives(list, n, k) && j < k
    ensures RankOk(ToFront(list, n, k), ns + [n], j + 1)
  {
    assert ToFront(list, n, k)[j + 1] == list[j];
    if list[j].Some? {
      assert RankOk(list, ns, j) && OnceAt(list, j, k);
      BlocksBefore(list, n, k, j);
      SinceOneMore(ns, n, list[j].value);
    }
  }

  /** Taking block `n` from place `k` to the front changes nothing about what is in front of place `j`. */
  lemma BlocksAround(list: seq<Option<nat>>, n: nat, k: nat, j: nat)
    requires k < j <= |list| && list[k] == Some(n)
    ensures Blocks(ToFront(list, n, k)[..j]) == Blocks(list[..j]) && n in Blocks(list[..j])
  {
    var list' := ToFront(list, n, k)[..j];
    assert list[..j][k] == Some(n);
    forall b: nat ensures b in Blocks(list') <==> b in Blocks(list[..j]) {
      InBlocks(list[..j], b);
      InBlocks(list', b);
      assert list[..j] == list[..k] + [Some(n)] + list[k + 1..j];
      assert list' == [Some(n)] + (list[..k] + list[k + 1..j]);
    }
  }

  lemma RankBehind(list: seq<Option<nat>>, ns: seq<nat>, n: nat, k: nat, j: nat)
    requires Ranked(list, ns) && Gives(list, n, k) && k < j < |list|
    ensures RankOk(ToFront(list, n, k), ns + [n], j)
  {
    assert ToFront(list, n, k)[j] == list[j];
    if list[j].Some? {
      var x := list[j].value;
      assert RankOk(list, ns, j) && OnceAt(list, j, k);
      BlocksAround(list, n, k, j);
      SinceOneMore(ns, n, x);
      assert Since(ns, x) + {n} == Since(ns, x);
    }
  }

  lemma GoneAfter(list: seq<Option<nat>>, ns: seq<nat>, n: nat, k: nat, x: nat)
    requires Ranked(list, ns) && Gives(list, n, k)
    ensures GoneOk(ToFront(list, n, k), ns + [n], x)
  {
    var list' := ToFront(list, n, k);
    if x in ns + [n] && Some(x) !in list' {
      assert list'[0] == Some(n) && x in ns && GoneOk(list, ns, x) && RankOk(list, ns, k);
      SinceOneMore(ns, n, x);
      if Some(x) in list {
        assert list == list[..k] + [list[k]] + list[k + 1..];
        assert list[k] == Some(x);
        assert n !in Blocks(list[..k]) by { InBlocks(list[..k], n); }
      } else {
        SubsetIsSmaller(Since(ns, x), Since(ns + [n], x));
      }
    }
  }

  lemma SubsetIsSmaller(a: set<nat>, b: set<nat>)
    requires a <= b
    ensures |a| <= |b|
  {
    assert b == a + (b - a);
  }

  lemma AskKeepsRanks(list: seq<Option<nat>>, ns: seq<nat>, n: nat)
    requires Ranked(list, ns) && list != []
    ensures Ranked(Asked(list, n, true), ns + [n])
  {
    var k := AskedIsToFront(list, n);
    var list' := ToFront(list, n, k);
    forall i: nat, j: nat ensures OnceAt(list', i, j) && NoneBehind(list', i, j) {
      if 0 < i < |list'| && 0 < j < |list'| {
        var i', j' := if i <= k then i - 1 else i, if j <= k then j - 1 else j;
        assert OnceAt(list, i', j') && NoneBehind(list, i', j');
      }
      if 0 < i < |list'| { assert OnceAt(list, if i <= k then i - 1 else i, k); }
      if 0 < j < |list'| { assert OnceAt(list, if j <= k then j - 1 else j, k); }
    }
    forall i: nat ensures RankOk(list', ns + [n], i) {
      if i == 0 {
        SinceOneMore(ns, n, n);
        assert (ns + [n])[|ns|] == n;
      } else if i <= k {
        RankBefore(list, ns, n, k, i - 1);
      } else if i < |list| {
        RankBehind(list, ns, n, k, i);
      }
    }
    forall x: nat ensures GoneOk(list', ns + [n], x) {
      GoneAfter(list, ns, n, k, x);
    }
  }

  function AllTrue(n: nat): (r: seq<bool>)
    ensures |r| == n && forall i | 0 <= i < n :: r[i]
  {
    seq(n, _ => true)
  }

  lemma {:induction false} RanksInRun(list: seq<Option<nat>>, ns: seq<nat>)
    requires list != [] && forall i | 0 <= i < |list| :: list[i] == None
    ensures Ranked(AskedAll(list, ns, AllTrue(|ns|)), ns)
  {
    if ns == [] {
      assert Ranked(list, ns);
    } else {
      var n := |ns| - 1;
      RanksInRun(list, ns[..n]);
      assert AllTrue(|ns|)[..n] == AllTrue(n);
      AskKeepsRanks(AskedAll(list, ns[..n], AllTrue(n)), ns[..n], ns[n]);
      assert ns[..n] + [ns[n]] == ns;
    }
  }

  /** The law of the least recently used: after a run of requests from an empty cache, without errors, a block is
      in the list exactly if it has been asked for and fewer other blocks than there are places have been since. */
  lemma CachedIff(list: seq<Option<nat>>, ns: seq<nat>, x: nat)
    requires list != [] && forall i | 0 <= i < |list| :: list[i] == None
    ensures Some(x) in AskedAll(list, ns, AllTrue(|ns|)) <==> x in ns && |Since(ns, x)| < |list|
  {
    RanksInRun(list, ns);
    var list' := AskedAll(list, ns, AllTrue(|ns|));
    assert GoneOk(list', ns, x);
    if Some(x) in list' {
      var i :| 0 <= i < |list'| && list'[i] == Some(x);
      assert RankOk(list', ns, i);
    }
  }

  /** So it is for the cache itself, from its making on: a block is cached exactly if fewer than NBUF other blocks
      have been asked for since. */
  method NewCacheIsLru(device: Device, ns: seq<nat>) returns (cache: Cache, oks: seq<bool>)
    modifies device
    ensures fresh(cache) && AtRest(cache) && |oks| == |ns|
    ensures (forall i | 0 <= i < |oks| :: oks[i]) ==>
              forall x: nat :: x in cache.holder <==> x in ns && |Since(ns, x)| < NBUF
  {
    cache := new Cache(device);
    ghost var list := HeldList(cache.order);
    oks := AskAll(cache, ns);
    if forall i | 0 <= i < |oks| :: oks[i] { CachedNow(cache, list, ns, oks); }
  }

  lemma CachedNow(cache: Cache, list: seq<Option<nat>>, ns: seq<nat>, oks: seq<bool>)
    requires cache.Valid() && |list| == NBUF && |oks| == |ns| && forall i | 0 <= i < |oks| :: oks[i]
    requires forall i | 0 <= i < |list| :: list[i] == None
    requires HeldList(cache.order) == AskedAll(list, ns, oks)
    ensures forall x: nat :: x in cache.holder <==> x in ns && |Since(ns, x)| < NBUF
  {
    HeldOnce(cache);
    assert oks == AllTrue(|ns|);
    forall x: nat ensures x in cache.holder <==> x in ns && |Since(ns, x)| < NBUF {
      CachedIff(list, ns, x);
    }
  }
}
