/** Resolving paths from the root directory. */
module Path {
  import opened Bytes
  import opened DiskFormat
  import opened Fsck
  import opened FileSystem
  import opened Inodes
  import opened InodeTable
  import opened DirectoryFormat
  import opened Directory
  import opened PathNames
  import opened Wrappers

  // ----- what a path means

  /** The directories of a disk: the type and the bytes of every inode. */
  datatype Tree = Tree(blocks: seq<Block>, inodes: seq<DiskInode>)

  ghost function Step(t: Tree, n: nat, name: Name): Option<DirectoryLookup> {
    if n < |t.inodes| then LookupOf(t.inodes[n].kind, Content(t.blocks, t.inodes[n]), name) else None
  }

  /** Folding directory lookup over the components, starting at inode `n`. */
  ghost function Walk(t: Tree, n: nat, names: seq<Name>): Option<nat>
    decreases |names|
  {
    if names == [] then Some(n)
    else
      var found := Step(t, n, names[0]);
      if found == None then None else Walk(t, found.value.inode_number, names[1..])
  }

  /** The same walk, stopped in front of the last component, which must be preceded by a directory. */
  ghost function WalkToParent(t: Tree, n: nat, names: seq<Name>): Option<nat>
    decreases |names|
  {
    if names == [] then None
    else if |names| == 1 then if n < |t.inodes| && t.inodes[n].kind == DIRECTORY then Some(n) else None
    else
      var found := Step(t, n, names[0]);
      if found == None then None else WalkToParent(t, found.value.inode_number, names[1..])
  }

  /** `resolve_parent` stops one component earlier than `resolve_path` and agrees with it: looking the last
      name up in the parent is resolving the whole path. */
  lemma {:induction false} ParentAgrees(t: Tree, n: nat, names: seq<Name>)
    requires names != []
    ensures var parent := WalkToParent(t, n, names);
      Walk(t, n, names) ==
      if parent == None then None
      else
        var found := Step(t, parent.value, names[|names| - 1]);
        if found == None then None else Some(found.value.inode_number)
    decreases |names|
  {
    var found := Step(t, n, names[0]);
    if |names| == 1 {
      assert names[1..] == [];
    } else if found.Some? {
      ParentAgrees(t, found.value.inode_number, names[1..]);
      assert names[1..][|names[1..]| - 1] == names[|names| - 1];
    }
  }

  /** The parent is the directory that the path without its last component leads to. */
  lemma {:induction false} ParentMeans(t: Tree, n: nat, names: seq<Name>)
    requires names != []
    ensures var p := Walk(t, n, names[..|names| - 1]);
      WalkToParent(t, n, names) ==
      if p.Some? && p.value < |t.inodes| && t.inodes[p.value].kind == DIRECTORY then p else None
    decreases |names|
  {
    var front := names[..|names| - 1];
    var found := Step(t, n, names[0]);
    if |names| == 1 {
      assert front == [];
    } else if found.Some? {
      ParentMeans(t, found.value.inode_number, names[1..]);
      assert names[1..][..|names[1..]| - 1] == front[1..];
    }
  }

  /** Walking a longer path is walking its beginning and then the rest. */
  lemma {:induction false} WalkConcat(t: Tree, n: nat, a: seq<Name>, b: seq<Name>)
    ensures Walk(t, n, a + b) == if Walk(t, n, a) == None then None else Walk(t, Walk(t, n, a).value, b)
    decreases |a|
  {
    if a == [] {
      assert a + b == b;
    } else {
      assert (a + b)[1..] == a[1..] + b;
      var found := Step(t, n, a[0]);
      if found.Some? { WalkConcat(t, found.value.inode_number, a[1..], b); }
    }
  }

  /** Every live entry of every directory names an inode of this disk. */
  ghost predicate NumbersOk(t: Tree) {
    forall n, k: nat | 0 <= n < |t.inodes| && t.inodes[n].kind == DIRECTORY
                       && LiveAt(Content(t.blocks, t.inodes[n]), k) ::
      EntryNumber(Content(t.blocks, t.inodes[n]), k) < NUM_INODES
  }

  lemma FoundNumberOk(t: Tree, n: nat, name: Name)
    requires NumbersOk(t) && Step(t, n, name).Some?
    ensures Step(t, n, name).value.inode_number < NUM_INODES
  {
    var c := Content(t.blocks, t.inodes[n]);
    FindMeans(c, name, 0);
    var k :| 0 <= k && (k + 1) * ENTRY_SIZE <= |c| && Matches(c, k, name)
             && Step(t, n, name).value == DirectoryLookup(EntryNumber(c, k), k * ENTRY_SIZE);
    assert LiveAt(c, k);
  }

  // ----- the walk

  /** Two free slots: one for the inode in hand and one for the next. */
  ghost predicate HasRoom(table: seq<Inode>) {
    exists a, b :: 0 <= a < b < |table| && table[a].refcnt == 0 && table[b].refcnt == 0
  }

  /** Whether a slot is free beside the one of the inode in hand, which is in the table already or takes a slot. */
  ghost predicate SlotLeft(table: seq<Inode>, hand: Option<nat>) {
    if hand == None || Held(table, hand.value) then HasFreeSlot(table) else HasRoom(table)
  }

  /** With inode `hand` in hand, a reference to inode `n` can be had. */
  ghost predicate CanGet(table: seq<Inode>, hand: Option<nat>, n: nat) {
    Held(table, n) || hand == Some(n) || SlotLeft(table, hand)
  }

  /** The table has room for every step from inode `n` along `names`. */
  ghost predicate RoomAhead(t: Tree, table: seq<Inode>, n: nat, names: seq<Name>)
    decreases |names|
  {
    names == [] || var found := Step(t, n, names[0]);
    found == None || (CanGet(table, Some(n), found.value.inode_number)
                      && RoomAhead(t, table, found.value.inode_number, names[1..]))
  }

  /** The names that are looked up: all of them, or all but the last. */
  function Way(names: seq<Name>, stop_before_last: bool): seq<Name> {
    if stop_before_last && names != [] then names[..|names| - 1] else names
  }

  ghost predicate RoomFor(t: Tree, table: seq<Inode>, names: seq<Name>, stop_before_last: bool) {
    CanGet(table, None, ROOT_INODE) && RoomAhead(t, table, ROOT_INODE, Way(names, stop_before_last))
  }

  /** Two free slots are always enough. */
  lemma {:induction false} TwoSlotsSuffice(t: Tree, table: seq<Inode>, n: nat, names: seq<Name>)
    requires HasRoom(table)
    ensures HasFreeSlot(table) && CanGet(table, None, ROOT_INODE) && RoomAhead(t, table, n, names)
    decreases |names|
  {
    if names != [] {
      var found := Step(t, n, names[0]);
      if found.Some? { TwoSlotsSuffice(t, table, found.value.inode_number, names[1..]); }
    }
  }

  /** Slot `s` has the count it had, one more if it is `r`; if it was live it still holds the same inode. */
  ghost predicate SlotKept(table: seq<Inode>, table': seq<Inode>, r: Option<nat>, s: nat)
    requires s < |table| == |table'|
  {
    && table'[s].refcnt == table[s].refcnt + (if r == Some(s) then 1 else 0)
    && (table[s].refcnt > 0 ==> table'[s].number == table[s].number)
  }

  ghost predicate OneMore(table: seq<Inode>, table': seq<Inode>, r: Option<nat>) {
    && |table'| == |table| && (r.Some? ==> r.value < |table|)
    && forall s | 0 <= s < |table| :: SlotKept(table, table', r, s)
  }

  lemma OneMoreAfterGet(table: seq<Inode>, inodes: seq<DiskInode>, table': seq<Inode>, s: nat, n: nat)
    requires n < |inodes| && GotSlot(table, table', inodes, s, n)
    ensures OneMore(table, table', Some(s))
  {
    forall t | 0 <= t < |table| ensures SlotKept(table, table', Some(s), t) {
    }
  }

  lemma OneMoreAfterPut(table: seq<Inode>, table': seq<Inode>, s: nat)
    requires OneMore(table, table', Some(s)) && Live(table', s)
    ensures OneMore(table, table'[s := table'[s].(refcnt := table'[s].refcnt - 1)], None)
  {
    var table'' := table'[s := table'[s].(refcnt := table'[s].refcnt - 1)];
    forall t | 0 <= t < |table| ensures SlotKept(table, table'', None, t) {
      assert SlotKept(table, table', Some(s), t);
    }
  }

  /** The reference to slot `s` is exchanged for one to slot `r`, taken before the other is dropped. */
  lemma OneMoreAfterExchange(table: seq<Inode>, inodes: seq<DiskInode>, t1: seq<Inode>, t2: seq<Inode>, s: nat, r: nat,
                             n: nat)
    requires OneMore(table, t1, Some(s)) && Live(t1, s)
    requires n < |inodes| && GotSlot(t1, t2, inodes, r, n)
    ensures Live(t2, s) && OneMore(table, t2[s := t2[s].(refcnt := t2[s].refcnt - 1)], Some(r))
    ensures var t3 := t2[s := t2[s].(refcnt := t2[s].refcnt - 1)]; Live(t3, r) && t3[r].number == n
  {
    var t3 := t2[s := t2[s].(refcnt := t2[s].refcnt - 1)];
    forall t | 0 <= t < |table| ensures SlotKept(table, t3, Some(r), t) {
      assert SlotKept(table, t1, Some(s), t);
    }
    assert SlotKept(table, t1, Some(s), r);
  }

  /** Seen from outside: only the inode returned has one more reference. */
  lemma RefsOfOneMore(table: seq<Inode>, table': seq<Inode>, inodes: seq<DiskInode>, r: Option<nat>, m: nat)
    requires TableOk(table, inodes) && TableOk(table', inodes) && OneMore(table, table', r)
    ensures Refs(table', m) == Refs(table, m) + if r.Some? && table'[r.value].number == m then 1 else 0
  {
    if Held(table', m) {
      var s: nat :| Live(table', s) && table'[s].number == m;
      RefsOfSlot(table', inodes, s);
      assert SlotKept(table, table', r, s);
      if Live(table, s) {
        RefsOfSlot(table, inodes, s);
      } else if t: nat :| Live(table, t) && table[t].number == m {
        assert SlotKept(table, table', r, t) && Live(table', t);
      }
    } else if t: nat :| Live(table, t) && table[t].number == m {
      assert SlotKept(table, table', r, t) && Live(table', t);
    }
    assert r.Some? ==> SlotKept(table, table', r, r.value);
  }

  /** What the table, with the inode in hand in slot `s`, has to offer. */
  lemma RoomForNext(table: seq<Inode>, table': seq<Inode>, inodes: seq<DiskInode>, s: nat, n: nat)
    requires OneMore(table, table', Some(s)) && TableOk(table', inodes) && Live(table', s)
    ensures CanGet(table, Some(table'[s].number), n) <==> Held(table', n) || HasFreeSlot(table')
  {
    var hand := table'[s].number;
    forall u: nat | u < |table|
      ensures Live(table, u) ==> Live(table', u) && table'[u].number == table[u].number
      ensures u != s ==> table'[u].refcnt == table[u].refcnt
    {
      assert SlotKept(table, table', Some(s), u);
    }
    assert Held(table', n) <==> Held(table, n) || hand == n;
    assert Held(table, hand) <==> Live(table, s);
    if Live(table, s) {
      assert HasFreeSlot(table') <==> HasFreeSlot(table);
    } else {
      assert table[s].refcnt == 0;
      assert HasFreeSlot(table') <==> HasRoom(table);
    }
  }

  ghost function TreeOf(fs: State): Tree
    reads fs
  {
    Tree(fs.blocks, fs.inodes)
  }

  /** The walk lets go of the inode in hand. */
  method LetGo(fs: State, s: nat, ghost table: seq<Inode>)
    requires Valid(fs) && Live(fs.table, s) && OneMore(table, fs.table, Some(s))
    modifies fs`table
    ensures Valid(fs) && OneMore(table, fs.table, None)
  {
    OneMoreAfterPut(table, fs.table, s);
    PutInode(fs, s);
  }

  /** `current = get_inode(n)`: the new reference is taken before the old one is dropped. */
  method Exchange(fs: State, s: nat, n: nat, ghost table: seq<Inode>) returns (r: Option<nat>)
    requires Valid(fs) && Live(fs.table, s) && n < NUM_INODES && OneMore(table, fs.table, Some(s))
    modifies fs`table
    ensures Valid(fs) && OneMore(table, fs.table, r)
    ensures r.Some? ==> Live(fs.table, r.value) && fs.table[r.value].number == n
    ensures r.Some? <==> CanGet(table, Some(old(fs.table[s].number)), n)
  {
    RoomForNext(table, fs.table, fs.inodes, s, n);
    r := GetInode(fs, n);
    if r.Some? {
      OneMoreAfterExchange(table, fs.inodes, old(fs.table), fs.table, s, r.value, n);
      PutInode(fs, s);
    } else {
      LetGo(fs, s, table);
    }
  }

  /** One step of the walk: look `name` up in the inode of slot `s`, take a reference to what was found and
      only then drop the one to `s`. */
  method Advance(fs: State, s: nat, name: Name, ghost table: seq<Inode>) returns (r: Option<nat>)
    requires Valid(fs) && Live(fs.table, s) && NumbersOk(TreeOf(fs)) && OneMore(table, fs.table, Some(s))
    modifies fs`table
    ensures Valid(fs) && OneMore(table, fs.table, r)
    ensures r.Some? ==> Live(fs.table, r.value) && Step(TreeOf(fs), old(fs.table[s].number), name).Some?
                        && var found := Step(TreeOf(fs), old(fs.table[s].number), name).value;
                        fs.table[r.value].number == found.inode_number
    ensures r == None <==>
              var n := old(fs.table[s].number);
              var found := Step(TreeOf(fs), n, name);
              found == None || !CanGet(table, Some(n), found.value.inode_number)
  {
    var found := Lookup(fs, s, name);
    if found == None {
      LetGo(fs, s, table);
      return None;
    }
    FoundNumberOk(TreeOf(fs), fs.table[s].number, name);
    r := Exchange(fs, s, found.value.inode_number, table);
  }

  /** From inode `n` with `rest` still ahead, the walk ends where it was to end from the root. */
  ghost predicate Ahead(t: Tree, names: seq<Name>, n: nat, rest: seq<Name>) {
    && Walk(t, ROOT_INODE, names) == Walk(t, n, rest)
    && |rest| <= |names| && rest == names[|names| - |rest|..]
    && (rest != [] || names == [] ==> WalkToParent(t, ROOT_INODE, names) == WalkToParent(t, n, rest))
  }

  lemma AheadStep(t: Tree, names: seq<Name>, n: nat, rest: seq<Name>, name: Name, rest': seq<Name>)
    requires Ahead(t, names, n, rest) && rest == [name] + rest'
    ensures var found := Step(t, n, name);
      && (found.Some? ==> Ahead(t, names, found.value.inode_number, rest'))
      && (found == None ==> Walk(t, ROOT_INODE, names) == None)
      && (found == None && rest' != [] ==> WalkToParent(t, ROOT_INODE, names) == None)
    ensures name == names[|names| - |rest|]
  {
    assert rest[1..] == rest';
    assert rest' == names[|names| - |rest'|..];
  }

  /** Room for the step over `name` and for the steps behind it is room for the rest of the way. */
  lemma RoomStep(t: Tree, table: seq<Inode>, n: nat, name: Name, rest': seq<Name>, stop_before_last: bool)
    ensures var found := Step(t, n, name);
      if stop_before_last && rest' == [] then RoomAhead(t, table, n, Way([name] + rest', stop_before_last))
      else RoomAhead(t, table, n, Way([name] + rest', stop_before_last)) <==>
             (found.Some? ==> CanGet(table, Some(n), found.value.inode_number)
                              && RoomAhead(t, table, found.value.inode_number, Way(rest', stop_before_last)))
  {
    var way := Way([name] + rest', stop_before_last);
    if !(stop_before_last && rest' == []) {
      assert way[0] == name && way[1..] == Way(rest', stop_before_last);
    }
  }

  method GetRoot(fs: State) returns (r: Option<nat>)
    requires Valid(fs)
    modifies fs`table
    ensures Valid(fs) && OneMore(old(fs.table), fs.table, r)
    ensures r.Some? ==> Live(fs.table, r.value) && fs.table[r.value].number == ROOT_INODE
    ensures r.Some? <==> old(CanGet(fs.table, None, ROOT_INODE))
  {
    r := GetInode(fs, ROOT_INODE);
    if r.Some? {
      OneMoreAfterGet(old(fs.table), fs.inodes, fs.table, r.value, ROOT_INODE);
    } else {
      forall s | 0 <= s < |fs.table| ensures SlotKept(old(fs.table), fs.table, None, s) {
      }
    }
  }

  /** What a walk over `names` that ended with inode `n` has found. */
  ghost predicate Arrived(t: Tree, table: seq<Inode>, names: seq<Name>, stop_before_last: bool, n: Option<nat>,
                          last: Name)
  {
    var goal := if stop_before_last then WalkToParent(t, ROOT_INODE, names) else Walk(t, ROOT_INODE, names);
    && n == (if RoomFor(t, table, names, stop_before_last) then goal else None)
    && (n.Some? && stop_before_last ==> names != [] && last == names[|names| - 1])
  }

  ghost function NumberAt(fs: State, r: Option<nat>): Option<nat>
    reads fs
  {
    if r.Some? && r.value < |fs.table| then Some(fs.table[r.value].number) else None
  }

  /** The walk over `names` goes on at inode `n` with `rest` of the path, or has failed. */
  ghost predicate OnTheWay(t: Tree, table: seq<Inode>, names: seq<Name>, stop_before_last: bool, n: Option<nat>,
                           rest: seq<byte>)
  {
    if n.Some? then
      && Ahead(t, names, n.value, Components(rest))
      && (stop_before_last ==> Components(rest) != [] || names == [])
      && (RoomFor(t, table, names, stop_before_last) <==>
            RoomAhead(t, table, n.value, Way(Components(rest), stop_before_last)))
    else
      RoomFor(t, table, names, stop_before_last) ==>
        Walk(t, ROOT_INODE, names) == None && (stop_before_last ==> WalkToParent(t, ROOT_INODE, names) == None)
  }

  /** One round of the loop of `walk`, for the component `name` of `rest`: `done` when it returns, with the
      inode it returns. */
  method WalkRound(fs: State, s: nat, name: Name, rest': seq<byte>, stop_before_last: bool,
                   ghost rest: seq<byte>, ghost table: seq<Inode>, ghost names: seq<Name>)
    returns (done: bool, r: Option<nat>, last: Name)
    requires Valid(fs) && NumbersOk(TreeOf(fs)) && OneMore(table, fs.table, Some(s)) && Live(fs.table, s)
    requires OnTheWay(TreeOf(fs), table, names, stop_before_last, Some(fs.table[s].number), rest)
    requires Components(rest) == [name] + Components(rest')
    modifies fs`table
    ensures Valid(fs) && OneMore(table, fs.table, r) && (r.Some? ==> Live(fs.table, r.value))
    ensures if done then Arrived(TreeOf(fs), table, names, stop_before_last, NumberAt(fs, r), last)
            else OnTheWay(TreeOf(fs), table, names, stop_before_last, NumberAt(fs, r), rest')
  {
    AheadStep(TreeOf(fs), names, fs.table[s].number, Components(rest), name, Components(rest'));
    RoomStep(TreeOf(fs), table, fs.table[s].number, name, Components(rest'), stop_before_last);
    var more := HasComponent(rest');
    if stop_before_last && !more {
      if fs.table[s].disk.kind != DIRECTORY {
        LetGo(fs, s, table);
        return true, None, [];
      }
      return true, Some(s), name;
    }
    r := Advance(fs, s, name, table);
    return false, r, [];
  }

  /** The loop of `walk`, from the root on. */
  method WalkFromRoot(fs: State, start: Option<nat>, path: seq<byte>, stop_before_last: bool, ghost table: seq<Inode>)
    returns (r: Option<nat>, last: Name)
    requires Valid(fs) && NumbersOk(TreeOf(fs)) && OneMore(table, fs.table, start) && path != []
    requires start.Some? ==> Live(fs.table, start.value) && fs.table[start.value].number == ROOT_INODE
    requires start.Some? <==> CanGet(table, None, ROOT_INODE)
    modifies fs`table
    ensures Valid(fs) && OneMore(table, fs.table, r) && (r.Some? ==> Live(fs.table, r.value))
    ensures Arrived(TreeOf(fs), table, Components(path), stop_before_last, NumberAt(fs, r), last)
  {
    ghost var names := Components(path);
    var current, rest := start, path;
    while current.Some?
      invariant Valid(fs) && OneMore(table, fs.table, current) && (current.Some? ==> Live(fs.table, current.value))
      invariant TreeOf(fs) == old(TreeOf(fs))
      invariant OnTheWay(TreeOf(fs), table, names, stop_before_last, NumberAt(fs, current), rest)
      decreases current.Some?, |rest|
    {
      var name, rest' := NextComponent(rest);
      if name == [] {
        break;
      }
      var done;
      done, current, last := WalkRound(fs, current.value, name, rest', stop_before_last, rest, table, names);
      if done {
        return current, last;
      }
      rest := rest';
    }
    if stop_before_last {
      if current.Some? {
        LetGo(fs, current.value, table);
      }
      return None, [];
    }
    return current, [];
  }

  /** `walk`: from the root along `path`, to its end or, with `stop_before_last`, to the parent of its last
      component. */
  method WalkPath(fs: State, path: seq<byte>, stop_before_last: bool) returns (r: Option<nat>, last: Name)
    requires Valid(fs) && NumbersOk(TreeOf(fs))
    modifies fs`table
    ensures Valid(fs) && OneMore(old(fs.table), fs.table, r) && (r.Some? ==> Live(fs.table, r.value) && path != [])
    ensures path != [] ==>
              Arrived(TreeOf(fs), old(fs.table), Components(path), stop_before_last, NumberAt(fs, r), last)
  {
    if path == [] {
      forall s | 0 <= s < |fs.table| ensures SlotKept(fs.table, fs.table, None, s) {
      }
      return None, [];
    }
    ghost var table := fs.table;
    var root := GetRoot(fs);
    r, last := WalkFromRoot(fs, root, path, stop_before_last, table);
  }

  /** The inode that `path` names, with one new reference to it; every other count is as before. */
  method ResolvePath(fs: State, path: seq<byte>) returns (r: Option<nat>)
    requires Valid(fs) && NumbersOk(TreeOf(fs))
    modifies fs`table
    ensures Valid(fs)
    ensures r.Some? ==> Live(fs.table, r.value) && path != []
                        && Walk(TreeOf(fs), ROOT_INODE, Components(path)) == Some(fs.table[r.value].number)
    ensures r.Some? <==> path != [] && Walk(TreeOf(fs), ROOT_INODE, Components(path)).Some?
                         && RoomFor(TreeOf(fs), old(fs.table), Components(path), false)
    ensures r == None && old(HasRoom(fs.table)) ==>
              path == [] || Walk(TreeOf(fs), ROOT_INODE, Components(path)) == None
    ensures forall m: nat ::
              Refs(fs.table, m) == old(Refs(fs.table, m)) + if r.Some? && fs.table[r.value].number == m then 1 else 0
  {
    ghost var table := fs.table;
    var last;
    r, last := WalkPath(fs, path, false);
    if HasRoom(table) { TwoSlotsSuffice(TreeOf(fs), table, ROOT_INODE, Components(path)); }
    forall m: nat
      ensures Refs(fs.table, m) == Refs(table, m) + if r.Some? && fs.table[r.value].number == m then 1 else 0
    {
      RefsOfOneMore(table, fs.table, fs.inodes, r, m);
    }
  }

  /** The directory that holds the last component of `path`, and that component. */
  method ResolveParent(fs: State, path: seq<byte>) returns (r: Option<nat>, name: Name)
    requires Valid(fs) && NumbersOk(TreeOf(fs))
    modifies fs`table
    ensures Valid(fs)
    ensures r.Some? ==> Live(fs.table, r.value) && Components(path) != []
                        && fs.table[r.value].disk.kind == DIRECTORY
                        && Walk(TreeOf(fs), ROOT_INODE, Components(path)[..|Components(path)| - 1])
                             == Some(fs.table[r.value].number)
                        && WalkToParent(TreeOf(fs), ROOT_INODE, Components(path)) == Some(fs.table[r.value].number)
                        && name == Components(path)[|Components(path)| - 1]
    ensures r.Some? <==> WalkToParent(TreeOf(fs), ROOT_INODE, Components(path)).Some?
                         && RoomFor(TreeOf(fs), old(fs.table), Components(path), true)
    ensures r == None && old(HasRoom(fs.table)) ==> WalkToParent(TreeOf(fs), ROOT_INODE, Components(path)) == None
    ensures forall m: nat ::
              Refs(fs.table, m) == old(Refs(fs.table, m)) + if r.Some? && fs.table[r.value].number == m then 1 else 0
  {
    ghost var table := fs.table;
    r, name := WalkPath(fs, path, true);
    if HasRoom(table) { TwoSlotsSuffice(TreeOf(fs), table, ROOT_INODE, Way(Components(path), true)); }
    if r.Some? { ParentMeans(TreeOf(fs), ROOT_INODE, Components(path)); }
    forall m: nat
      ensures Refs(fs.table, m) == Refs(table, m) + if r.Some? && fs.table[r.value].number == m then 1 else 0
    {
      RefsOfOneMore(table, fs.table, fs.inodes, r, m);
    }
  }

  // ----- what keeps directory entries inside the disk

  /** Directory `n` has got the entry (name, inode_number), and no other file has changed. */
  ghost predicate EntryAdded(t: Tree, t': Tree, n: nat, inode_number: u16, name: Name) {
    && |t'.inodes| == |t.inodes| && n < |t.inodes| && |name| <= DIRECTORY_NAME_SIZE
    && |Content(t.blocks, t.inodes[n])| % ENTRY_SIZE == 0
    && t.inodes[n].kind == t'.inodes[n].kind == DIRECTORY
    && Content(t'.blocks, t'.inodes[n]) == WithEntry(Content(t.blocks, t.inodes[n]), inode_number, name)
    && forall m | 0 <= m < |t.inodes| && m != n ::
         t'.inodes[m] == t.inodes[m] && Content(t'.blocks, t'.inodes[m]) == Content(t.blocks, t.inodes[m])
  }

  /** The new entry is where linking put it, and every other live entry was there before. */
  lemma EntriesAfterLink(c: seq<byte>, inode_number: u16, name: Name, k: nat)
    requires |c| % ENTRY_SIZE == 0 && |name| <= DIRECTORY_NAME_SIZE && inode_number != 0
    ensures var c', j := WithEntry(c, inode_number, name), LinkIndex(c);
      && (k == j ==> LiveAt(c', k) && EntryNumber(c', k) == inode_number)
      && (k != j ==> (LiveAt(c', k) <==> LiveAt(c, k)) && (LiveAt(c, k) ==> EntryNumber(c', k) == EntryNumber(c, k)))
  {
    var c', j := WithEntry(c, inode_number, name), LinkIndex(c);
    LengthAfterLink(c, c', j, inode_number, name);
    if (k + 1) * ENTRY_SIZE <= |c'| { EntryAfterLink(c, j, inode_number, name, k); }
  }

  /** `directory_link` accepts every number from 1 to 65535.  The entries of a disk on which all are meaningful
      stay meaningful exactly if the number linked is that of an inode. */
  lemma LinkKeepsNumbers(t: Tree, t': Tree, n: nat, inode_number: u16, name: Name)
    requires NumbersOk(t) && EntryAdded(t, t', n, inode_number, name) && inode_number != 0
    ensures NumbersOk(t') <==> inode_number < NUM_INODES
  {
    var c, c' := Content(t.blocks, t.inodes[n]), Content(t'.blocks, t'.inodes[n]);
    EntriesAfterLink(c, inode_number, name, LinkIndex(c));
    if inode_number < NUM_INODES {
      forall k: nat | LiveAt(c', k) ensures EntryNumber(c', k) < NUM_INODES {
        EntriesAfterLink(c, inode_number, name, k);
      }
    } else {
      assert LiveAt(c', LinkIndex(c)) && EntryNumber(c', LinkIndex(c)) >= NUM_INODES;
    }
  }

  // ----- linking and resolving

  /** After linking, the new name is found in its directory, and every other NUL-free name everywhere as before. */
  lemma StepAfterLink(t: Tree, t': Tree, n: nat, inode_number: u16, name: Name, m: nat, other: Name)
    requires EntryAdded(t, t', n, inode_number, name) && inode_number != 0 && ValidName(name) && NulFree(name)
             && NulFree(other)
    requires Step(t, n, name) == None
    ensures if m == n && other == name then Step(t', m, other).Some?
                                            && Step(t', m, other).value.inode_number == inode_number
            else Step(t', m, other) == Step(t, m, other)
  {
    if m == n { LinkExtendsMap(Content(t.blocks, t.inodes[n]), inode_number, name); }
  }

  predicate NulFreeNames(names: seq<Name>) {
    forall i | 0 <= i < |names| :: NulFree(names[i])
  }

  /** Whatever resolved before resolves as before. */
  lemma {:induction false} WalkAfterLink(t: Tree, t': Tree, n: nat, inode_number: u16, name: Name, start: nat,
                                         names: seq<Name>)
    requires EntryAdded(t, t', n, inode_number, name) && inode_number != 0 && ValidName(name) && NulFree(name)
    requires Step(t, n, name) == None && NulFreeNames(names) && Walk(t, start, names).Some?
    ensures Walk(t', start, names) == Walk(t, start, names)
    decreases |names|
  {
    if names != [] {
      StepAfterLink(t, t', n, inode_number, name, start, names[0]);
      WalkAfterLink(t, t', n, inode_number, name, Step(t, start, names[0]).value.inode_number, names[1..]);
    }
  }

  /** A path whose parent directory got the new entry resolves to what was linked. */
  lemma LinkedPathResolves(t: Tree, t': Tree, n: nat, inode_number: u16, parent: seq<Name>, name: Name)
    requires EntryAdded(t, t', n, inode_number, name) && inode_number != 0 && ValidName(name) && NulFree(name)
    requires Step(t, n, name) == None && NulFreeNames(parent) && Walk(t, ROOT_INODE, parent) == Some(n)
    ensures Walk(t', ROOT_INODE, parent + [name]) == Some(inode_number as nat)
  {
    WalkAfterLink(t, t', n, inode_number, name, ROOT_INODE, parent);
    WalkConcat(t', ROOT_INODE, parent, [name]);
    StepAfterLink(t, t', n, inode_number, name, n, name);
    var found := Step(t', n, name);
    assert Walk(t', n, [name]) == Walk(t', found.value.inode_number, []);
  }

  /** A walk that resolves only now passes through the new entry. */
  lemma {:induction false} NewWalksUseTheEntry(t: Tree, t': Tree, n: nat, inode_number: u16, name: Name, start: nat,
                                               names: seq<Name>)
    requires EntryAdded(t, t', n, inode_number, name) && inode_number != 0 && ValidName(name) && NulFree(name)
    requires Step(t, n, name) == None && NulFreeNames(names)
    requires Walk(t', start, names) != Walk(t, start, names)
    ensures exists i :: 0 <= i < |names| && names[i] == name && Walk(t, start, names[..i]) == Some(n)
    decreases |names|
  {
    StepAfterLink(t, t', n, inode_number, name, start, names[0]);
    if start == n && names[0] == name {
      assert names[..0] == [] && Walk(t, start, names[..0]) == Some(n);
    } else {
      var next := Step(t, start, names[0]).value.inode_number;
      NewWalksUseTheEntry(t, t', n, inode_number, name, next, names[1..]);
      var i :| 0 <= i < |names[1..]| && names[1..][i] == name && Walk(t, next, names[1..][..i]) == Some(n);
      assert names[..i + 1][1..] == names[1..][..i] && names[i + 1] == name;
      assert Walk(t, start, names[..i + 1]) == Some(n);
    }
  }
}
