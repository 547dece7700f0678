/** A directory is a file of 16-byte entries: a 16-bit inode number, 0 in a free entry, and a name of up
    to 14 bytes, padded with NULs.  Here a directory's bytes are read as a finite map. */
module DirectoryFormat {
  import opened Bytes
  import opened Growth
  import opened Wrappers

  const DIRECTORY_NAME_SIZE := 14
  const ENTRY_SIZE := 16
  const NUL: byte := 0
  const SLASH: byte := 47

  type Name = seq<byte>
  type StoredName = n: seq<byte> | |n| == 14 witness seq(14, _ => 0)

  datatype DirectoryLookup = DirectoryLookup(inode_number: nat, offset: nat)

  // ----- names

  predicate ValidName(name: Name) {
    0 < |name| <= DIRECTORY_NAME_SIZE && SLASH !in name
  }

  predicate NulFree(name: Name) {
    NUL !in name
  }

  method IsValidName(name: Name) returns (ok: bool)
    ensures ok <==> ValidName(name)
    ensures ok <==> 1 <= |name| <= 14 && forall i | 0 <= i < |name| :: name[i] != 47
  {
    if |name| == 0 || |name| > DIRECTORY_NAME_SIZE {
      return false;
    }
    var i := 0;
    while i < |name|
      invariant 0 <= i <= |name|
      invariant SLASH !in name[..i]
    {
      if name[i] == SLASH {
        return false;
      }
      i := i + 1;
    }
    assert name[..i] == name;
    return true;
  }

  /** A stored name and the name it was made from. */
  predicate NameEqual(stored: StoredName, name: Name) {
    && |name| <= DIRECTORY_NAME_SIZE
    && stored[..|name|] == name
    && (|name| == DIRECTORY_NAME_SIZE || stored[|name|] == NUL)
  }

  method IsNameEqual(stored: StoredName, name: Name) returns (ok: bool)
    ensures ok <==> NameEqual(stored, name)
  {
    if |name| > DIRECTORY_NAME_SIZE {
      return false;
    }
    var i := 0;
    while i < |name|
      invariant 0 <= i <= |name|
      invariant stored[..i] == name[..i]
    {
      if stored[i] != name[i] {
        return false;
      }
      i := i + 1;
    }
    return |name| == DIRECTORY_NAME_SIZE || stored[|name|] == NUL;
  }

  function Pad(name: Name): (stored: StoredName)
    requires |name| <= DIRECTORY_NAME_SIZE
    ensures forall i | 0 <= i < 14 :: stored[i] == if i < |name| then name[i] else NUL
  {
    seq(14, i requires 0 <= i < 14 => if i < |name| then name[i] else NUL)
  }

  /** The bytes of a stored name before its first NUL. */
  function Trim(stored: seq<byte>): (name: Name)
    ensures |name| <= |stored| && stored[..|name|] == name && NulFree(name)
    ensures |name| == |stored| || stored[|name|] == NUL
  {
    if stored == [] || stored[0] == NUL then [] else [stored[0]] + Trim(stored[1..])
  }

  /** For names without NUL the comparison of `is_name_equal` is equality of names. */
  lemma NameEqualIsEquality(stored: StoredName, name: Name)
    requires NulFree(name)
    ensures NameEqual(stored, name) <==> |name| <= DIRECTORY_NAME_SIZE && name == Trim(stored)
  {
    if NameEqual(stored, name) && |Trim(stored)| != |name| {
      assert false;
    }
  }

  lemma TrimOfPad(name: Name)
    requires |name| <= DIRECTORY_NAME_SIZE && NulFree(name)
    ensures Trim(Pad(name)) == name
  {
    assert Pad(name)[..|name|] == name;
    NameEqualIsEquality(Pad(name), name);
  }

  /** Names without NUL never stand for one another. */
  lemma NulFreeNamesDoNotCollide(name: Name, other: Name)
    requires ValidName(name) && ValidName(other) && NulFree(name) && NulFree(other)
    ensures NameEqual(Pad(name), other) <==> other == name
  {
    NameEqualIsEquality(Pad(name), other);
    TrimOfPad(name);
  }

  /** `is_valid_name` lets NUL through, and `is_name_equal` stops at it.  A linked name is found under a second
      valid name as well exactly if it is shorter than 14 bytes, for then a NUL can be added to it, or has a NUL
      behind its first byte, for then it can be cut there. */
  lemma NulShadows(name: Name)
    requires ValidName(name)
    ensures (exists other: Name :: ValidName(other) && other != name && NameEqual(Pad(name), other))
            <==> |name| < DIRECTORY_NAME_SIZE || exists i :: 0 < i < |name| && name[i] == NUL
  {
    if |name| < DIRECTORY_NAME_SIZE {
      var longer := name + [NUL];
      assert Pad(name)[..|longer|] == longer && NameEqual(Pad(name), longer);
    } else if i :| 0 < i < |name| && name[i] == NUL {
      assert Pad(name)[..i] == name[..i] && NameEqual(Pad(name), name[..i]);
    }
    forall other: Name | ValidName(other) && other != name && NameEqual(Pad(name), other)
      ensures |name| < DIRECTORY_NAME_SIZE || exists i :: 0 < i < |name| && name[i] == NUL
    {
      if |name| == DIRECTORY_NAME_SIZE {
        assert Pad(name) == name;
        assert 0 < |other| < |name| && name[|other|] == NUL;
      }
    }
  }

  /** The concrete cases: "a", NUL, "b" is found under "a", and "a" under "a", NUL. */
  lemma NulShadowsExample()
    ensures ValidName([97, 0, 98]) && NameEqual(Pad([97, 0, 98]), [97])
    ensures ValidName([97]) && ValidName([97, 0]) && NameEqual(Pad([97]), [97, 0])
  {
    assert Pad([97, 0, 98])[..1] == [97];
    assert Pad([97])[..2] == [97, 0];
  }

  // ----- entries

  function EncodeEntry(inode_number: u16, name: Name): (e: seq<byte>)
    requires |name| <= DIRECTORY_NAME_SIZE
    ensures |e| == ENTRY_SIZE
  {
    [ByteOf(inode_number, 0), ByteOf(inode_number, 1)] + Pad(name)
  }

  function EntryNumber(c: seq<byte>, k: nat): u16
    requires (k + 1) * ENTRY_SIZE <= |c|
  {
    U16(c, k * ENTRY_SIZE)
  }

  function EntryName(c: seq<byte>, k: nat): StoredName
    requires (k + 1) * ENTRY_SIZE <= |c|
  {
    c[k * ENTRY_SIZE + 2..(k + 1) * ENTRY_SIZE]
  }

  predicate Matches(c: seq<byte>, k: nat, name: Name)
    requires (k + 1) * ENTRY_SIZE <= |c|
  {
    EntryNumber(c, k) != 0 && NameEqual(EntryName(c, k), name)
  }

  /** Where the parts of an entry stand: the number in its first two bytes, then the name, and zeros behind it. */
  lemma EntryLayout(c: seq<byte>, k: nat, inode_number: u16, name: Name)
    requires (k + 1) * 16 <= |c| && |name| <= 14
    ensures EntryNumber(c, k) == U16(c, 16 * k) && EntryName(c, k) == c[16 * k + 2..16 * k + 16]
    ensures var e := EncodeEntry(inode_number, name);
      |e| == 16 && U16(e, 0) == inode_number && e[2..2 + |name|] == name && forall i | 2 + |name| <= i < 16 :: e[i] == 0
  {
  }

  /** The first live entry from entry `k` on that carries `name`. */
  function Find(c: seq<byte>, name: Name, k: nat): (r: Option<DirectoryLookup>)
    decreases |c| - k * ENTRY_SIZE
  {
    if (k + 1) * ENTRY_SIZE > |c| then None
    else if Matches(c, k, name) then Some(DirectoryLookup(EntryNumber(c, k), k * ENTRY_SIZE))
    else Find(c, name, k + 1)
  }

  /** The first free entry from entry `k` on. */
  function FreeEntry(c: seq<byte>, k: nat): (r: Option<nat>)
    ensures r.Some? ==> k <= r.value && (r.value + 1) * ENTRY_SIZE <= |c| && EntryNumber(c, r.value) == 0
    decreases |c| - k * ENTRY_SIZE
  {
    if (k + 1) * ENTRY_SIZE > |c| then None
    else if EntryNumber(c, k) == 0 then Some(k)
    else FreeEntry(c, k + 1)
  }

  /** Where `directory_link` puts a new entry: the first free one, or the end. */
  function LinkOffset(c: seq<byte>): (at: nat)
    ensures at <= |c|
  {
    var free := FreeEntry(c, 0);
    if free.Some? then free.value * ENTRY_SIZE else |c|
  }

  /** No entry before the one found is free, and there is none at all if none is found. */
  lemma {:induction false} FreeMeans(c: seq<byte>, k: nat)
    ensures var r := FreeEntry(c, k);
      forall j | k <= j && (j + 1) * ENTRY_SIZE <= |c| && (r.Some? ==> j < r.value) :: EntryNumber(c, j) != 0
    decreases |c| - k * ENTRY_SIZE
  {
    if (k + 1) * ENTRY_SIZE <= |c| && EntryNumber(c, k) != 0 {
      FreeMeans(c, k + 1);
    }
  }

  /** The first entry from `k` on that carries the name, if there is one. */
  lemma {:induction false} FindMeans(c: seq<byte>, name: Name, k: nat)
    ensures Find(c, name, k).Some? <==> exists j | k <= j && (j + 1) * ENTRY_SIZE <= |c| :: Matches(c, j, name)
    ensures Find(c, name, k).Some? ==>
              var r := Find(c, name, k).value;
              exists j | k <= j && (j + 1) * ENTRY_SIZE <= |c| ::
                && Matches(c, j, name) && r == DirectoryLookup(EntryNumber(c, j), j * ENTRY_SIZE)
                && forall i | k <= i < j :: !Matches(c, i, name)
    decreases |c| - k * ENTRY_SIZE
  {
    if (k + 1) * ENTRY_SIZE <= |c| && !Matches(c, k, name) {
      FindMeans(c, name, k + 1);
    }
  }

  /** Entry `k` of a directory after entry `j` has been written. */
  lemma EntryAfterLink(c: seq<byte>, j: nat, inode_number: u16, name: Name, k: nat)
    requires |name| <= DIRECTORY_NAME_SIZE && j * ENTRY_SIZE <= |c| && |c| % ENTRY_SIZE == 0
    requires (k + 1) * ENTRY_SIZE <= |Splice(c, j * ENTRY_SIZE, EncodeEntry(inode_number, name))|
    ensures var c' := Splice(c, j * ENTRY_SIZE, EncodeEntry(inode_number, name));
      if k == j then EntryNumber(c', k) == inode_number && EntryName(c', k) == Pad(name)
      else (k + 1) * ENTRY_SIZE <= |c| && EntryNumber(c', k) == EntryNumber(c, k) && EntryName(c', k) == EntryName(c, k)
  {
    var c' := Splice(c, j * ENTRY_SIZE, EncodeEntry(inode_number, name));
    if k == j {
      BytesOfHalf(c', k * ENTRY_SIZE, inode_number);
    }
  }

  /** Whether entry `k` carries a name, after entry `j` has been written. */
  lemma MatchesAfterLink(c: seq<byte>, c': seq<byte>, j: nat, inode_number: u16, name: Name, other: Name, k: nat)
    requires |name| <= DIRECTORY_NAME_SIZE && j * ENTRY_SIZE <= |c| && |c| % ENTRY_SIZE == 0
             && (k + 1) * ENTRY_SIZE <= |c'|
    requires c' == Splice(c, j * ENTRY_SIZE, EncodeEntry(inode_number, name))
    ensures k == j && ValidName(name) && NulFree(name) && NulFree(other) && inode_number != 0 ==>
              EntryNumber(c', k) == inode_number && (Matches(c', k, other) <==> other == name)
    ensures k != j ==> (k + 1) * ENTRY_SIZE <= |c| && EntryNumber(c', k) == EntryNumber(c, k)
                       && (Matches(c', k, other) <==> Matches(c, k, other))
  {
    EntryAfterLink(c, j, inode_number, name, k);
    if k == j && ValidName(name) && NulFree(name) && NulFree(other) {
      NameEqualIsEquality(Pad(name), other);
      TrimOfPad(name);
    }
  }

  lemma LengthAfterLink(c: seq<byte>, c': seq<byte>, j: nat, inode_number: u16, name: Name)
    requires |name| <= DIRECTORY_NAME_SIZE && j * ENTRY_SIZE <= |c| && |c| % ENTRY_SIZE == 0
    requires c' == Splice(c, j * ENTRY_SIZE, EncodeEntry(inode_number, name))
    ensures |c'| == if (j + 1) * ENTRY_SIZE <= |c| then |c| else (j + 1) * ENTRY_SIZE
    ensures (j + 1) * ENTRY_SIZE > |c| ==> |c| == j * ENTRY_SIZE
  {
  }

  /** The entry written is the first that matches the new name, and the search for another name passes it. */
  lemma FindAtLink(c: seq<byte>, c': seq<byte>, j: nat, inode_number: u16, name: Name, other: Name)
    requires ValidName(name) && NulFree(name) && NulFree(other) && inode_number != 0
    requires |c| % ENTRY_SIZE == 0 && j * ENTRY_SIZE <= |c|
    requires (j + 1) * ENTRY_SIZE <= |c| ==> EntryNumber(c, j) == 0
    requires c' == Splice(c, j * ENTRY_SIZE, EncodeEntry(inode_number, name))
    ensures Find(c', other, j) == if other == name then Some(DirectoryLookup(inode_number, j * ENTRY_SIZE))
                                  else Find(c, other, j)
  {
    LengthAfterLink(c, c', j, inode_number, name);
    MatchesAfterLink(c, c', j, inode_number, name, other, j);
    if other != name {
      FindSame(c, c', other, j + 1, j, inode_number, name);
      FindPast(c, other, j);
      FindPast(c', other, j);
    }
  }

  lemma FindPast(c: seq<byte>, name: Name, k: nat)
    requires (k + 1) * ENTRY_SIZE <= |c| ==> !Matches(c, k, name)
    ensures Find(c, name, k) == Find(c, name, k + 1)
  {
  }

  /** The directory as a map: linking a name that is not there adds exactly that name. */
  lemma {:induction false} FindAfterLink(c: seq<byte>, c': seq<byte>, j: nat, inode_number: u16, name: Name,
                                         other: Name, k: nat)
    requires ValidName(name) && NulFree(name) && NulFree(other) && inode_number != 0
    requires |c| % ENTRY_SIZE == 0 && j * ENTRY_SIZE <= |c| && k <= j
    requires (j + 1) * ENTRY_SIZE <= |c| ==> EntryNumber(c, j) == 0
    requires c' == Splice(c, j * ENTRY_SIZE, EncodeEntry(inode_number, name))
    requires Find(c, name, k) == None
    ensures Find(c', other, k) == if other == name then Some(DirectoryLookup(inode_number, j * ENTRY_SIZE))
                                  else Find(c, other, k)
    decreases j - k
  {
    if k == j {
      FindAtLink(c, c', j, inode_number, name, other);
    } else {
      LengthAfterLink(c, c', j, inode_number, name);
      MatchesAfterLink(c, c', j, inode_number, name, other, k);
      if !Matches(c', k, other) {
        FindAfterLink(c, c', j, inode_number, name, other, k + 1);
      } else {
        assert other != name;
      }
    }
  }

  lemma {:induction false} FindSame(c: seq<byte>, c': seq<byte>, other: Name, k: nat, j: nat, inode_number: u16,
                                    name: Name)
    requires |name| <= DIRECTORY_NAME_SIZE && |c| % ENTRY_SIZE == 0 && j * ENTRY_SIZE <= |c| && j < k
    requires c' == Splice(c, j * ENTRY_SIZE, EncodeEntry(inode_number, name))
    ensures Find(c', other, k) == Find(c, other, k)
    decreases |c'| - k * ENTRY_SIZE
  {
    LengthAfterLink(c, c', j, inode_number, name);
    if (k + 1) * ENTRY_SIZE <= |c'| {
      MatchesAfterLink(c, c', j, inode_number, name, other, k);
      FindSame(c, c', other, k + 1, j, inode_number, name);
    }
  }

  // ----- live names are distinct

  predicate LiveAt(c: seq<byte>, k: nat) {
    (k + 1) * ENTRY_SIZE <= |c| && EntryNumber(c, k) != 0
  }

  /** No two live entries carry the same name. */
  ghost predicate DistinctNames(c: seq<byte>) {
    forall j: nat, k: nat | LiveAt(c, j) && LiveAt(c, k) && Trim(EntryName(c, j)) == Trim(EntryName(c, k)) :: j == k
  }

  /** A live entry carries the name that `name` has once it is stored. */
  ghost predicate NameTaken(c: seq<byte>, name: Name) {
    |name| <= DIRECTORY_NAME_SIZE && exists k: nat :: LiveAt(c, k) && Trim(EntryName(c, k)) == Trim(Pad(name))
  }

  /** Live names stay distinct exactly if the stored name is not taken. */
  lemma LinkDistinctIff(c: seq<byte>, c': seq<byte>, j: nat, inode_number: u16, name: Name)
    requires |name| <= DIRECTORY_NAME_SIZE && inode_number != 0 && |c| % ENTRY_SIZE == 0 && j * ENTRY_SIZE <= |c|
    requires (j + 1) * ENTRY_SIZE <= |c| ==> EntryNumber(c, j) == 0
    requires DistinctNames(c) && c' == Splice(c, j * ENTRY_SIZE, EncodeEntry(inode_number, name))
    ensures DistinctNames(c') <==> !NameTaken(c, name)
  {
    LengthAfterLink(c, c', j, inode_number, name);
    EntryAfterLink(c, j, inode_number, name, j);
    if k: nat :| LiveAt(c, k) && Trim(EntryName(c, k)) == Trim(Pad(name)) {
      EntryAfterLink(c, j, inode_number, name, k);
      assert LiveAt(c', k) && LiveAt(c', j) && k != j;
    } else {
      forall a: nat, b: nat | LiveAt(c', a) && LiveAt(c', b) && Trim(EntryName(c', a)) == Trim(EntryName(c', b))
        ensures a == b
      {
        EntryAfterLink(c, j, inode_number, name, a);
        EntryAfterLink(c, j, inode_number, name, b);
        assert a != j ==> LiveAt(c, a);
        assert b != j ==> LiveAt(c, b);
      }
    }
  }

  /** A name without NUL is taken exactly if it is found. */
  lemma TakenIsFound(c: seq<byte>, name: Name)
    requires |name| <= DIRECTORY_NAME_SIZE && NulFree(name)
    ensures NameTaken(c, name) <==> Find(c, name, 0).Some?
  {
    FindMeans(c, name, 0);
    TrimOfPad(name);
    forall k: nat | LiveAt(c, k) ensures Matches(c, k, name) <==> Trim(EntryName(c, k)) == Trim(Pad(name)) {
      NameEqualIsEquality(EntryName(c, k), name);
    }
    if k: nat :| (k + 1) * ENTRY_SIZE <= |c| && Matches(c, k, name) {
      assert LiveAt(c, k);
    }
    if k: nat :| LiveAt(c, k) && Trim(EntryName(c, k)) == Trim(Pad(name)) {
      assert Matches(c, k, name);
    }
  }

  lemma LinkKeepsDistinct(c: seq<byte>, j: nat, inode_number: u16, name: Name)
    requires ValidName(name) && NulFree(name) && inode_number != 0
    requires |c| % ENTRY_SIZE == 0 && j * ENTRY_SIZE <= |c|
    requires (j + 1) * ENTRY_SIZE <= |c| ==> EntryNumber(c, j) == 0
    requires DistinctNames(c) && Find(c, name, 0) == None
    ensures DistinctNames(Splice(c, j * ENTRY_SIZE, EncodeEntry(inode_number, name)))
  {
    LinkDistinctIff(c, Splice(c, j * ENTRY_SIZE, EncodeEntry(inode_number, name)), j, inode_number, name);
    TakenIsFound(c, name);
  }

  // ----- clearing an entry

  /** Entry `j` of the directory, overwritten with zeros. */
  function Cleared(c: seq<byte>, j: nat): (r: seq<byte>)
    requires (j + 1) * ENTRY_SIZE <= |c|
    ensures |r| == |c|
  {
    Splice(c, j * ENTRY_SIZE, EncodeEntry(0, []))
  }

  /** The entry is free, the others are as they were. */
  lemma EntriesAfterClear(c: seq<byte>, j: nat, k: nat)
    requires |c| % ENTRY_SIZE == 0 && (j + 1) * ENTRY_SIZE <= |c|
    ensures LiveAt(Cleared(c, j), k) <==> LiveAt(c, k) && k != j
    ensures LiveAt(Cleared(c, j), k) ==>
              EntryNumber(Cleared(c, j), k) == EntryNumber(c, k) && EntryName(Cleared(c, j), k) == EntryName(c, k)
  {
    if (k + 1) * ENTRY_SIZE <= |c| { EntryAfterLink(c, j, 0, [], k); }
  }

  lemma {:induction false} FindAfterClear(c: seq<byte>, j: nat, name: Name, k: nat)
    requires |c| % ENTRY_SIZE == 0 && (j + 1) * ENTRY_SIZE <= |c| && !Matches(c, j, name)
    ensures Find(Cleared(c, j), name, k) == Find(c, name, k)
    decreases |c| - k * ENTRY_SIZE
  {
    if (k + 1) * ENTRY_SIZE <= |c| {
      EntriesAfterClear(c, j, k);
      if !Matches(c, k, name) {
        FindPast(c, name, k);
        FindPast(Cleared(c, j), name, k);
        FindAfterClear(c, j, name, k + 1);
      }
    }
  }

  /** Clearing the entry of a name takes that name out of the map and leaves all other names. */
  lemma ClearShrinksMap(c: seq<byte>, j: nat, name: Name)
    requires |c| % ENTRY_SIZE == 0 && DistinctNames(c) && ValidName(name) && NulFree(name)
    requires LiveAt(c, j) && Matches(c, j, name)
    ensures Find(Cleared(c, j), name, 0) == None
    ensures forall other: Name | NulFree(other) && other != name :: Find(Cleared(c, j), other, 0) == Find(c, other, 0)
    ensures DistinctNames(Cleared(c, j))
  {
    var c' := Cleared(c, j);
    forall k: nat ensures LiveAt(c', k) ==> LiveAt(c, k) && k != j && EntryName(c', k) == EntryName(c, k) {
      EntriesAfterClear(c, j, k);
    }
    NameEqualIsEquality(EntryName(c, j), name);
    FindMeans(c', name, 0);
    if k: nat :| (k + 1) * ENTRY_SIZE <= |c'| && Matches(c', k, name) {
      assert LiveAt(c', k);
      NameEqualIsEquality(EntryName(c', k), name);
      assert false;
    }
    forall other: Name | NulFree(other) && other != name ensures Find(c', other, 0) == Find(c, other, 0) {
      NameEqualIsEquality(EntryName(c, j), other);
      FindAfterClear(c, j, other, 0);
    }
  }

  // ----- the whole operation, as a change of the map

  /** The index of the entry that linking writes. */
  function LinkIndex(c: seq<byte>): (j: nat)
    requires |c| % ENTRY_SIZE == 0
    ensures j * ENTRY_SIZE == LinkOffset(c) && ((j + 1) * ENTRY_SIZE <= |c| ==> EntryNumber(c, j) == 0)
  {
    var free := FreeEntry(c, 0);
    if free.Some? then free.value else |c| / ENTRY_SIZE
  }

  function WithEntry(c: seq<byte>, inode_number: u16, name: Name): seq<byte>
    requires |name| <= DIRECTORY_NAME_SIZE
  {
    Splice(c, LinkOffset(c), EncodeEntry(inode_number, name))
  }

  lemma LinkLeavesOthers(c: seq<byte>, c': seq<byte>, inode_number: u16, name: Name)
    requires ValidName(name) && NulFree(name) && inode_number != 0
    requires |c| % ENTRY_SIZE == 0 && Find(c, name, 0) == None && c' == WithEntry(c, inode_number, name)
    ensures forall other: Name | NulFree(other) && other != name :: Find(c', other, 0) == Find(c, other, 0)
  {
    forall other: Name | NulFree(other) && other != name ensures Find(c', other, 0) == Find(c, other, 0) {
      FindAfterLink(c, c', LinkIndex(c), inode_number, name, other, 0);
    }
  }

  lemma LinkFindsNew(c: seq<byte>, inode_number: u16, name: Name)
    requires ValidName(name) && NulFree(name) && inode_number != 0
    requires |c| % ENTRY_SIZE == 0 && Find(c, name, 0) == None
    ensures Find(WithEntry(c, inode_number, name), name, 0) == Some(DirectoryLookup(inode_number, LinkOffset(c)))
  {
    FindAfterLink(c, WithEntry(c, inode_number, name), LinkIndex(c), inode_number, name, name, 0);
  }

  lemma LinkKeepsSize(c: seq<byte>, inode_number: u16, name: Name)
    requires |name| <= DIRECTORY_NAME_SIZE && |c| % ENTRY_SIZE == 0
    ensures |WithEntry(c, inode_number, name)| % ENTRY_SIZE == 0
  {
    LengthAfterLink(c, WithEntry(c, inode_number, name), LinkIndex(c), inode_number, name);
  }

  /** A directory is a finite map from names to inode numbers, and linking a new name extends the map at
      that name only.  Live names stay distinct and the file stays a sequence of whole entries. */
  lemma LinkExtendsMap(c: seq<byte>, inode_number: u16, name: Name)
    requires ValidName(name) && NulFree(name) && inode_number != 0
    requires |c| % ENTRY_SIZE == 0 && Find(c, name, 0) == None
    ensures Find(WithEntry(c, inode_number, name), name, 0) == Some(DirectoryLookup(inode_number, LinkOffset(c)))
    ensures forall other: Name | NulFree(other) && other != name ::
              Find(WithEntry(c, inode_number, name), other, 0) == Find(c, other, 0)
    ensures DistinctNames(c) ==> DistinctNames(WithEntry(c, inode_number, name))
    ensures |WithEntry(c, inode_number, name)| % ENTRY_SIZE == 0
  {
    LinkKeepsSize(c, inode_number, name);
    LinkFindsNew(c, inode_number, name);
    LinkLeavesOthers(c, WithEntry(c, inode_number, name), inode_number, name);
    if DistinctNames(c) { LinkKeepsDistinct(c, LinkIndex(c), inode_number, name); }
  }

  /** Clearing undoes linking: the map is what it was. */
  lemma ClearUndoesLink(c: seq<byte>, inode_number: u16, name: Name, other: Name)
    requires ValidName(name) && NulFree(name) && inode_number != 0 && NulFree(other)
    requires |c| % ENTRY_SIZE == 0 && DistinctNames(c) && Find(c, name, 0) == None
    ensures var c', j := WithEntry(c, inode_number, name), LinkIndex(c);
      (j + 1) * ENTRY_SIZE <= |c'| && Find(Cleared(c', j), other, 0) == Find(c, other, 0)
  {
    var c', j := WithEntry(c, inode_number, name), LinkIndex(c);
    LinkExtendsMap(c, inode_number, name);
    LengthAfterLink(c, c', j, inode_number, name);
    MatchesAfterLink(c, c', j, inode_number, name, name, j);
    ClearShrinksMap(c', j, name);
  }
}
