/** The single owner of one reference to a slot of the inode table. */
module InodeRefs {
  import opened FileSystem
  import opened Inodes
  import opened InodeTable
  import opened Wrappers

  class InodeRef {
    var inode: Option<nat>       // the slot, if one is held

    constructor (slot: Option<nat>)
      ensures inode == slot
    {
      inode := slot;
    }

    /** The move constructor: the reference changes hands. */
    constructor Move(other: InodeRef)
      modifies other`inode
      ensures inode == old(other.inode) && other.inode == None
    {
      inode := other.inode;
      new;
      other.inode := None;
    }

    ghost predicate Good(fs: State)
      reads this, fs
    {
      inode.Some? ==> Live(fs.table, inode.value)
    }

    /** Drops the reference, if one is held; a second call does nothing. */
    method Reset(fs: State)
      requires Valid(fs) && Good(fs)
      modifies this, fs`table
      ensures Valid(fs) && inode == None
      ensures old(inode) == None ==> fs.table == old(fs.table)
      ensures forall m: nat ::
                Refs(fs.table, m) == old(Refs(fs.table, m))
                                     - if old(inode.Some? && fs.table[inode.value].number == m) then 1 else 0
      ensures forall s: nat | s < NUM_INODE && old(inode) != Some(s) :: fs.table[s] == old(fs.table[s])
      ensures old(inode).Some? ==>
                fs.table[old(inode).value] == old(fs.table[inode.value].(refcnt := fs.table[inode.value].refcnt - 1))
    {
      if inode.Some? {
        PutInode(fs, inode.value);
        inode := None;
      }
    }

    /** Move assignment: what was held is dropped, what the other held changes hands; assigning to itself does
        nothing.  In all, exactly the reference held before is gone. */
    method Assign(other: InodeRef, fs: State)
      requires Valid(fs) && Good(fs) && other.Good(fs)
      requires other != this && inode.Some? && inode == other.inode ==> fs.table[inode.value].refcnt >= 2
      modifies this, other, fs`table
      ensures Valid(fs) && Good(fs) && other.Good(fs)
      ensures inode == old(other.inode) && (other != this ==> other.inode == None)
      ensures other == this ==> fs.table == old(fs.table)
      ensures other != this ==>
                forall m: nat ::
                  Refs(fs.table, m) == old(Refs(fs.table, m))
                                       - if old(inode.Some? && fs.table[inode.value].number == m) then 1 else 0
    {
      if this != other {
        Reset(fs);
        inode := other.inode;
        other.inode := None;
      }
    }
  }
}
