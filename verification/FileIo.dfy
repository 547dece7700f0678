/** Reading and writing through an open file, and what a read returns after any run of writes. */
module FileIo {
  import opened Wrappers
  import opened BlockUse
  import opened Bytes
  import opened DiskFormat
  import opened Fsck
  import opened Growth
  import opened FileSystem
  import opened Inodes
  import opened OpenFiles
  import opened Processes

  // ----- runs of writes

  datatype Write = Write(offset: nat, data: seq<byte>)

  /** The bytes of a file after a run of writes; one that starts behind the end of the file is refused. */
  function Written(c: seq<byte>, ws: seq<Write>): seq<byte> {
    if ws == [] then c
    else
      var b := Written(c, ws[..|ws| - 1]);
      var w := ws[|ws| - 1];
      if w.offset > |b| then b else Splice(b, w.offset, w.data)
  }

  predicate Covers(w: Write, i: nat) { w.offset <= i < w.offset + |w.data| }

  predicate Refused(c: seq<byte>, ws: seq<Write>, k: nat) {
    k < |ws| && ws[k].offset > |Written(c, ws[..k])|
  }

  /** The last write of the run that was accepted and reached byte `i`. */
  function LastWriter(c: seq<byte>, ws: seq<Write>, i: nat): (r: Option<nat>)
    ensures r.Some? ==> r.value < |ws| && Covers(ws[r.value], i)
    decreases |ws|
  {
    if ws == [] then None
    else
      var n := |ws| - 1;
      if ws[n].offset <= |Written(c, ws[..n])| && Covers(ws[n], i) then Some(n) else LastWriter(c, ws[..n], i)
  }

  /** Every byte of the file is the one written last at its place, or one that was there before all writes;
      nothing else ever shows up. */
  lemma {:induction false} LastWriteWins(c: seq<byte>, ws: seq<Write>, i: nat)
    requires i < |Written(c, ws)|
    ensures var k := LastWriter(c, ws, i);
      if k.Some? then Written(c, ws)[i] == ws[k.value].data[i - ws[k.value].offset]
      else i < |c| && Written(c, ws)[i] == c[i]
    decreases |ws|
  {
    if ws != [] {
      var n := |ws| - 1;
      if !(ws[n].offset <= |Written(c, ws[..n])| && Covers(ws[n], i)) {
        LastWriteWins(c, ws[..n], i);
      }
    }
  }

  /** The last writer was accepted, and every write after it that should have reached the byte was refused. */
  lemma {:induction false} LastWriterIsLast(c: seq<byte>, ws: seq<Write>, i: nat, j: nat)
    requires j < |ws| && Covers(ws[j], i)
    ensures var k := LastWriter(c, ws, i);
      && (k == Some(j) ==> !Refused(c, ws, j))
      && (k == None || k.value < j ==> Refused(c, ws, j))
    decreases |ws|
  {
    var n := |ws| - 1;
    if j < n {
      assert ws[..n][..j] == ws[..j];
      LastWriterIsLast(c, ws[..n], i, j);
    }
  }

  /** A write was carried out in full unless it was refused, or the file would have become too long, or the
      disk is full. */
  ghost predicate Complete(c: seq<byte>, ws: seq<Write>, done: seq<Write>, k: nat, full: bool) {
    k < |ws| && k < |done| ==>
      && done[k].offset == ws[k].offset && done[k].data <= ws[k].data
      && (done[k].data == ws[k].data || Refused(c, done, k) || ws[k].offset + |ws[k].data| > MAXFILE * FSBLOCK_SIZE
          || full)
  }

  method WriteOne(fs: State, s: nat, w: Write) returns (d: Write)
    requires Valid(fs) && Live(fs.table, s)
    modifies fs`blocks, fs`inodes, fs`used, fs`owner, fs`table
    ensures Valid(fs) && Live(fs.table, s) && fs.table[s].number == old(fs.table[s].number)
    ensures UsedGrows(fs) && OnlyFile(fs, fs.table[s].number)
    ensures var c := old(Content(fs.blocks, fs.table[s].disk));
      && Content(fs.blocks, fs.table[s].disk) == (if d.offset > |c| then c else Splice(c, d.offset, d.data))
      && d.offset == w.offset && d.data <= w.data
      && (d.data == w.data || w.offset > |c| || w.offset + |w.data| > MAXFILE * FSBLOCK_SIZE || DiskFull(fs))
  {
    ghost var c := Content(fs.blocks, fs.table[s].disk);
    var written := WriteData(fs, s, w.data, w.offset);
    d := Write(w.offset, if written == None then [] else w.data[..written.value]);
    if written == None && w.offset <= |c| { assert Splice(c, w.offset, []) == c; }
  }

  lemma OneMoreComplete(c: seq<byte>, ws: seq<Write>, done: seq<Write>, d: Write, k: nat, was: bool, full: bool)
    requires Complete(c, ws, done, k, was) && |done| < |ws| && (was ==> full)
    requires k == |done| ==>
               && d.offset == ws[k].offset && d.data <= ws[k].data
               && (d.data == ws[k].data || ws[k].offset > |Written(c, done)|
                   || ws[k].offset + |ws[k].data| > MAXFILE * FSBLOCK_SIZE || full)
    ensures Complete(c, ws, done + [d], k, full)
  {
    assert k <= |done| ==> (done + [d])[..k] == done[..k];
    assert done[..|done|] == done;
  }

  /** Performs a run of writes.  `done` is what has been written of each; together with `LastWriteWins` it says
      what any later read returns. */
  method WriteRun(fs: State, s: nat, ws: seq<Write>) returns (done: seq<Write>)
    requires Valid(fs) && Live(fs.table, s)
    modifies fs`blocks, fs`inodes, fs`used, fs`owner, fs`table
    ensures Valid(fs) && Live(fs.table, s) && fs.table[s].number == old(fs.table[s].number)
    ensures |done| == |ws| && forall k: nat ::
                                Complete(old(Content(fs.blocks, fs.table[s].disk)), ws, done, k, DiskFull(fs))
    ensures Content(fs.blocks, fs.table[s].disk) == Written(old(Content(fs.blocks, fs.table[s].disk)), done)
    ensures OnlyFile(fs, fs.table[s].number)
  {
    done := [];
    ghost var c := Content(fs.blocks, fs.table[s].disk);
    while |done| < |ws|
      invariant |done| <= |ws| && forall k: nat :: Complete(c, ws, done, k, DiskFull(fs))
      invariant Valid(fs) && Live(fs.table, s) && fs.table[s].number == old(fs.table[s].number)
      invariant Content(fs.blocks, fs.table[s].disk) == Written(c, done)
      invariant OnlyFile(fs, fs.table[s].number)
    {
      ghost var full := DiskFull(fs);
      var d := WriteOne(fs, s, ws[|done|]);
      forall k: nat ensures Complete(c, ws, done + [d], k, DiskFull(fs)) {
        OneMoreComplete(c, ws, done, d, k, full, DiskFull(fs));
      }
      assert (done + [d])[..|done|] == done;
      done := done + [d];
    }
  }

  // ----- open files

  /** An open file: the console, or an inode in the table with a position not behind its end. */
  ghost predicate OpenOn(fs: State, x: File)
    reads fs
  {
    x.kind == OnDisk ==> x.inode.Some? && Live(fs.table, x.inode.value) && x.offset <= fs.table[x.inode.value].disk.size
  }

  /** Reads from where the file stands, and moves it on.  Reading the console is not part of this model. */
  method FileRead(k: Kernel, fs: State, f: nat, count: nat) returns (r: Option<seq<byte>>)
    requires Inodes.Valid(fs) && f < |k.file_table| && k.file_table[f].kind != Console && OpenOn(fs, k.file_table[f])
    modifies k`file_table
    ensures var x := old(k.file_table)[f];
      && (r == None <==> !x.readable || x.kind == NoType)
      && (r.Some? ==>
            var c := Content(fs.blocks, fs.table[x.inode.value].disk);
            && x.offset <= |c| && r.value == c[x.offset..if x.offset + count < |c| then x.offset + count else |c|])
      && k.file_table == (if r == None then old(k.file_table)
                          else old(k.file_table)[f := x.(offset := x.offset + |r.value|)])
    ensures OpenOn(fs, k.file_table[f])
  {
    var x := k.file_table[f];
    if !x.readable {
      return None;
    }
    if x.kind == OnDisk {
      r := ReadData(fs, x.inode.value, x.offset, count);
      if r.Some? {
        k.file_table := k.file_table[f := x.(offset := x.offset + |r.value|)];
      }
      return;
    }
    return None;
  }

  /** Writes where the file stands, and moves it on. */
  method FileWrite(k: Kernel, fs: State, f: nat, source: seq<byte>) returns (r: Option<nat>)
    requires Inodes.Valid(fs) && f < |k.file_table| && OpenOn(fs, k.file_table[f])
    modifies k`file_table, fs`blocks, fs`inodes, fs`used, fs`owner, fs`table
    ensures Inodes.Valid(fs) && f < |k.file_table| && OpenOn(fs, k.file_table[f])
    ensures var x := old(k.file_table)[f];
      && (r == None <==> !x.writable || x.kind == NoType
                         || (x.kind == OnDisk && x.offset + |source| > MAXFILE * FSBLOCK_SIZE))
      && (r == None || x.kind == Console ==> k.file_table == old(k.file_table) && fs.Disk() == old(fs.Disk()))
      && (x.kind == Console && r.Some? ==> r.value == |source|)
      && (x.kind == OnDisk && r.Some? ==>
            var n := old(fs.table[k.file_table[f].inode.value].number);
            && r.value <= |source| && (r.value < |source| ==> DiskFull(fs))
            && (r.value == |source| <==>
                  |Needed(old(fs.Disk()), n, x.offset, |source|)| <= |ClearBits(old(fs.used))|)
            && n < |fs.inodes|
            && Inodes.File(fs, n) == Splice(old(Inodes.File(fs, fs.table[k.file_table[f].inode.value].number)),
                                            x.offset,
                                            source[..r.value])
            && OnlyFile(fs, n)
            && k.file_table == old(k.file_table)[f := x.(offset := x.offset + r.value)])
  {
    var x := k.file_table[f];
    if !x.writable {
      return None;
    }
    if x.kind == Console {
      return Some(|source|);
    }
    if x.kind == OnDisk {
      r := WriteData(fs, x.inode.value, source, x.offset);
      if r.Some? {
        k.file_table := k.file_table[f := x.(offset := x.offset + r.value)];
      }
      return;
    }
    return None;
  }
}
