/**
 A consistent state represents an abstract one, and every disciplined operation does to it
 what the abstract machine says, with the same results.
 */
module Refinement {
  import opened CMemory
  import opened TfsState
  import opened TfsOperations
  import opened Invariants
  import opened Preservation
  import opened AbstractFs

  // ---------- The abstraction ----------

  function Block(fs: Fs, b: int): (bytes: seq<byte>)
    requires fs.ValidBlock(b)
    ensures |bytes| == fs.p.blockSize
  {
    fs.data[BlockStart(fs, b)..BlockStart(fs, b) + fs.p.blockSize]
  }

  /** The bytes of a file. */
  function Content(fs: Fs, i: int): seq<byte> {
    if !fs.ValidInum(i) || fs.inodes[i].size == 0 then []
    else
      var node := fs.inodes[i];
      if fs.ValidBlock(node.block) && node.size <= fs.p.blockSize then Block(fs, node.block)[..node.size] else []
  }

  /** The inumber that the directory gives a name, or -1. */
  function InumOf(d: seq<Slot>, name: cstring): int {
    var j := FindSlot(d, name);
    if j == -1 then -1 else d[j].inum
  }

  function SlotOfInum(d: seq<Slot>, k: int): (r: int)
    ensures -1 <= r < |d|
    ensures r != -1 ==> d[r].inum == k
    ensures forall i :: 0 <= i < (if r == -1 then |d| else r) ==> d[i].inum != k
  {
    FirstIndex(d, (s: Slot) => s.inum == k, 0)
  }

  /** The name under which the directory holds an inumber. */
  function NameOfInum(d: seq<Slot>, k: int): cstring {
    var j := SlotOfInum(d, k);
    if j == -1 then [] else d[j].Name()
  }

  function DirNames(d: seq<Slot>): set<cstring> {
    set j | 0 <= j < |d| && d[j].Used() :: d[j].Name()
  }

  /** The directory as a map from names to inumbers. */
  function DirMap(d: seq<Slot>): map<cstring, int> {
    map n | n in DirNames(d) :: InumOf(d, n)
  }

  function Files(d: seq<Slot>, fs: Fs): map<cstring, seq<byte>> {
    map n | n in DirNames(d) :: Content(fs, InumOf(d, n))
  }

  function OpenHandles(d: seq<Slot>, files: seq<OpenFile>, taken: seq<bool>): map<int, Handle>
    requires |files| == |taken|
  {
    map h | 0 <= h < |taken| && taken[h] :: Handle(NameOfInum(d, files[h].inum), files[h].offset)
  }

  function Alpha(fs: Fs): Abs
    requires fs.ValidBlock(fs.inodes[ROOT].block)
  {
    Abs(Files(Dir(fs), fs), OpenHandles(Dir(fs), fs.files, fs.handleTaken))
  }

  lemma AlphaParts(fs: Fs)
    requires RootOk(fs)
    ensures Alpha(fs).files == Files(Dir(fs), fs)
    ensures Alpha(fs).handles == OpenHandles(Dir(fs), fs.files, fs.handleTaken)
  {
  }

  lemma AlphaIs(fs: Fs, d: seq<Slot>, files: map<cstring, seq<byte>>, handles: map<int, Handle>)
    requires RootOk(fs) && d == Dir(fs)
    requires Files(d, fs) == files && OpenHandles(d, fs.files, fs.handleTaken) == handles
    ensures Alpha(fs) == Abs(files, handles)
  {
  }

  // ---------- The directory is a partial map ----------

  /** In a well-formed directory names and inumbers each identify their record. */
  lemma RecordIsUnique(d: seq<Slot>, j: nat)
    requires DirOk(d) && j < |d| && d[j].Used()
    ensures FindSlot(d, d[j].Name()) == j && InumOf(d, d[j].Name()) == d[j].inum
    ensures SlotOfInum(d, d[j].inum) == j && NameOfInum(d, d[j].inum) == d[j].Name()
  {
    FindSlotIsLookup(d, d[j].Name());
  }

  lemma NameHasRecord(d: seq<Slot>, name: cstring) returns (j: nat)
    requires DirOk(d) && name in DirNames(d)
    ensures j < |d| && d[j].Used() && d[j].Name() == name && j == FindSlot(d, name) && InumOf(d, name) == d[j].inum
  {
    var k :| 0 <= k < |d| && d[k].Used() && d[k].Name() == name;
    RecordIsUnique(d, k);
    j := k;
  }

  /** find_in_dir is map lookup: a name is found exactly when it is in the directory. */
  lemma FoundIffNamed(d: seq<Slot>, name: cstring)
    requires DirOk(d)
    ensures FindSlot(d, name) != -1 <==> name in DirNames(d)
  {
    FindSlotIsLookup(d, name);
    if FindSlot(d, name) != -1 {
      assert d[FindSlot(d, name)].Name() in DirNames(d);
    }
  }

  lemma InumHasRecord(d: seq<Slot>, fs: Fs, k: int) returns (j: nat)
    requires DirOk(d) && Entries(d, fs) && Live(fs, k)
    ensures j < |d| && d[j].Used() && d[j].inum == k && NameOfInum(d, k) == d[j].Name() && d[j].Name() in DirNames(d)
    ensures InumOf(d, d[j].Name()) == k
  {
    assert HasEntry(d, k);
    var i :| 0 <= i < |d| && d[i].inum == k;
    RecordIsUnique(d, i);
    j := i;
  }

  // ---------- Handles ----------

  /** The abstract machine hands out the handle that the open-file table scan finds. */
  lemma SameNextHandle(keys: set<int>, taken: seq<bool>)
    requires forall h :: h in keys <==> 0 <= h < |taken| && taken[h]
    ensures LeastAbsent(keys, 0, |taken|) == FirstFree(taken)
  {
  }

  lemma HandlesAdd(d: seq<Slot>, files: seq<OpenFile>, taken: seq<bool>, h: nat, f: OpenFile)
    requires |files| == |taken| && h < |taken|
    ensures OpenHandles(d, files[h := f], taken[h := true])
         == OpenHandles(d, files, taken)[h := Handle(NameOfInum(d, f.inum), f.offset)]
  {
  }

  lemma HandlesRemove(d: seq<Slot>, files: seq<OpenFile>, taken: seq<bool>, h: nat)
    requires |files| == |taken| && h < |taken|
    ensures OpenHandles(d, files, taken[h := false]) == OpenHandles(d, files, taken) - {h}
  {
  }

  /** The open handles keep their names when the directory changes elsewhere. */
  lemma HandlesFrame(d: seq<Slot>, e: seq<Slot>, files: seq<OpenFile>, taken: seq<bool>)
    requires |files| == |taken|
    requires forall h :: 0 <= h < |taken| && taken[h] ==> NameOfInum(e, files[h].inum) == NameOfInum(d, files[h].inum)
    ensures OpenHandles(e, files, taken) == OpenHandles(d, files, taken)
  {
  }

  lemma FilesFrame(d: seq<Slot>, fs: Fs, r: Fs)
    requires forall n :: n in DirNames(d) ==> Content(r, InumOf(d, n)) == Content(fs, InumOf(d, n))
    ensures Files(d, r) == Files(d, fs)
  {
  }

  lemma FilesSame(d: seq<Slot>, fs: Fs, r: Fs)
    requires SameFiles(fs, r)
    ensures Files(d, r) == Files(d, fs)
  {
    forall n | n in DirNames(d) ensures Content(r, InumOf(d, n)) == Content(fs, InumOf(d, n)) {
      ContentSame(fs, r, InumOf(d, n));
    }
    FilesFrame(d, fs, r);
  }

  lemma ContentSame(fs: Fs, r: Fs, k: int)
    requires SameFiles(fs, r)
    ensures Content(r, k) == Content(fs, k)
  {
  }

  lemma AddHandleRefines(fs: Fs, j: nat, offset: nat)
    requires RootOk(fs) && DirOk(Dir(fs)) && j < |Dir(fs)| && Dir(fs)[j].Used()
    ensures var r := AddToOpenFileTable(fs, Dir(fs)[j].inum, offset);
      && r.Done? && r.out == [] && RootOk(r.fs)
      && (Alpha(r.fs), Result(r.ret, r.out)) == AddHandle(fs.p, Alpha(fs), Dir(fs)[j].Name(), offset)
  {
    var d := Dir(fs);
    var r := AddToOpenFileTable(fs, d[j].inum, offset).fs;
    FilesSame(d, fs, r);
    SameNextHandle(Alpha(fs).handles.Keys, fs.handleTaken);
    RecordIsUnique(d, j);
    var h := FirstFree(fs.handleTaken);
    if h != -1 {
      HandlesAdd(d, fs.files, fs.handleTaken, h, OpenFile(d[j].inum, offset));
    }
  }

  lemma CloseRefines(fs: Fs, h: int)
    requires RootOk(fs)
    ensures var r := CloseOp(fs, h);
      r.Done? && RootOk(r.fs) && (Alpha(r.fs), Result(r.ret, r.out)) == AClose(Alpha(fs), h)
  {
    var d, r := Dir(fs), CloseOp(fs, h).fs;
    FilesSame(d, fs, r);
    if fs.IsOpen(h) {
      HandlesRemove(d, fs.files, fs.handleTaken, h);
    }
  }

  // ---------- Reading ----------

  lemma ContentLength(fs: Fs, i: int)
    requires fs.ValidInum(i) && NodeOk(fs, i)
    ensures |Content(fs, i)| == fs.inodes[i].size <= fs.p.blockSize
  {
  }

  /** What the abstract state says of an open handle. */
  predicate HandleFacts(fs: Fs, h: int, name: cstring)
    requires fs.ValidBlock(fs.inodes[ROOT].block)
  {
    var a := Alpha(fs);
    && fs.IsOpen(h) && fs.ValidInum(fs.files[h].inum)
    && h in a.handles && a.handles[h] == Handle(name, fs.files[h].offset)
    && name in a.files && FileOf(a, h) == Content(fs, fs.files[h].inum)
    && fs.files[h].offset <= |FileOf(a, h)| == fs.inodes[fs.files[h].inum].size <= fs.p.blockSize
  }

  lemma HandleNodeOk(fs: Fs, h: int)
    requires Sound(fs) && fs.IsOpen(h)
    ensures 0 <= h < |fs.files| && 0 <= fs.files[h].inum < |fs.inodes|
    ensures fs.ValidInum(fs.files[h].inum) && NodeOk(fs, fs.files[h].inum)
  {
  }

  lemma HandleAt(fs: Fs, h: int) returns (j: nat)
    requires Consistent(fs) && fs.IsOpen(h)
    ensures j < |Dir(fs)| && Dir(fs)[j].Used() && Dir(fs)[j].inum == fs.files[h].inum
    ensures HandleFacts(fs, h, Dir(fs)[j].Name())
  {
    hide DirOk, Entries, Nodes, Handles, Ownership, NoOrphans, Dir, Content, NameOfInum, InumOf, DirNames;
    var i := fs.files[h].inum;
    HandleNodeOk(fs, h);
    ContentLength(fs, i);
    j := InumHasRecord(Dir(fs), fs, i);
    var name := Dir(fs)[j].Name();
    assert Alpha(fs).handles[h] == Handle(name, fs.files[h].offset);
    assert Alpha(fs).files[name] == Content(fs, i);
  }

  lemma MoveOffsetRefines(fs: Fs, h: int, offset: nat)
    requires RootOk(fs) && fs.IsOpen(h)
    ensures var r := MoveOffset(fs, h, offset);
      RootOk(r) && h in Alpha(fs).handles
      && Alpha(r) == Alpha(fs).(handles := Alpha(fs).handles[h := Alpha(fs).handles[h].(offset := offset)])
  {
    var d, r := Dir(fs), MoveOffset(fs, h, offset);
    FilesSame(d, fs, r);
    HandlesAdd(d, fs.files, fs.handleTaken, h, fs.files[h].(offset := offset));
    assert fs.handleTaken[h := true] == fs.handleTaken;
  }

  /** Reading a range of a block is reading that range of the file that owns it. */
  lemma ReadsContent(fs: Fs, i: int, offset: nat, n: nat)
    requires fs.ValidInum(i) && NodeOk(fs, i) && 0 < n && offset + n <= fs.inodes[i].size
    ensures var p := BlockStart(fs, fs.inodes[i].block) + offset;
      |Content(fs, i)| == fs.inodes[i].size && fs.data[p..p + n] == Content(fs, i)[offset..offset + n]
  {
    var b, size := fs.inodes[i].block, fs.inodes[i].size;
    var start := BlockStart(fs, b);
    SliceOfSlice(fs.data, start, start + fs.p.blockSize, offset, offset + n);
    SliceOfSlice(Block(fs, b), 0, size, offset, offset + n);
    assert Block(fs, b)[0..size] == Block(fs, b)[..size];
  }

  lemma AReadMoves(a: Abs, h: int, len: nat, n: nat, out: seq<byte>)
    requires h in a.handles && a.handles[h].offset <= |FileOf(a, h)|
    requires n == Min(len, |FileOf(a, h)| - a.handles[h].offset)
    requires out == FileOf(a, h)[a.handles[h].offset..a.handles[h].offset + n]
    ensures ARead(a, h, len)
         == (a.(handles := a.handles[h := a.handles[h].(offset := a.handles[h].offset + n)]), Result(n, out))
  {
    if n == 0 {
      assert a.handles[h := a.handles[h]] == a.handles;
    }
  }

  lemma ReadsContentOrNothing(fs: Fs, i: nat, offset: nat, n: nat)
    requires fs.ValidInum(i) && NodeOk(fs, i) && offset + n <= fs.inodes[i].size
    ensures |Content(fs, i)| == fs.inodes[i].size
    ensures (if n == 0 then [] else var p := BlockStart(fs, fs.inodes[i].block) + offset; fs.data[p..p + n])
         == Content(fs, i)[offset..offset + n]
  {
    ContentLength(fs, i);
    if n > 0 {
      ReadsContent(fs, i, offset, n);
    }
  }

  /** A read from within the file returns the bytes from the offset on and moves the offset. */
  lemma ReadOutcome(fs: Fs, h: int, len: nat)
    requires Sound(fs) && ReadsWithin(fs, h) && fs.IsOpen(h)
    ensures fs.ValidInum(fs.files[h].inum) && |Content(fs, fs.files[h].inum)| == fs.inodes[fs.files[h].inum].size
    ensures var offset := fs.files[h].offset; var c := Content(fs, fs.files[h].inum); var r := ReadOp(fs, h, len);
      && r.Done? && offset <= |c| && r.ret == (if len <= |c| - offset then len else |c| - offset)
      && r.out == c[offset..offset + r.ret]
      && r.fs == MoveOffset(fs, h, offset + r.ret)
  {
    hide *;
    HandleNodeOk(fs, h);
    ReadMovesOffset(fs, h, len);
    ReadsContentOrNothing(fs, fs.files[h].inum, fs.files[h].offset, ReadOp(fs, h, len).ret);
  }

  lemma OpenReadRefines(fs: Fs, h: int, len: nat)
    requires Consistent(fs) && fs.IsOpen(h)
    ensures var r := ReadOp(fs, h, len);
      r.Done? && RootOk(r.fs) && Alpha(r.fs) == ARead(Alpha(fs), h, len).0 && Result(r.ret, r.out) == ARead(Alpha(fs), h, len).1
  {
    hide Files, OpenHandles, Content, DirOk, Entries, Nodes, Handles, Ownership, NoOrphans, Dir, ReadOp,
      ARead;
    var j := HandleAt(fs, h);
    ReadOutcome(fs, h, len);
    var r := ReadOp(fs, h, len);
    AReadMoves(Alpha(fs), h, len, r.ret, r.out);
    MoveOffsetRefines(fs, h, fs.files[h].offset + r.ret);
  }

  lemma ReadRefines(fs: Fs, h: int, len: nat)
    requires Consistent(fs)
    ensures var r := ReadOp(fs, h, len);
      r.Done? && RootOk(r.fs) && (Alpha(r.fs), Result(r.ret, r.out)) == ARead(Alpha(fs), h, len)
  {
    hide Files, Content, DirOk, Entries, Nodes, Handles, Ownership, NoOrphans, Dir;
    if fs.IsOpen(h) {
      OpenReadRefines(fs, h, len);
    }
  }

  // ---------- Changing one file's contents ----------

  /** When one file's bytes change and the directory does not, the map changes at its name. */
  lemma FilesChangeOne(d: seq<Slot>, fs: Fs, r: Fs, j: nat)
    requires DirOk(d) && Entries(d, fs) && j < |d| && d[j].Used()
    requires forall k :: Live(fs, k) && k != d[j].inum ==> Content(r, k) == Content(fs, k)
    ensures Files(d, r) == Files(d, fs)[d[j].Name() := Content(r, d[j].inum)]
  {
    var name := d[j].Name();
    RecordIsUnique(d, j);
    assert name in DirNames(d);
    forall n | n in DirNames(d) && n != name ensures Content(r, InumOf(d, n)) == Content(fs, InumOf(d, n)) {
      var i := NameHasRecord(d, n);
      assert Live(fs, d[i].inum);
    }
    MapChange(d, fs, r, name, Content(r, d[j].inum));
  }

  lemma MapChange(d: seq<Slot>, fs: Fs, r: Fs, name: cstring, c: seq<byte>)
    requires name in DirNames(d) && Content(r, InumOf(d, name)) == c
    requires forall n :: n in DirNames(d) && n != name ==> Content(r, InumOf(d, n)) == Content(fs, InumOf(d, n))
    ensures Files(d, r) == Files(d, fs)[name := c]
  {
  }

  lemma TruncateContent(fs: Fs, i: nat, k: int)
    requires i < |fs.inodes| && Truncate(fs, i).Done?
    ensures Content(Truncate(fs, i).fs, k) == if k == i then [] else Content(fs, k)
  {
  }

  lemma TruncateRefines(fs: Fs, j: nat)
    requires Sound(fs) && j < |Dir(fs)| && Dir(fs)[j].Used()
    ensures var r := Truncate(fs, Dir(fs)[j].inum);
      && r.Done? && RootOk(r.fs) && Dir(r.fs) == Dir(fs)
      && Alpha(r.fs) == Alpha(fs).(files := Alpha(fs).files[Dir(fs)[j].Name() := []])
  {
    var i := Dir(fs)[j].inum;
    assert Live(fs, i);
    TruncateSound(fs, i);
    hide DirOk, Nodes, Ownership, Handles, Dir, Content, Files, OpenHandles;
    var r := Truncate(fs, i).fs;
    forall k | Live(fs, k) && k != i ensures Content(r, k) == Content(fs, k) { TruncateContent(fs, i, k); }
    TruncateContent(fs, i, i);
    FilesChangeOne(Dir(fs), fs, r, j);
  }

  // ---------- Writing ----------

  /** The file's own bytes after the copy: overwritten from the offset on, grown if needed. */
  lemma CopiedContent(fs: Fs, h: int, buffer: seq<byte>, n: nat)
    requires CopyTarget(fs, h, n) && n <= |buffer|
    requires var i := fs.files[h].inum; fs.files[h].offset <= fs.inodes[i].size && NodeOk(fs, i)
    ensures WriteCopy(fs, h, buffer, n).Done?
    ensures var i := fs.files[h].inum; var offset := fs.files[h].offset;
      offset <= |Content(fs, i)|
      && Content(WriteCopy(fs, h, buffer, n).fs, i) == Overwrite(Content(fs, i), offset, buffer[..n])
  {
    var f := fs.files[h];
    var node := fs.inodes[f.inum];
    var r := WriteCopy(fs, h, buffer, n).fs;
    var start := BlockStart(fs, node.block);
    SpliceInside(fs.data, start + f.offset, buffer[..n], start, start + fs.p.blockSize);
    assert Block(r, node.block) == Splice(Block(fs, node.block), f.offset, buffer[..n]);
    ContentLength(fs, f.inum);
    SplicePrefix(Block(fs, node.block), node.size, f.offset, buffer[..n]);
  }

  lemma SplicePrefix(block: seq<byte>, size: nat, offset: nat, bytes: seq<byte>)
    requires offset <= size <= |block| && offset + |bytes| <= |block|
    ensures var grown := if offset + |bytes| > size then offset + |bytes| else size;
      Splice(block, offset, bytes)[..grown] == Overwrite(block[..size], offset, bytes)
  {
  }

  /** Non-interference: a copy leaves the bytes of every other file as they were. */
  lemma OtherContent(fs: Fs, h: int, buffer: seq<byte>, n: nat, k: int)
    requires CopyTarget(fs, h, n) && n <= |buffer| && WriteCopy(fs, h, buffer, n).Done?
    requires fs.ValidInum(k) && NodeOk(fs, k) && k != fs.files[h].inum
    requires fs.inodes[k].size > 0 ==> fs.inodes[k].block != fs.inodes[fs.files[h].inum].block
    ensures Content(WriteCopy(fs, h, buffer, n).fs, k) == Content(fs, k)
  {
    if fs.inodes[k].size > 0 {
      CopyStaysInBlock(fs, fs.inodes[fs.files[h].inum].block, fs.files[h].offset, buffer[..n], fs.inodes[k].block);
    }
  }

  lemma CopyFiles(fs: Fs, h: int, buffer: seq<byte>, n: nat, j: nat)
    requires Sound(fs) && CopyTarget(fs, h, n) && n <= |buffer| && WriteCopy(fs, h, buffer, n).Done?
    requires j < |Dir(fs)| && Dir(fs)[j].Used() && Dir(fs)[j].inum == fs.files[h].inum
    ensures var r := WriteCopy(fs, h, buffer, n).fs;
      Files(Dir(fs), r) == Files(Dir(fs), fs)[Dir(fs)[j].Name() := Content(r, fs.files[h].inum)]
  {
    hide Files, Content, WriteCopy, Dir;
    var r, i := WriteCopy(fs, h, buffer, n).fs, fs.files[h].inum;
    assert Live(fs, i);
    forall k | Live(fs, k) && k != i ensures Content(r, k) == Content(fs, k) {
      assert NodeOk(fs, k) && (fs.inodes[k].size > 0 ==> NonEmpty(fs, k));
      OtherContent(fs, h, buffer, n, k);
    }
    FilesChangeOne(Dir(fs), fs, r, j);
  }

  lemma CopyHandles(fs: Fs, h: int, buffer: seq<byte>, n: nat)
    requires CopyTarget(fs, h, n) && n <= |buffer| && WriteCopy(fs, h, buffer, n).Done?
    ensures var r := WriteCopy(fs, h, buffer, n).fs; var f := fs.files[h];
      r.files == fs.files[h := OpenFile(f.inum, f.offset + n)] && r.handleTaken == fs.handleTaken[h := true]
  {
  }

  lemma RecordNodeOk(fs: Fs, j: nat)
    requires Sound(fs) && j < |Dir(fs)| && Dir(fs)[j].Used()
    ensures Live(fs, Dir(fs)[j].inum) && NodeOk(fs, Dir(fs)[j].inum)
  {
  }

  lemma CopyMaps(fs: Fs, d: seq<Slot>, h: int, buffer: seq<byte>, n: nat, j: nat, r: Fs)
    requires Sound(fs) && CopyTarget(fs, h, n) && n <= |buffer|
    requires d == Dir(fs) && j < |d| && d[j].Used() && d[j].inum == fs.files[h].inum
    requires fs.files[h].offset <= fs.inodes[fs.files[h].inum].size
    requires WriteCopy(fs, h, buffer, n) == Done(r, n, [])
    ensures fs.files[h].offset <= |Content(fs, d[j].inum)|
    ensures Files(d, r) == Files(d, fs)[d[j].Name() := Overwrite(Content(fs, d[j].inum), fs.files[h].offset, buffer[..n])]
    ensures OpenHandles(d, r.files, r.handleTaken)
         == OpenHandles(d, fs.files, fs.handleTaken)[h := Handle(d[j].Name(), fs.files[h].offset + n)]
  {
    hide Dir, Files, Content, OpenHandles, Overwrite, DirOk, Entries, Nodes, Handles, Ownership, WriteCopy;
    RecordNodeOk(fs, j);
    NameOfRecord(d, j);
    CopiedContent(fs, h, buffer, n);
    CopyFiles(fs, h, buffer, n, j);
    CopyHandles(fs, h, buffer, n);
    HandlesAdd(d, fs.files, fs.handleTaken, h, OpenFile(d[j].inum, fs.files[h].offset + n));
  }

  lemma CopyRefines(fs: Fs, d: seq<Slot>, h: int, buffer: seq<byte>, n: nat, j: nat, r: Fs)
    requires Sound(fs) && CopyTarget(fs, h, n) && n <= |buffer|
    requires d == Dir(fs) && j < |d| && d[j].Used() && d[j].inum == fs.files[h].inum
    requires fs.files[h].offset <= fs.inodes[fs.files[h].inum].size
    requires WriteCopy(fs, h, buffer, n) == Done(r, n, []) && RootOk(r) && Dir(r) == d
    ensures fs.files[h].offset <= |Content(fs, d[j].inum)|
    ensures
      var a := Alpha(fs);
      Alpha(r) == Abs(a.files[d[j].Name() := Overwrite(Content(fs, d[j].inum), fs.files[h].offset, buffer[..n])],
                      a.handles[h := Handle(d[j].Name(), fs.files[h].offset + n)])
  {
    hide Dir, Files, Content, OpenHandles, Alpha, DirOk, Overwrite, Entries, Nodes, Handles, Ownership,
      WriteCopy, CopyTarget;
    AlphaParts(fs);
    CopyMaps(fs, d, h, buffer, n, j, r);
    AlphaIs(r, d, Files(d, r), OpenHandles(d, r.files, r.handleTaken));
  }

  lemma NameOfRecord(d: seq<Slot>, j: nat)
    requires DirOk(d) && j < |d| && d[j].Used()
    ensures NameOfInum(d, d[j].inum) == d[j].Name()
  {
  }

  lemma GiveBlockContent(fs: Fs, i: nat, b: nat, k: int)
    requires i < |fs.inodes| && fs.inodes[i].size == 0 && b < |fs.blockTaken|
    ensures Content(GiveBlock(fs, i, b), k) == Content(fs, k)
  {
  }

  /** Giving an empty file a block does not show. */
  lemma GiveBlockInvisible(fs: Fs, i: nat, b: nat)
    requires RootOk(fs) && 0 < i < |fs.inodes| && fs.inodes[i].size == 0 && b < |fs.blockTaken|
    ensures Dir(GiveBlock(fs, i, b)) == Dir(fs) && Alpha(GiveBlock(fs, i, b)) == Alpha(fs)
  {
    hide Files, OpenHandles, DirNames, InumOf, Content;
    var d, r := Dir(fs), GiveBlock(fs, i, b);
    forall n | n in DirNames(d) ensures Content(r, InumOf(d, n)) == Content(fs, InumOf(d, n)) {
      GiveBlockContent(fs, i, b, InumOf(d, n));
    }
    FilesFrame(d, fs, r);
  }

  // ---------- Creating and removing a file ----------

  /** Writing a record of the directory changes no file's bytes. */
  lemma ContentAfterWriteSlot(fs: Fs, slot: nat, bytes: seq<byte>, k: int)
    requires RootOk(fs) && slot < fs.p.DirCapacity() && |bytes| == ENTRY_SIZE
    requires fs.ValidInum(k) && NodeOk(fs, k)
    ensures Content(WriteSlot(fs, slot, bytes), k) == Content(fs, k)
  {
    if fs.inodes[k].size > 0 {
      DirectoryInBlock(fs.p);
      CopyStaysInBlock(fs, fs.inodes[ROOT].block, ENTRY_SIZE * slot, bytes, fs.inodes[k].block);
    }
  }

  /** A record in an unused place adds its name to the map. */
  lemma NamesAfterAdd(d: seq<Slot>, slot: nat, s: Slot)
    requires slot < |d| && DirOk(d) && DirOk(d[slot := s]) && !d[slot].Used() && s.Used()
    ensures DirNames(d[slot := s]) == DirNames(d) + {s.Name()}
    ensures s.Name() !in DirNames(d) && InumOf(d[slot := s], s.Name()) == s.inum
    ensures forall n :: n in DirNames(d) ==> InumOf(d[slot := s], n) == InumOf(d, n)
    ensures forall k :: SlotOfInum(d, k) != -1 && k != NO_INODE ==> NameOfInum(d[slot := s], k) == NameOfInum(d, k)
  {
    var e := d[slot := s];
    assert forall j :: 0 <= j < |d| && j != slot ==> e[j] == d[j];
    RecordIsUnique(e, slot);
    assert forall n :: n in DirNames(e) <==> n in DirNames(d) || n == s.Name() by {
      forall n | n in DirNames(d) ensures n in DirNames(e) {
        var j := NameHasRecord(d, n);
        assert e[j].Used() && e[j].Name() == n;
      }
      assert e[slot].Name() in DirNames(e);
    }
    forall n | n in DirNames(d) ensures n != s.Name() && InumOf(e, n) == InumOf(d, n) {
      var j := NameHasRecord(d, n);
      RecordIsUnique(e, j);
    }
    forall k | SlotOfInum(d, k) != -1 && k != NO_INODE ensures NameOfInum(e, k) == NameOfInum(d, k) {
      RecordIsUnique(e, SlotOfInum(d, k));
    }
  }

  /** No live file's bytes change when the directory block is written. */
  lemma FilesAfterWriteSlot(d: seq<Slot>, fs: Fs, r: Fs, slot: nat, bytes: seq<byte>)
    requires DirOk(d) && Entries(d, fs) && Nodes(fs) && RootOk(fs) && RootOk(r)
    requires slot < fs.p.DirCapacity() && |bytes| == ENTRY_SIZE
    requires r.inodes[ROOT] == fs.inodes[ROOT] && r.data == fs.data && r.p == fs.p
    requires forall k :: Live(fs, k) ==> r.inodes[k] == fs.inodes[k]
    ensures forall n :: n in DirNames(d) ==> Content(WriteSlot(r, slot, bytes), InumOf(d, n)) == Content(fs, InumOf(d, n))
  {
    hide WriteSlot, DirNames, DirOk;
    forall n | n in DirNames(d)
      ensures Content(WriteSlot(r, slot, bytes), InumOf(d, n)) == Content(fs, InumOf(d, n))
    {
      var j := NameHasRecord(d, n);
      var k := d[j].inum;
      assert Live(fs, k) && NodeOk(fs, k) && NodeOk(r, k);
      ContentAfterWriteSlot(r, slot, bytes, k);
      assert Content(r, k) == Content(fs, k);
    }
  }

  lemma CreatedEmpty(fs: Fs, name: cstring, i: nat, slot: nat)
    requires RootOk(fs) && 0 < i < |fs.inodes| && slot < fs.p.DirCapacity()
    ensures Content(CreateFile(fs, name, i, slot), i) == []
  {
  }

  lemma CreateFiles(fs: Fs, name: cstring, i: nat, slot: nat)
    requires Sound(fs) && 1 <= |name| < MAX_FILE_NAME && FindSlot(Dir(fs), name) == -1
    requires i == FirstFree(fs.inodeTaken) && slot == FirstUnused(Dir(fs))
    ensures var r := CreateFile(fs, name, i, slot);
      RootOk(r) && Files(Dir(r), r) == Files(Dir(fs), fs)[name := []]
  {
    hide Files, Content, DirNames, InumOf, NameOfInum, SlotOfInum, Entries, Nodes, Handles, Ownership,
      EntryBytes, WriteSlot;
    CreateDir(fs, name, i, slot);
    var d, r := Dir(fs), CreateFile(fs, name, i, slot);
    var e := Dir(r);
    NamesAfterAdd(d, slot, e[slot]);
    FilesAfterWriteSlot(d, fs, TakeInode(fs, i), slot, EntryBytes(name, i));
    CreatedEmpty(fs, name, i, slot);
    MapAdd(d, e, fs, r, name);
  }

  lemma MapAdd(d: seq<Slot>, e: seq<Slot>, fs: Fs, r: Fs, name: cstring)
    requires DirNames(e) == DirNames(d) + {name} && name !in DirNames(d) && Content(r, InumOf(e, name)) == []
    requires forall n :: n in DirNames(d) ==> InumOf(e, n) == InumOf(d, n)
    requires forall n :: n in DirNames(d) ==> Content(r, InumOf(d, n)) == Content(fs, InumOf(d, n))
    ensures Files(e, r) == Files(d, fs)[name := []]
  {
  }

  lemma CreateParts(fs: Fs, name: cstring, i: nat, slot: nat)
    requires RootOk(fs) && 0 < i < |fs.inodes| && slot < fs.p.DirCapacity()
    ensures var r := CreateFile(fs, name, i, slot); r.files == fs.files && r.handleTaken == fs.handleTaken
  {
  }

  lemma CreateRefines(fs: Fs, name: cstring, i: nat, slot: nat)
    requires Consistent(fs) && 1 <= |name| < MAX_FILE_NAME && FindSlot(Dir(fs), name) == -1
    requires i == FirstFree(fs.inodeTaken) && slot == FirstUnused(Dir(fs))
    ensures var r := CreateFile(fs, name, i, slot);
      RootOk(r) && Alpha(r) == Alpha(fs).(files := Alpha(fs).files[name := []])
  {
    hide Files, OpenHandles, Content, DirNames, InumOf, NameOfInum, Entries, Nodes, Handles, Ownership,
      NoOrphans, EntryBytes, WriteSlot;
    CreateFiles(fs, name, i, slot);
    CreateDir(fs, name, i, slot);
    CreateParts(fs, name, i, slot);
    var d, e := Dir(fs), Dir(CreateFile(fs, name, i, slot));
    NamesAfterAdd(d, slot, e[slot]);
    HandlesNamed(fs);
    HandlesFrame(d, e, fs.files, fs.handleTaken);
  }

  lemma HandlesNamed(fs: Fs)
    requires Consistent(fs)
    ensures forall h :: fs.IsOpen(h) ==> SlotOfInum(Dir(fs), fs.files[h].inum) != -1 && fs.files[h].inum != NO_INODE
  {
  }

  /** Clearing a used record removes its name from the map. */
  lemma NamesAfterClear(d: seq<Slot>, slot: nat, s: Slot)
    requires slot < |d| && DirOk(d) && DirOk(d[slot := s]) && d[slot].Used() && !s.Used()
    ensures DirNames(d[slot := s]) == DirNames(d) - {d[slot].Name()}
    ensures forall n :: n in DirNames(d) && n != d[slot].Name() ==> InumOf(d[slot := s], n) == InumOf(d, n)
    ensures forall k :: SlotOfInum(d, k) != -1 && k != NO_INODE && k != d[slot].inum ==>
              NameOfInum(d[slot := s], k) == NameOfInum(d, k)
  {
    var e := d[slot := s];
    assert forall j :: 0 <= j < |d| && j != slot ==> e[j] == d[j];
    forall n | n in DirNames(d) && n != d[slot].Name() ensures n in DirNames(e) && InumOf(e, n) == InumOf(d, n) {
      var j := NameHasRecord(d, n);
      assert e[j].Used() && e[j].Name() == n;
      RecordIsUnique(e, j);
    }
    forall n | n in DirNames(e) ensures n in DirNames(d) && n != d[slot].Name() {
      var j := NameHasRecord(e, n);
      assert j != slot && d[j].Used() && d[j].Name() == n;
    }
    forall k | SlotOfInum(d, k) != -1 && k != NO_INODE && k != d[slot].inum ensures NameOfInum(e, k) == NameOfInum(d, k) {
      RecordIsUnique(e, SlotOfInum(d, k));
    }
  }

  lemma RemoveFiles(fs: Fs, name: cstring)
    requires Sound(fs) && FindSlot(Dir(fs), name) != -1
    ensures var slot := FindSlot(Dir(fs), name); var i := Dir(fs)[slot].inum;
      && Live(fs, i) && InodeDelete(fs, i).Done?
      && var r := RemoveFile(fs, i, slot); RootOk(r) && Files(Dir(r), r) == Files(Dir(fs), fs) - {name}
  {
    RemoveDir(fs, name);
    var d, slot := Dir(fs), FindSlot(Dir(fs), name);
    var i := d[slot].inum;
    var r := RemoveFile(fs, i, slot);
    var e := Dir(r);
    FindSlotIsLookup(d, name);
    NamesAfterClear(d, slot, e[slot]);
    FilesAfterWriteSlot(d, fs, InodeDelete(fs, i).fs, slot, ClearedBytes());
    MapRemove(d, e, fs, r, name);
  }

  lemma MapRemove(d: seq<Slot>, e: seq<Slot>, fs: Fs, r: Fs, name: cstring)
    requires DirNames(e) == DirNames(d) - {name}
    requires forall n :: n in DirNames(d) && n != name ==> InumOf(e, n) == InumOf(d, n)
    requires forall n :: n in DirNames(d) ==> Content(r, InumOf(d, n)) == Content(fs, InumOf(d, n))
    ensures Files(e, r) == Files(d, fs) - {name}
  {
  }

  lemma RemoveParts(fs: Fs, i: nat, slot: nat)
    requires RootOk(fs) && slot < fs.p.DirCapacity() && i < |fs.inodes| && InodeDelete(fs, i).Done?
    ensures var r := RemoveFile(fs, i, slot); r.files == fs.files && r.handleTaken == fs.handleTaken
  {
  }

  lemma RemoveRefines(fs: Fs, name: cstring)
    requires Consistent(fs) && FindSlot(Dir(fs), name) != -1
    requires NoHandles(fs, Dir(fs)[FindSlot(Dir(fs), name)].inum)
    ensures var slot := FindSlot(Dir(fs), name); var i := Dir(fs)[slot].inum;
      && Live(fs, i) && InodeDelete(fs, i).Done?
      && var r := RemoveFile(fs, i, slot);
         RootOk(r) && Alpha(r) == Alpha(fs).(files := Alpha(fs).files - {name})
  {
    hide Files, OpenHandles, Content, DirNames, InumOf, NameOfInum, Entries, Nodes, Handles, Ownership,
      NoOrphans, ClearedBytes, WriteSlot;
    RemoveFiles(fs, name);
    RemoveDir(fs, name);
    RemoveParts(fs, Dir(fs)[FindSlot(Dir(fs), name)].inum, FindSlot(Dir(fs), name));
    var d, slot := Dir(fs), FindSlot(Dir(fs), name);
    var e := Dir(RemoveFile(fs, d[slot].inum, slot));
    FindSlotIsLookup(d, name);
    NamesAfterClear(d, slot, e[slot]);
    HandlesNamed(fs);
    HandlesFrame(d, e, fs.files, fs.handleTaken);
  }
}
