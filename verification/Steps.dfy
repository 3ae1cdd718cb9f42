/**
 One step of the file system: no assertion of the code fails on a sound state, `Sound` is
 kept by every call, and `Consistent` is kept exactly by the disciplined ones.
 */
module Steps {
  import opened CMemory
  import opened TfsState
  import opened TfsOperations
  import opened Invariants
  import opened Preservation

  /** The lengths are size_t, and the sum that clips a write does not wrap. */
  predicate FitsSizeT(p: Params, op: Op) {
    match op
    case Write(_, buffer) => |buffer| <= SIZE_MAX - p.blockSize
    case Read(_, len) => len <= SIZE_MAX
    case _ => true
  }

  predicate NotPastEnd(fs: Fs, op: Op) {
    op.Read? ==> ReadsWithin(fs, op.h)
  }

  /** A read that starts within its file, asks for nothing, or, past the end, finds a block
      number in the inode and stays within that block. */
  predicate ReadInBounds(fs: Fs, h: int, len: nat) {
    fs.IsOpen(h) && fs.ValidInum(fs.files[h].inum) ==>
      var offset, node := fs.files[h].offset, fs.inodes[fs.files[h].inum];
      offset <= node.size || len == 0 || (fs.ValidBlock(node.block) && offset + len <= fs.p.blockSize)
  }

  predicate InBounds(fs: Fs, op: Op) {
    op.Read? ==> ReadInBounds(fs, op.h, op.len)
  }

  /** The slot of the directory that a path names, or -1. */
  function PathSlot(fs: Fs, path: Option<cstring>): (r: int)
    requires fs.ValidBlock(fs.inodes[ROOT].block)
    ensures -1 <= r < |Dir(fs)|
  {
    if ValidPath(path) then FindSlot(Dir(fs), FileName(path)) else -1
  }

  /** Unlink only a file with no open handle; truncate only a file all of whose open handles
      are at offset 0. */
  ghost predicate Disciplined(fs: Fs, op: Op)
    requires fs.ValidBlock(fs.inodes[ROOT].block)
  {
    match op
    case Unlink(path) => PathSlot(fs, path) != -1 ==> NoHandles(fs, Dir(fs)[PathSlot(fs, path)].inum)
    case Open(path, mode) =>
      PathSlot(fs, path) != -1 && mode.trunc ==> HandlesAtZero(fs, Dir(fs)[PathSlot(fs, path)].inum)
    case _ => true
  }

  // ---------- What each operation does on a sound state ----------

  /** Unlink is atomic: once the lookup has succeeded the record is cleared and 0 returned. */
  lemma UnlinkOutcome(fs: Fs, path: Option<cstring>)
    requires Sound(fs)
    ensures var slot := PathSlot(fs, path);
      if slot == -1 then UnlinkOp(fs, path) == Done(fs, -1, [])
      else
        && Live(fs, Dir(fs)[slot].inum) && InodeDelete(fs, Dir(fs)[slot].inum).Done?
        && UnlinkOp(fs, path) == Done(RemoveFile(fs, Dir(fs)[slot].inum, slot), 0, [])
  {
    if ValidPath(path) {
      LookupFindsLive(fs, FileName(path));
      if PathSlot(fs, path) != -1 {
        RemoveDir(fs, FileName(path));
      }
    }
  }

  /** A failed creation leaves only the free record that it initialized behind. */
  function Scrubbed(fs: Fs, i: nat): Fs
    requires i < |fs.inodes|
  {
    fs.(inodes := fs.inodes[i := Inode(File, 0, -1)])
  }

  lemma TakeInodeDir(fs: Fs, i: nat)
    requires RootOk(fs) && 0 < i < |fs.inodes|
    ensures Dir(TakeInode(fs, i)) == Dir(fs)
  {
  }

  lemma OpenNewOutcome(fs: Fs, name: cstring)
    requires Sound(fs) && |name| > 0
    ensures var i := FirstFree(fs.inodeTaken); var slot := FirstUnused(Dir(fs));
      if i == -1 then OpenNew(fs, name) == Done(fs, -1, [])
      else if |name| >= MAX_FILE_NAME || slot == -1 then i > 0 && OpenNew(fs, name) == Done(Scrubbed(fs, i), -1, [])
      else i > 0 && OpenNew(fs, name) == AddToOpenFileTable(CreateFile(fs, name, i, slot), i, 0)
  {
    hide Dir, DirOk, Entries, Nodes, Handles, Ownership, WriteSlot, EntryBytes;
    var i := FirstFree(fs.inodeTaken);
    if i != -1 {
      var created := TakeInode(fs, i);
      TakeInodeDir(fs, i);
      assert created.inodeTaken[i := false] == fs.inodeTaken;
    }
  }

  lemma ScrubbedKeeps(fs: Fs, i: nat)
    requires Sound(fs) && 0 < i < |fs.inodes| && !fs.inodeTaken[i]
    ensures Sound(Scrubbed(fs, i)) && Dir(Scrubbed(fs, i)) == Dir(fs)
    ensures Consistent(fs) ==> Consistent(Scrubbed(fs, i))
  {
    var r := Scrubbed(fs, i);
    assert Dir(r) == Dir(fs);
    assert forall k :: Live(r, k) <==> Live(fs, k);
    assert Nodes(r) by {
      forall k | Live(r, k) ensures NodeOk(r, k) { assert NodeOk(fs, k); }
    }
    assert Handles(r) by {
      forall h | r.IsOpen(h) ensures NodeOk(r, r.files[h].inum) { assert fs.IsOpen(h); }
    }
    assert forall k :: NonEmpty(r, k) <==> NonEmpty(fs, k);
    if Consistent(fs) {
      assert HandlesLive(r) by {
        forall h | r.IsOpen(h) ensures Live(r, r.files[h].inum) && r.files[h].offset <= r.inodes[r.files[h].inum].size {
          assert fs.IsOpen(h) && Live(fs, fs.files[h].inum);
        }
      }
      forall b | 0 <= b < |r.blockTaken| && r.blockTaken[b] && b != r.inodes[ROOT].block ensures HasOwner(r, b) {
        assert HasOwner(fs, b);
        var k :| NonEmpty(fs, k) && fs.inodes[k].block == b;
        assert NonEmpty(r, k);
      }
    }
  }

  lemma OpenOutcome(fs: Fs, path: Option<cstring>, mode: Mode)
    requires Sound(fs)
    ensures var slot := PathSlot(fs, path);
      if slot != -1 then Live(fs, Dir(fs)[slot].inum) && OpenOp(fs, path, mode) == OpenExisting(fs, Dir(fs)[slot].inum, mode)
      else if ValidPath(path) && mode.creat then OpenOp(fs, path, mode) == OpenNew(fs, FileName(path))
      else OpenOp(fs, path, mode) == Done(fs, -1, [])
  {
  }

  function Clipped(fs: Fs, h: int, buffer: seq<byte>): (n: nat)
    requires fs.IsOpen(h) && fs.files[h].offset <= fs.p.blockSize
    ensures n <= |buffer| && fs.files[h].offset + n <= fs.p.blockSize
  {
    var room := fs.p.blockSize - fs.files[h].offset;
    if |buffer| <= room then |buffer| else room
  }

  /** A write clips to its block, allocates a block exactly when the file is empty, and copies
      only into the block that its inode names. */
  lemma WriteOutcome(fs: Fs, h: int, buffer: seq<byte>)
    requires Sound(fs) && fs.IsOpen(h) && |buffer| <= SIZE_MAX - fs.p.blockSize
    ensures fs.files[h].offset <= fs.p.blockSize && 0 < fs.files[h].inum < |fs.inodes|
    ensures var n := Clipped(fs, h, buffer); var i := fs.files[h].inum; var b := FirstFree(fs.blockTaken);
      if n == 0 then WriteOp(fs, h, buffer) == Done(fs, 0, [])
      else if fs.inodes[i].size > 0 then
        CopyTarget(fs, h, n) && WriteOp(fs, h, buffer) == WriteCopy(fs, h, buffer, n)
      else if b == -1 then WriteOp(fs, h, buffer) == Done(fs, -1, [])
      else
        && Sound(GiveBlock(fs, i, b)) && Dir(GiveBlock(fs, i, b)) == Dir(fs)
        && CopyTarget(GiveBlock(fs, i, b), h, n)
        && WriteOp(fs, h, buffer) == WriteCopy(GiveBlock(fs, i, b), h, buffer, n)
  {
    hide DirOk, Entries, Dir;
    var i := fs.files[h].inum;
    assert NodeOk(fs, i);
    WriteClipIsMinIff(|buffer|, fs.files[h].offset, fs.p.blockSize);
    var n := Clipped(fs, h, buffer);
    if n > 0 {
      if fs.inodes[i].size > 0 {
        assert Live(fs, i) ==> NonEmpty(fs, i);
      } else if FirstFree(fs.blockTaken) != -1 {
        GiveBlockSound(fs, i);
      }
    }
  }

  // ---------- Sound is kept by every call ----------

  lemma LiveNodeOk(fs: Fs, i: nat)
    requires Sound(fs) && Live(fs, i)
    ensures NodeOk(fs, i)
  {
  }

  lemma OpenSound(fs: Fs, path: Option<cstring>, mode: Mode)
    requires Sound(fs)
    ensures OpenOp(fs, path, mode).Done? && Sound(OpenOp(fs, path, mode).fs)
    ensures OpenOp(fs, path, mode).fs.inodes[ROOT] == fs.inodes[ROOT]
  {
    hide DirOk, Entries, Nodes, Handles, Ownership, Dir, OpenOp, OpenNew, CreateFile;
    OpenOutcome(fs, path, mode);
    var slot := PathSlot(fs, path);
    if slot != -1 {
      var i := Dir(fs)[slot].inum;
      TruncateSound(fs, i);
      var cut := if mode.trunc then Truncate(fs, i).fs else fs;
      LiveNodeOk(cut, i);
      AddHandleSound(cut, i, if mode.append then cut.inodes[i].size else 0);
    } else if ValidPath(path) && mode.creat {
      var name := FileName(path);
      OpenNewOutcome(fs, name);
      var i, free := FirstFree(fs.inodeTaken), FirstUnused(Dir(fs));
      if i != -1 {
        if |name| >= MAX_FILE_NAME || free == -1 {
          ScrubbedKeeps(fs, i);
        } else {
          CreateSound(fs, name, i, free);
          CreateDir(fs, name, i, free);
          AddHandleSound(CreateFile(fs, name, i, free), i, 0);
        }
      }
    }
  }

  lemma WriteSound(fs: Fs, h: int, buffer: seq<byte>)
    requires Sound(fs) && |buffer| <= SIZE_MAX - fs.p.blockSize
    ensures WriteOp(fs, h, buffer).Done?
    ensures var r := WriteOp(fs, h, buffer).fs;
      Sound(r) && r.inodes[ROOT] == fs.inodes[ROOT] && Dir(r) == Dir(fs)
  {
    if fs.IsOpen(h) {
      WriteOutcome(fs, h, buffer);
      var n, i, b := Clipped(fs, h, buffer), fs.files[h].inum, FirstFree(fs.blockTaken);
      if n > 0 {
        if fs.inodes[i].size > 0 {
          CopySound(fs, h, buffer, n);
          CopyKeepsDir(fs, h, buffer, n);
        } else if b != -1 {
          CopySound(GiveBlock(fs, i, b), h, buffer, n);
          CopyKeepsDir(GiveBlock(fs, i, b), h, buffer, n);
        }
      }
    }
  }

  lemma UnlinkSound(fs: Fs, path: Option<cstring>)
    requires Sound(fs)
    ensures UnlinkOp(fs, path).Done? && Sound(UnlinkOp(fs, path).fs)
    ensures UnlinkOp(fs, path).fs.inodes[ROOT] == fs.inodes[ROOT]
  {
    UnlinkOutcome(fs, path);
    if PathSlot(fs, path) != -1 {
      RemoveSound(fs, FileName(path));
    }
  }

  /** A read that starts past the end of its file: the subtraction wraps, so the length alone
      decides, and the copy is made if it stays within the byte array. */
  lemma PastEndRead(fs: Fs, h: int, len: nat)
    requires fs.IsOpen(h) && fs.ValidInum(fs.files[h].inum) && 0 < len <= SIZE_MAX
    requires fs.inodes[fs.files[h].inum].size < fs.files[h].offset <= fs.p.blockSize
    ensures var offset, b := fs.files[h].offset, fs.inodes[fs.files[h].inum].block; var r := ReadOp(fs, h, len);
      if fs.ValidBlock(b) && BlockStart(fs, b) + offset + len <= |fs.data|
      then r.Done? && r.ret == len && r.fs == MoveOffset(fs, h, offset + len)
      else r.Panic?
  {
  }

  /** An offset past the block is not sound. */
  lemma OffsetPastBlock(fs: Fs, h: int, offset: nat)
    requires fs.IsOpen(h) && offset > fs.p.blockSize
    ensures !Sound(MoveOffset(fs, h, offset))
  {
    var r := MoveOffset(fs, h, offset);
    assert r.IsOpen(h);
  }

  /** A read runs without a failed assertion or a stray copy and leaves a sound state if and
      only if it is in bounds. */
  lemma ReadStaysSoundIff(fs: Fs, h: int, len: nat)
    requires Sound(fs) && len <= SIZE_MAX
    ensures var r := ReadOp(fs, h, len); r.Done? && Sound(r.fs) <==> ReadInBounds(fs, h, len)
  {
    hide DirOk, Entries, Nodes, Ownership, Dir, ReadOp;
    if ReadsWithin(fs, h) {
      ReadKeeps(fs, h, len);
    } else if len == 0 {
      EmptyRead(fs, h);
    } else {
      PastEndRead(fs, h, len);
      var offset := fs.files[h].offset;
      if offset + len <= fs.p.blockSize {
        MoveOffsetSound(fs, h, offset + len);
      } else {
        OffsetPastBlock(fs, h, offset + len);
      }
    }
  }

  lemma EmptyRead(fs: Fs, h: int)
    requires fs.IsOpen(h) && fs.ValidInum(fs.files[h].inum)
    ensures ReadOp(fs, h, 0) == Done(fs, 0, [])
  {
  }

  lemma ReadKeepsDir(fs: Fs, h: int, len: nat)
    requires RootOk(fs) && ReadOp(fs, h, len).Done?
    ensures var r := ReadOp(fs, h, len).fs; r.inodes[ROOT] == fs.inodes[ROOT] && Dir(r) == Dir(fs)
  {
  }

  /** On a sound state every call that fits size_t and is not a read out of bounds runs
      without a failed assertion or a stray copy, and leaves a sound state with the same root.
      Nothing is asked about unlinking or truncating under open handles. */
  lemma SoundStep(fs: Fs, op: Op)
    requires Sound(fs) && FitsSizeT(fs.p, op) && InBounds(fs, op)
    ensures Apply(fs, op).Done?
    ensures Sound(Apply(fs, op).fs) && Apply(fs, op).fs.p == fs.p
    ensures Apply(fs, op).fs.inodes[ROOT] == fs.inodes[ROOT]
  {
    hide ReadInBounds;
    match op
    case Open(path, mode) => OpenSound(fs, path, mode);
    case Close(h) => CloseKeeps(fs, h);
    case Write(h, buffer) => WriteSound(fs, h, buffer);
    case Read(h, len) =>
      ReadStaysSoundIff(fs, h, len);
      ReadKeepsDir(fs, h, len);
    case Unlink(path) => UnlinkSound(fs, path);
  }

  /** That premise is exact: a call leaves a sound state if and only if it is in bounds. */
  lemma SoundStepIff(fs: Fs, op: Op)
    requires Sound(fs) && FitsSizeT(fs.p, op)
    ensures Apply(fs, op).Done? && Sound(Apply(fs, op).fs) <==> InBounds(fs, op)
  {
    hide Sound, ReadInBounds;
    if InBounds(fs, op) {
      SoundStep(fs, op);
    } else {
      ReadStaysSoundIff(fs, op.h, op.len);
    }
  }

  /** No write, through a live or a stale handle, and no read or close changes the directory. */
  lemma DirectoryUntouched(fs: Fs, op: Op)
    requires Sound(fs) && FitsSizeT(fs.p, op) && Apply(fs, op).Done?
    requires op.Write? || op.Read? || op.Close?
    ensures Apply(fs, op).fs.inodes[ROOT] == fs.inodes[ROOT] && Dir(Apply(fs, op).fs) == Dir(fs)
  {
    match op
    case Close(h) => CloseKeeps(fs, h);
    case Write(h, buffer) => WriteSound(fs, h, buffer);
    case Read(h, len) => ReadKeepsDir(fs, h, len);
  }

  // ---------- Consistent is kept exactly by disciplined calls ----------

  lemma OpenConsistent(fs: Fs, path: Option<cstring>, mode: Mode)
    requires Consistent(fs) && Disciplined(fs, Open(path, mode))
    ensures OpenOp(fs, path, mode).Done? && Consistent(OpenOp(fs, path, mode).fs)
  {
    hide DirOk, Entries, Nodes, Handles, Ownership, HandlesLive, NoOrphans, Dir, OpenOp, OpenNew, CreateFile;
    OpenOutcome(fs, path, mode);
    var slot := PathSlot(fs, path);
    if slot != -1 {
      var i := Dir(fs)[slot].inum;
      TruncateSound(fs, i);
      if mode.trunc {
        TruncateConsistent(fs, i);
      }
      var cut := if mode.trunc then Truncate(fs, i).fs else fs;
      AddHandleConsistent(cut, i, if mode.append then cut.inodes[i].size else 0);
    } else if ValidPath(path) && mode.creat {
      var name := FileName(path);
      OpenNewOutcome(fs, name);
      var i, free := FirstFree(fs.inodeTaken), FirstUnused(Dir(fs));
      if i != -1 {
        if |name| >= MAX_FILE_NAME || free == -1 {
          ScrubbedKeeps(fs, i);
        } else {
          CreateSound(fs, name, i, free);
          CreateConsistent(fs, name, i, free);
          AddHandleConsistent(CreateFile(fs, name, i, free), i, 0);
        }
      }
    }
  }

  lemma WriteConsistent(fs: Fs, h: int, buffer: seq<byte>)
    requires Consistent(fs) && |buffer| <= SIZE_MAX - fs.p.blockSize
    ensures WriteOp(fs, h, buffer).Done? && Consistent(WriteOp(fs, h, buffer).fs)
  {
    if fs.IsOpen(h) {
      WriteOutcome(fs, h, buffer);
      var n, i, b := Clipped(fs, h, buffer), fs.files[h].inum, FirstFree(fs.blockTaken);
      if n > 0 {
        if fs.inodes[i].size > 0 {
          CopySound(fs, h, buffer, n);
          CopyConsistent(fs, h, buffer, n);
        } else if b != -1 {
          CopySound(GiveBlock(fs, i, b), h, buffer, n);
          GiveBlockConsistent(fs, i);
          CopyConsistent(GiveBlock(fs, i, b), h, buffer, n);
        }
      }
    }
  }

  lemma ConsistentReadsWithin(fs: Fs, op: Op)
    requires Consistent(fs)
    ensures NotPastEnd(fs, op) && InBounds(fs, op)
  {
  }

  /** Truncating under a handle past offset 0 leaves that handle past the end of its file. */
  lemma TruncateStrandsHandle(fs: Fs, i: nat, h: int, offset: nat)
    requires i < |fs.inodes| && Truncate(fs, i).Done?
    requires fs.IsOpen(h) && fs.files[h].inum == i && fs.files[h].offset != 0
    ensures var r := AddToOpenFileTable(Truncate(fs, i).fs, i, offset); r.Done? && !HandlesLive(r.fs)
  {
    var r := AddToOpenFileTable(Truncate(fs, i).fs, i, offset).fs;
    assert r.IsOpen(h) && r.files[h] == fs.files[h] && r.inodes[i].size == 0;
  }

  lemma UndisciplinedOpen(fs: Fs, path: Option<cstring>, mode: Mode)
    requires Consistent(fs) && !Disciplined(fs, Open(path, mode))
    ensures OpenOp(fs, path, mode).Done? && !HandlesLive(OpenOp(fs, path, mode).fs)
  {
    OpenOutcome(fs, path, mode);
    var i := Dir(fs)[PathSlot(fs, path)].inum;
    var h :| fs.IsOpen(h) && fs.files[h].inum == i && fs.files[h].offset != 0;
    TruncateSound(fs, i);
    TruncateStrandsHandle(fs, i, h, if mode.append then Truncate(fs, i).fs.inodes[i].size else 0);
  }

  /** Unlinking under an open handle leaves that handle on a free inode. */
  lemma UndisciplinedUnlink(fs: Fs, path: Option<cstring>)
    requires Consistent(fs) && !Disciplined(fs, Unlink(path))
    ensures UnlinkOp(fs, path).Done? && !HandlesLive(UnlinkOp(fs, path).fs)
  {
    UnlinkOutcome(fs, path);
    var i := Dir(fs)[PathSlot(fs, path)].inum;
    var h :| fs.IsOpen(h) && fs.files[h].inum == i;
    var r := UnlinkOp(fs, path).fs;
    assert r.IsOpen(h) && !Live(r, r.files[h].inum);
  }

  /** The discipline that the assertion messages of operations.c take for granted is exactly
      what keeps the tables consistent. */
  lemma ConsistentStep(fs: Fs, op: Op)
    requires Consistent(fs) && FitsSizeT(fs.p, op)
    ensures Apply(fs, op).Done? && Sound(Apply(fs, op).fs)
    ensures Consistent(Apply(fs, op).fs) <==> Disciplined(fs, op)
  {
    ConsistentReadsWithin(fs, op);
    SoundStep(fs, op);
    match op
    case Open(path, mode) =>
      if Disciplined(fs, op) { OpenConsistent(fs, path, mode); } else { UndisciplinedOpen(fs, path, mode); }
    case Close(h) => CloseKeeps(fs, h);
    case Write(h, buffer) => WriteConsistent(fs, h, buffer);
    case Read(h, len) => ReadKeeps(fs, h, len);
    case Unlink(path) =>
      UnlinkOutcome(fs, path);
      if !Disciplined(fs, op) {
        UndisciplinedUnlink(fs, path);
      } else if PathSlot(fs, path) != -1 {
        RemoveConsistent(fs, FileName(path));
      }
  }

  // ---------- The initial state ----------

  lemma InitDir(s: Fs, data: seq<byte>)
    requires s.ValidBlock(0) && s.inodes[ROOT].block == 0
    requires |data| == |s.data| && ENTRY_SIZE * s.p.DirCapacity() <= |data|
    requires s.data == LabelUnused(data, 0, s.p.DirCapacity())
    ensures forall i :: 0 <= i < |Dir(s)| ==> !Dir(s)[i].Used()
  {
    DecodeEncodeInt(NO_INODE);
    assert BlockStart(s, 0) == 0;
    forall i | 0 <= i < |Dir(s)| ensures !Dir(s)[i].Used() {
      assert s.data[ENTRY_SIZE * i + 40..ENTRY_SIZE * i + 44] == EncodeInt(NO_INODE);
    }
  }

  /** tfs_init succeeds exactly when there is room for the root inode and its block, whatever
      bytes malloc returned, and then the tables are consistent and empty. */
  lemma InitConsistent(p: Params, inodes: seq<Inode>, data: seq<byte>, files: seq<OpenFile>)
    requires p.Valid()
    requires |inodes| == p.inodeCount && |data| == Times(p.blockCount, p.blockSize) && |files| == p.handleCount
    ensures var (s, ret) := Init(p, inodes, data, files);
      if p.inodeCount == 0 || p.blockCount == 0 then ret == -1
      else
        && ret == 0 && s.Shape() && s.p == p && Consistent(s) && s.inodes[ROOT].block == 0
        && (forall i :: 0 <= i < p.inodeCount ==> s.inodeTaken[i] == (i == ROOT))
        && (forall b :: 0 <= b < p.blockCount ==> s.blockTaken[b] == (b == 0))
        && (forall h :: 0 <= h < p.handleCount ==> !s.handleTaken[h])
        && forall i :: 0 <= i < |Dir(s)| ==> !Dir(s)[i].Used()
  {
    hide Dir, LabelUnused;
    if p.inodeCount > 0 && p.blockCount > 0 {
      var s: Fs := Init(p, inodes, data, files).0;
      DirectoryInBlock(p);
      TimesMonotone(0, p.blockCount, p.blockSize);
      InitDir(s, data);
    }
  }
}
