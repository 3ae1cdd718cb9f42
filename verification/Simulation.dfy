/**
 Refinement, operation by operation: on a consistent state every disciplined call returns
 what the abstract machine returns and leaves the state that the abstract machine moves to.
 */
module Simulation {
  import opened CMemory
  import opened TfsState
  import opened TfsOperations
  import opened Invariants
  import opened Preservation
  import opened Steps
  import opened AbstractFs
  import opened Refinement
  import opened Counting

  ghost predicate Refines(r: Outcome, ar: (Abs, Result)) {
    r.Done? && RootOk(r.fs) && Alpha(r.fs) == ar.0 && Result(r.ret, r.out) == ar.1
  }

  // ---------- Write ----------

  lemma AWriteCases(p: Params, a: Abs, h: int, buffer: seq<byte>, n: nat)
    requires h in a.handles && a.handles[h].offset <= |FileOf(a, h)| <= p.blockSize
    requires n == Min(|buffer|, p.blockSize - a.handles[h].offset)
    ensures AWrite(p, a, h, buffer) ==
      if n == 0 then (a, Result(0, []))
      else if FileOf(a, h) == [] && |NonEmptyNames(a)| + 1 == p.blockCount then (a, Result(-1, []))
      else (Abs(a.files[a.handles[h].name := Overwrite(FileOf(a, h), a.handles[h].offset, buffer[..n])],
                a.handles[h := Handle(a.handles[h].name, a.handles[h].offset + n)]), Result(n, []))
  {
  }

  lemma WriteExistingRefines(fs: Fs, h: int, buffer: seq<byte>)
    requires Consistent(fs) && fs.IsOpen(h) && |buffer| <= SIZE_MAX - fs.p.blockSize
    requires fs.inodes[fs.files[h].inum].size > 0
    ensures Refines(WriteOp(fs, h, buffer), AWrite(fs.p, Alpha(fs), h, buffer))
  {
    hide Files, OpenHandles, Alpha, Content, DirOk, Entries, Nodes, Handles, Ownership, NoOrphans, Dir,
      WriteOp, WriteCopy, AWrite, Overwrite, NonEmptyNames, CopyTarget;
    var j := HandleAt(fs, h);
    WriteOutcome(fs, h, buffer);
    var n := Clipped(fs, h, buffer);
    AWriteCases(fs.p, Alpha(fs), h, buffer, n);
    if n > 0 {
      CopyKeepsDir(fs, h, buffer, n);
      CopyReturns(fs, h, buffer, n);
      CopyRefines(fs, Dir(fs), h, buffer, n, j, WriteOp(fs, h, buffer).fs);
    }
  }

  lemma CopyReturns(fs: Fs, h: int, buffer: seq<byte>, n: nat)
    requires fs.IsOpen(h) && WriteCopy(fs, h, buffer, n).Done?
    ensures WriteCopy(fs, h, buffer, n).ret == n && WriteCopy(fs, h, buffer, n).out == []
    ensures WriteCopy(fs, h, buffer, n) == Done(WriteCopy(fs, h, buffer, n).fs, n, [])
  {
  }

  lemma WriteEmptyRefines(fs: Fs, h: int, buffer: seq<byte>)
    requires Consistent(fs) && fs.IsOpen(h) && |buffer| <= SIZE_MAX - fs.p.blockSize
    requires fs.inodes[fs.files[h].inum].size == 0
    ensures Refines(WriteOp(fs, h, buffer), AWrite(fs.p, Alpha(fs), h, buffer))
  {
    hide Files, OpenHandles, Alpha, Content, DirOk, Entries, Nodes, Handles, Ownership, NoOrphans, Dir,
      WriteOp, WriteCopy, AWrite, Overwrite, NonEmptyNames, CopyTarget, GiveBlock;
    var j := HandleAt(fs, h);
    WriteOutcome(fs, h, buffer);
    var n, i, b := Clipped(fs, h, buffer), fs.files[h].inum, FirstFree(fs.blockTaken);
    AWriteCases(fs.p, Alpha(fs), h, buffer, n);
    ScansFailByCount(fs);
    if n > 0 && b != -1 {
      GiveBlockInvisible(fs, i, b);
      GiveBlockFrame(fs, i, b);
      var g := GiveBlock(fs, i, b);
      CopyKeepsDir(g, h, buffer, n);
      CopyReturns(g, h, buffer, n);
      CopyRefines(g, Dir(fs), h, buffer, n, j, WriteOp(fs, h, buffer).fs);
      GiveBlockContent(fs, i, b, i);
    }
  }

  lemma GiveBlockFrame(fs: Fs, i: nat, b: nat)
    requires i < |fs.inodes| && b < |fs.blockTaken|
    ensures var g := GiveBlock(fs, i, b);
      g.p == fs.p && g.files == fs.files && g.handleTaken == fs.handleTaken && |g.inodes| == |fs.inodes|
      && g.inodes[i].size == fs.inodes[i].size
  {
  }

  lemma WriteRefines(fs: Fs, h: int, buffer: seq<byte>)
    requires Consistent(fs) && |buffer| <= SIZE_MAX - fs.p.blockSize
    ensures Refines(WriteOp(fs, h, buffer), AWrite(fs.p, Alpha(fs), h, buffer))
  {
    hide Files, DirOk, Entries, Nodes, Handles, Ownership, NoOrphans, Dir, NonEmptyNames, Overwrite;
    if fs.IsOpen(h) {
      if fs.inodes[fs.files[h].inum].size > 0 {
        WriteExistingRefines(fs, h, buffer);
      } else {
        WriteEmptyRefines(fs, h, buffer);
      }
    }
  }

  // ---------- Open ----------

  /** A path names a file of the abstract state exactly when the directory has a record for it. */
  lemma PathNames(fs: Fs, path: Option<cstring>)
    requires Sound(fs)
    ensures PathSlot(fs, path) != -1 <==> Names(Alpha(fs), path)
    ensures PathSlot(fs, path) != -1 ==>
      var s := Dir(fs)[PathSlot(fs, path)]; s.Used() && s.Name() == FileName(path) && Live(fs, s.inum)
  {
    if ValidPath(path) {
      FoundIffNamed(Dir(fs), FileName(path));
      FindSlotIsLookup(Dir(fs), FileName(path));
    }
  }

  lemma FileLength(fs: Fs, j: nat)
    requires Sound(fs) && j < |Dir(fs)| && Dir(fs)[j].Used()
    ensures var i := Dir(fs)[j].inum; var name := Dir(fs)[j].Name();
      fs.ValidInum(i) && name in Alpha(fs).files && |Alpha(fs).files[name]| == fs.inodes[i].size
  {
    var i := Dir(fs)[j].inum;
    assert Live(fs, i) && NodeOk(fs, i);
    RecordIsUnique(Dir(fs), j);
    ContentLength(fs, i);
    assert Alpha(fs).files[Dir(fs)[j].Name()] == Content(fs, i);
  }

  lemma OpenExistingRefines(fs: Fs, path: Option<cstring>, mode: Mode)
    requires Consistent(fs) && Names(Alpha(fs), path)
    ensures Refines(OpenOp(fs, path, mode), AOpen(fs.p, Alpha(fs), path, mode))
  {
    hide Files, OpenHandles, Alpha, DirOk, Entries, Nodes, Handles, Ownership, NoOrphans, Dir, OpenOp,
      AddHandle, FindSlot, Truncate, AddToOpenFileTable, PathSlot;
    PathNames(fs, path);
    OpenOutcome(fs, path, mode);
    var j := PathSlot(fs, path);
    var i := Dir(fs)[j].inum;
    TruncateRefines(fs, j);
    TruncateSound(fs, i);
    var cut := if mode.trunc then Truncate(fs, i).fs else fs;
    CutParams(fs, i);
    FileLength(cut, j);
    AddHandleRefines(cut, j, if mode.append then cut.inodes[i].size else 0);
  }

  lemma CutParams(fs: Fs, i: nat)
    requires i < |fs.inodes| && Truncate(fs, i).Done?
    ensures Truncate(fs, i).fs.p == fs.p
  {
  }

  lemma OpenNewRefines(fs: Fs, path: Option<cstring>, mode: Mode)
    requires Consistent(fs) && ValidPath(path) && !Names(Alpha(fs), path) && mode.creat
    ensures Refines(OpenOp(fs, path, mode), AOpen(fs.p, Alpha(fs), path, mode))
  {
    hide Files, OpenHandles, Alpha, DirOk, Entries, Nodes, Handles, Ownership, NoOrphans, Dir, OpenOp,
      OpenNew, AddHandle, FindSlot, AddToOpenFileTable, NonEmptyNames, CreateFile;
    PathNames(fs, path);
    OpenOutcome(fs, path, mode);
    var name := FileName(path);
    OpenNewOutcome(fs, name);
    ScansFailByCount(fs);
    var i, free := FirstFree(fs.inodeTaken), FirstUnused(Dir(fs));
    if i != -1 {
      if |name| >= MAX_FILE_NAME || free == -1 {
        ScrubbedRefines(fs, i);
      } else {
        CreateRefines(fs, name, i, free);
        CreateDir(fs, name, i, free);
        CreateParams(fs, name, i, free);
        AddHandleRefines(CreateFile(fs, name, i, free), free, 0);
      }
    }
  }

  lemma CreateParams(fs: Fs, name: cstring, i: nat, slot: nat)
    requires Sound(fs) && 0 < i < |fs.inodes| && slot < fs.p.DirCapacity()
    ensures CreateFile(fs, name, i, slot).p == fs.p
  {
  }

  /** A creation that fails leaves no trace in the abstract state. */
  lemma ScrubbedRefines(fs: Fs, i: nat)
    requires Sound(fs) && 0 < i < |fs.inodes| && !fs.inodeTaken[i]
    ensures RootOk(Scrubbed(fs, i)) && Alpha(Scrubbed(fs, i)) == Alpha(fs)
  {
    hide Files, OpenHandles, Content, DirNames;
    ScrubbedKeeps(fs, i);
    var d, r := Dir(fs), Scrubbed(fs, i);
    forall n | n in DirNames(d) ensures Content(r, InumOf(d, n)) == Content(fs, InumOf(d, n)) {
      var j := NameHasRecord(d, n);
      ScrubbedContent(fs, i, d[j].inum);
    }
    FilesFrame(d, fs, r);
  }

  lemma ScrubbedContent(fs: Fs, i: nat, k: int)
    requires i < |fs.inodes| && k != i
    ensures Content(Scrubbed(fs, i), k) == Content(fs, k)
  {
  }

  lemma OpenRefines(fs: Fs, path: Option<cstring>, mode: Mode)
    requires Consistent(fs)
    ensures Refines(OpenOp(fs, path, mode), AOpen(fs.p, Alpha(fs), path, mode))
  {
    hide Files, OpenHandles, Alpha, DirOk, Entries, Nodes, Handles, Ownership, NoOrphans, Dir, OpenOp,
      AddHandle, FindSlot;
    if Names(Alpha(fs), path) {
      OpenExistingRefines(fs, path, mode);
    } else if ValidPath(path) && mode.creat {
      OpenNewRefines(fs, path, mode);
    } else {
      PathNames(fs, path);
      OpenOutcome(fs, path, mode);
    }
  }

  // ---------- Unlink ----------

  lemma UnlinkRefines(fs: Fs, path: Option<cstring>)
    requires Consistent(fs) && Disciplined(fs, Unlink(path))
    ensures Refines(UnlinkOp(fs, path), AUnlink(Alpha(fs), path))
  {
    hide Files, OpenHandles, Alpha, DirOk, Entries, Nodes, Handles, Ownership, NoOrphans, Dir, UnlinkOp,
      FindSlot, RemoveFile;
    PathNames(fs, path);
    UnlinkOutcome(fs, path);
    if Names(Alpha(fs), path) {
      RemoveRefines(fs, FileName(path));
    }
  }

  // ---------- The discipline, and the step theorem ----------

  lemma HandleOnPath(fs: Fs, path: Option<cstring>, h: int)
    requires Consistent(fs) && Names(Alpha(fs), path) && fs.IsOpen(h)
    ensures PathSlot(fs, path) != -1 && h in Alpha(fs).handles && Alpha(fs).handles[h].offset == fs.files[h].offset
    ensures Alpha(fs).handles[h].name == FileName(path) <==> fs.files[h].inum == Dir(fs)[PathSlot(fs, path)].inum
  {
    PathNames(fs, path);
    var j := HandleAt(fs, h);
    RecordIsUnique(Dir(fs), j);
    RecordIsUnique(Dir(fs), PathSlot(fs, path));
  }

  /** Whether a call is disciplined can be read off the abstract state. */
  lemma DisciplineIsAbstract(fs: Fs, op: Op)
    requires Consistent(fs)
    ensures Disciplined(fs, op) <==> ADisciplined(Alpha(fs), op)
  {
    hide Files, DirOk, Entries, Nodes, Handles, Ownership, NoOrphans, Dir, FindSlot;
    if op.Open? || op.Unlink? {
      var path := op.path;
      PathNames(fs, path);
      if Names(Alpha(fs), path) {
        forall h | fs.IsOpen(h)
          ensures Alpha(fs).handles[h].offset == fs.files[h].offset
          ensures Alpha(fs).handles[h].name == FileName(path) <==> fs.files[h].inum == Dir(fs)[PathSlot(fs, path)].inum
        {
          HandleOnPath(fs, path, h);
        }
        assert forall h :: h in Alpha(fs).handles <==> fs.IsOpen(h);
      }
    }
  }

  /** The step theorem: consistency is kept, and the abstract machine is followed, by every
      call that is disciplined in the client's own terms. */
  lemma StepRefines(fs: Fs, op: Op)
    requires Consistent(fs) && FitsSizeT(fs.p, op) && ADisciplined(Alpha(fs), op)
    ensures Apply(fs, op).Done? && Consistent(Apply(fs, op).fs)
    ensures Refines(Apply(fs, op), AStep(fs.p, Alpha(fs), op))
  {
    hide Alpha, DirOk, Entries, Nodes, Handles, Ownership, NoOrphans, HandlesLive, Dir, Disciplined,
      ADisciplined, OpenOp, CloseOp, WriteOp, ReadOp, UnlinkOp, AOpen, AClose, AWrite, ARead, AUnlink;
    DisciplineIsAbstract(fs, op);
    ConsistentStep(fs, op);
    match op
    case Open(path, mode) => OpenRefines(fs, path, mode);
    case Close(h) => CloseRefines(fs, h);
    case Write(h, buffer) => WriteRefines(fs, h, buffer);
    case Read(h, len) => ReadRefines(fs, h, len);
    case Unlink(path) => UnlinkRefines(fs, path);
  }

  /** What a consistent state represents is well formed. */
  lemma AlphaWellFormed(fs: Fs)
    requires Consistent(fs)
    ensures WellFormed(fs.p, Alpha(fs))
  {
    hide Files, OpenHandles, DirOk, Entries, Nodes, Handles, Ownership, NoOrphans, Content, Dir,
      NonEmptyNames;
    ScansFailByCount(fs);
    var a := Alpha(fs);
    forall n | n in a.files ensures 1 <= |n| < MAX_FILE_NAME && |a.files[n]| <= fs.p.blockSize {
      NameBounds(fs, n);
    }
    forall h | h in a.handles
      ensures 0 <= h < fs.p.handleCount && a.handles[h].name in a.files
           && a.handles[h].offset <= |a.files[a.handles[h].name]|
    {
      HandleBounds(fs, h);
    }
  }

  lemma HandleBounds(fs: Fs, h: int)
    requires Consistent(fs) && h in Alpha(fs).handles
    ensures var a := Alpha(fs);
      0 <= h < fs.p.handleCount && a.handles[h].name in a.files && a.handles[h].offset <= |a.files[a.handles[h].name]|
  {
    hide DirOk, Entries, Nodes, Handles, Ownership, NoOrphans, Content, Dir, Files;
    var j := HandleAt(fs, h);
  }

  lemma NameBounds(fs: Fs, n: cstring)
    requires Sound(fs) && n in Alpha(fs).files
    ensures 1 <= |n| < MAX_FILE_NAME && |Alpha(fs).files[n]| <= fs.p.blockSize
  {
    var j := NameHasRecord(Dir(fs), n);
    assert GoodName(Dir(fs)[j]);
    RecordNodeOk(fs, j);
    ContentLength(fs, Dir(fs)[j].inum);
  }
}
