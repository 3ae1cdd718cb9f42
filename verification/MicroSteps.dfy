/**
 The bodies of the five operations as micro-steps: between taking and giving back the mutex
 a thread reads and updates the shared tables one primitive or one field at a time.
 */
module MicroSteps {
  import opened CMemory
  import opened TfsState
  import opened TfsOperations
  import opened AbstractFs

  /** Where a thread is inside the body of its operation, and the locals it will use. */
  datatype Local =
    | Start
    | OpenFound(inum: int) | OpenFreed(inum: int) | OpenSized(inum: int) | OpenEntry(inum: int, offset: nat)
    | CreateScan | CreateRecord(inum: int) | CreateLink(inum: int) | CreateUndo(inum: int)
    | CloseTaken
    | WriteAlloc(n: nat) | WriteBind(n: nat, block: nat) | WriteBytes(n: nat) | WriteAdvance(n: nat) | WriteGrow(n: nat)
    | ReadBytes(n: nat) | ReadAdvance(n: nat, out: seq<byte>)
    | UnlinkInode(inum: int) | UnlinkEntry
    | Finished(result: Result)
    | Panicked

  function Fail(fs: Fs): (Local, Fs) {
    (Finished(Result(-1, [])), fs)
  }

  function OpenStep(path: Option<cstring>, mode: Mode, l: Local, fs: Fs): (Local, Fs) {
    match l
    case Start =>
      if !ValidPath(path) then Fail(fs)
      else
        var found := FindInDir(fs, FileName(path));
        if found.Panic? then (Panicked, fs)
        else if found.ret >= 0 then (OpenFound(found.ret), fs)
        else if mode.creat then (CreateScan, fs)
        else Fail(fs)
    case OpenFound(i) =>
      if !fs.ValidInum(i) then (Panicked, fs)
      else if mode.trunc && fs.inodes[i].size > 0 then
        var freed := DataBlockFree(fs, fs.inodes[i].block);
        if freed.Panic? then (Panicked, fs) else (OpenFreed(i), freed.fs)
      else (OpenSized(i), fs)
    case OpenFreed(i) =>
      if !fs.ValidInum(i) then (Panicked, fs)
      else (OpenSized(i), fs.(inodes := fs.inodes[i := fs.inodes[i].(size := 0)]))
    case OpenSized(i) =>
      if !fs.ValidInum(i) then (Panicked, fs) else (OpenEntry(i, if mode.append then fs.inodes[i].size else 0), fs)
    case OpenEntry(i, offset) =>
      var added := AddToOpenFileTable(fs, i, offset);
      if added.Panic? then (Panicked, fs) else (Finished(Result(added.ret, [])), added.fs)
    case CreateScan =>
      var i := FirstFree(fs.inodeTaken);
      if i == -1 then Fail(fs) else (CreateRecord(i), fs.(inodeTaken := fs.inodeTaken[i := true]))
    case CreateRecord(i) =>
      if !fs.ValidInum(i) then (Panicked, fs)
      else (CreateLink(i), fs.(inodes := fs.inodes[i := Inode(File, 0, -1)]))
    case CreateLink(i) =>
      if !fs.ValidInum(i) || !ValidPath(path) then (Panicked, fs)
      else
        var added := AddDirEntry(fs, FileName(path), i);
        if added.Panic? then (Panicked, fs)
        else if added.ret == -1 then (CreateUndo(i), added.fs)
        else (OpenEntry(i, 0), added.fs)
    case CreateUndo(i) =>
      var undone := InodeDelete(fs, i);
      if undone.Panic? then (Panicked, fs) else Fail(undone.fs)
    case _ => (Panicked, fs)
  }

  function CloseStep(h: int, l: Local, fs: Fs): (Local, Fs) {
    match l
    case Start => if !fs.IsOpen(h) then Fail(fs) else (CloseTaken, fs)
    case CloseTaken =>
      if !fs.IsOpen(h) then (Panicked, fs)
      else (Finished(Result(0, [])), fs.(handleTaken := fs.handleTaken[h := false]))
    case _ => (Panicked, fs)
  }

  function WriteStep(h: int, buffer: seq<byte>, l: Local, fs: Fs): (Local, Fs) {
    if l.Start? && !fs.IsOpen(h) then Fail(fs)
    else if !(0 <= h < |fs.files|) || !fs.ValidInum(fs.files[h].inum) then (Panicked, fs)
    else
      var f := fs.files[h]; var node := fs.inodes[f.inum];
      match l
      case Start =>
        var n := WriteClip(|buffer|, f.offset, fs.p.blockSize);
        if n == 0 then (Finished(Result(0, [])), fs)
        else if node.size == 0 then (WriteAlloc(n), fs)
        else (WriteBytes(n), fs)
      case WriteAlloc(n) =>
        var b := FirstFree(fs.blockTaken);
        if b == -1 then Fail(fs) else (WriteBind(n, b), fs.(blockTaken := fs.blockTaken[b := true]))
      case WriteBind(n, b) =>
        (WriteBytes(n), fs.(inodes := fs.inodes[f.inum := node.(block := b)]))
      case WriteBytes(n) =>
        if !fs.ValidBlock(node.block) then (Panicked, fs)
        else
          var p := BlockStart(fs, node.block) + f.offset;
          if n > |buffer| || p + n > |fs.data| then (Panicked, fs)
          else (WriteAdvance(n), fs.(data := Splice(fs.data, p, buffer[..n])))
      case WriteAdvance(n) =>
        (WriteGrow(n), fs.(files := fs.files[h := f.(offset := f.offset + n)]))
      case WriteGrow(n) =>
        (Finished(Result(n, [])),
         if f.offset > node.size then fs.(inodes := fs.inodes[f.inum := node.(size := f.offset)]) else fs)
      case _ => (Panicked, fs)
  }

  function ReadStep(h: int, len: nat, l: Local, fs: Fs): (Local, Fs) {
    if l.Start? && !fs.IsOpen(h) then Fail(fs)
    else if !(0 <= h < |fs.files|) || !fs.ValidInum(fs.files[h].inum) then (Panicked, fs)
    else
      var f := fs.files[h]; var node := fs.inodes[f.inum];
      match l
      case Start =>
        var n := ReadClip(node.size, f.offset, len);
        if n == 0 then (Finished(Result(0, [])), fs) else (ReadBytes(n), fs)
      case ReadBytes(n) =>
        if !fs.ValidBlock(node.block) then (Panicked, fs)
        else
          var p := BlockStart(fs, node.block) + f.offset;
          if p + n > |fs.data| then (Panicked, fs) else (ReadAdvance(n, fs.data[p..p + n]), fs)
      case ReadAdvance(n, out) =>
        (Finished(Result(n, out)), fs.(files := fs.files[h := f.(offset := f.offset + n)]))
      case _ => (Panicked, fs)
  }

  function UnlinkStep(path: Option<cstring>, l: Local, fs: Fs): (Local, Fs) {
    if !ValidPath(path) then (if l.Start? then Fail(fs) else (Panicked, fs))
    else
      match l
      case Start =>
        var found := FindInDir(fs, FileName(path));
        if found.Panic? then (Panicked, fs)
        else if found.ret == -1 then Fail(fs)
        else (UnlinkInode(found.ret), fs)
      case UnlinkInode(i) =>
        var deleted := InodeDelete(fs, i);
        if deleted.Panic? then (Panicked, fs) else (UnlinkEntry, deleted.fs)
      case UnlinkEntry =>
        var cleared := ClearDirEntry(fs, FileName(path));
        if cleared.Panic? then (Panicked, fs) else (Finished(Result(cleared.ret, [])), cleared.fs)
      case _ => (Panicked, fs)
  }

  /** One micro-step of the body of an operation. */
  function MicroStep(op: Op, l: Local, fs: Fs): (Local, Fs) {
    match op
    case Open(path, mode) => OpenStep(path, mode, l, fs)
    case Close(h) => CloseStep(h, l, fs)
    case Write(h, buffer) => WriteStep(h, buffer, l, fs)
    case Read(h, len) => ReadStep(h, len, l, fs)
    case Unlink(path) => UnlinkStep(path, l, fs)
  }

  predicate Ended(l: Local) {
    l.Finished? || l.Panicked?
  }

  /** How far a body still has to go, at most. */
  function Rank(l: Local): nat {
    match l
    case Start => 6
    case OpenFound(_) => 5 case OpenFreed(_) => 4 case OpenSized(_) => 2 case OpenEntry(_, _) => 1
    case CreateScan => 5 case CreateRecord(_) => 4 case CreateLink(_) => 3 case CreateUndo(_) => 1
    case CloseTaken => 1
    case WriteAlloc(_) => 5 case WriteBind(_, _) => 4 case WriteBytes(_) => 3 case WriteAdvance(_) => 2 case WriteGrow(_) => 1
    case ReadBytes(_) => 2 case ReadAdvance(_, _) => 1
    case UnlinkInode(_) => 2 case UnlinkEntry => 1
    case Finished(_) => 0 case Panicked => 0
  }

  lemma OpenStepsEnd(path: Option<cstring>, mode: Mode, l: Local, fs: Fs)
    requires !Ended(l)
    ensures Rank(OpenStep(path, mode, l, fs).0) < Rank(l)
  {
    hide FindInDir, InodeDelete, AddDirEntry, AddToOpenFileTable, DataBlockFree, FileName;
  }

  /** Every micro-step makes progress, so a body that runs alone ends. */
  lemma StepsEnd(op: Op, l: Local, fs: Fs)
    requires !Ended(l)
    ensures Rank(MicroStep(op, l, fs).0) < Rank(l)
  {
    hide OpenStep, FindInDir, InodeDelete, ClearDirEntry, WriteClip, ReadClip, Splice, FileName;
    if op.Open? {
      OpenStepsEnd(op.path, op.mode, l, fs);
    }
  }

  datatype Ending = Ending(fs: Fs, result: Result) | Failed

  /** What a body ends with when the rest of it runs without interruption. */
  function Finish(op: Op, l: Local, fs: Fs): Ending
    decreases Rank(l)
  {
    if l.Finished? then Ending(fs, l.result)
    else if l.Panicked? then Failed
    else
      StepsEnd(op, l, fs);
      var (next, after) := MicroStep(op, l, fs);
      Finish(op, next, after)
  }

  function AsEnding(r: Outcome): Ending {
    match r
    case Done(fs, ret, out) => Ending(fs, Result(ret, out))
    case Panic => Failed
  }

  lemma FinishStep(op: Op, l: Local, fs: Fs)
    requires !Ended(l)
    ensures Finish(op, l, fs) == Finish(op, MicroStep(op, l, fs).0, MicroStep(op, l, fs).1)
  {
  }

  // ---------- Each body, run alone, is its operation ----------

  lemma FinishEntry(path: Option<cstring>, mode: Mode, fs: Fs, i: int, offset: nat)
    ensures Finish(Open(path, mode), OpenEntry(i, offset), fs) == AsEnding(AddToOpenFileTable(fs, i, offset))
  {
  }

  lemma FinishExisting(path: Option<cstring>, mode: Mode, fs: Fs, i: int)
    ensures Finish(Open(path, mode), OpenFound(i), fs) == AsEnding(OpenExisting(fs, i, mode))
  {
    hide Finish, AddToOpenFileTable;
    var op := Open(path, mode);
    FinishStep(op, OpenFound(i), fs);
    EndedFinish(op, Panicked, fs);
    if fs.ValidInum(i) {
      var cut := if mode.trunc then Truncate(fs, i) else Done(fs, 0, []);
      if cut.Done? {
        if mode.trunc && fs.inodes[i].size > 0 {
          FinishStep(op, OpenFreed(i), DataBlockFree(fs, fs.inodes[i].block).fs);
        }
        FinishStep(op, OpenSized(i), cut.fs);
        FinishEntry(path, mode, cut.fs, i, if mode.append then cut.fs.inodes[i].size else 0);
      }
    }
  }

  lemma EndedFinish(op: Op, l: Local, fs: Fs)
    requires Ended(l)
    ensures Finish(op, l, fs) == if l.Panicked? then Failed else Ending(fs, l.result)
  {
  }

  lemma FinishUndo(path: Option<cstring>, mode: Mode, fs: Fs, i: nat)
    ensures var undone := InodeDelete(fs, i);
      Finish(Open(path, mode), CreateUndo(i), fs)
      == AsEnding(if undone.Panic? then Panic else Done(undone.fs, -1, []))
  {
  }

  lemma FinishNew(path: Option<cstring>, mode: Mode, fs: Fs)
    requires ValidPath(path)
    ensures Finish(Open(path, mode), CreateScan, fs) == AsEnding(OpenNew(fs, FileName(path)))
  {
    hide Finish, AddToOpenFileTable, AddDirEntry, InodeDelete, FileName, CloseStep, WriteStep, ReadStep,
      UnlinkStep;
    var op := Open(path, mode);
    FinishStep(op, CreateScan, fs);
    EndedFinish(op, Finished(Result(-1, [])), fs);
    var i := FirstFree(fs.inodeTaken);
    if i != -1 {
      var taken: Fs := fs.(inodeTaken := fs.inodeTaken[i := true]);
      var created := TakeInode(fs, i);
      FinishStep(op, CreateRecord(i), taken);
      FinishStep(op, CreateLink(i), created);
      EndedFinish(op, Panicked, created);
      var added := AddDirEntry(created, FileName(path), i);
      if added.Done? {
        FinishUndo(path, mode, added.fs, i);
        FinishEntry(path, mode, added.fs, i, 0);
      }
    }
  }

  lemma OpenBody(path: Option<cstring>, mode: Mode, fs: Fs)
    ensures Finish(Open(path, mode), Start, fs) == AsEnding(OpenOp(fs, path, mode))
  {
    hide Finish, OpenExisting, OpenNew, FindInDir;
    var op := Open(path, mode);
    FinishStep(op, Start, fs);
    EndedFinish(op, Panicked, fs);
    EndedFinish(op, Finished(Result(-1, [])), fs);
    if ValidPath(path) {
      var found := FindInDir(fs, FileName(path));
      if found.Done? {
        FoundSame(fs, FileName(path));
        FinishExisting(path, mode, fs, found.ret);
        FinishNew(path, mode, fs);
      }
    }
  }

  lemma FoundSame(fs: Fs, name: cstring)
    ensures FindInDir(fs, name).Done? ==> FindInDir(fs, name).fs == fs
  {
  }

  lemma CloseBody(h: int, fs: Fs)
    ensures Finish(Close(h), Start, fs) == AsEnding(CloseOp(fs, h))
  {
    FinishStep(Close(h), Start, fs);
    if fs.IsOpen(h) {
      FinishStep(Close(h), CloseTaken, fs);
    }
  }

  function Grown(fs: Fs, i: nat, offset: nat): Fs
    requires i < |fs.inodes|
  {
    fs.(inodes := fs.inodes[i := fs.inodes[i].(size := if offset > fs.inodes[i].size then offset else fs.inodes[i].size)])
  }

  /** The last micro-step of a write: the size grows if the offset has passed it. */
  lemma FinishWriteGrow(h: int, buffer: seq<byte>, fs: Fs, n: nat)
    requires 0 <= h < |fs.files| && fs.ValidInum(fs.files[h].inum)
    ensures var f := fs.files[h];
      Finish(Write(h, buffer), WriteGrow(n), fs) == Ending(Grown(fs, f.inum, f.offset), Result(n, []))
  {
    hide Finish, WriteClip, Splice, OpenStep, CloseStep, ReadStep, UnlinkStep;
    var op, f := Write(h, buffer), fs.files[h];
    FinishStep(op, WriteGrow(n), fs);
    assert fs.inodes[f.inum := fs.inodes[f.inum]] == fs.inodes;
    EndedFinish(op, Finished(Result(n, [])), Grown(fs, f.inum, f.offset));
  }

  function Advanced(fs: Fs, h: nat, n: nat): Fs
    requires h < |fs.files|
  {
    fs.(files := fs.files[h := fs.files[h].(offset := fs.files[h].offset + n)])
  }

  lemma WriteAdvanceStep(h: int, buffer: seq<byte>, fs: Fs, n: nat)
    requires 0 <= h < |fs.files| && fs.ValidInum(fs.files[h].inum)
    ensures MicroStep(Write(h, buffer), WriteAdvance(n), fs) == (WriteGrow(n), Advanced(fs, h, n))
    ensures var r := Advanced(fs, h, n); var f := fs.files[h];
      r.inodes == fs.inodes && |r.files| == |fs.files| && r.files[h] == OpenFile(f.inum, f.offset + n)
  {
  }

  lemma FinishWriteAdvance(h: int, buffer: seq<byte>, fs: Fs, n: nat)
    requires 0 <= h < |fs.files| && fs.ValidInum(fs.files[h].inum)
    ensures var f := fs.files[h];
      Finish(Write(h, buffer), WriteAdvance(n), fs)
      == Ending(Grown(Advanced(fs, h, n), f.inum, f.offset + n), Result(n, []))
  {
    hide Finish, Grown, Advanced, MicroStep;
    WriteAdvanceStep(h, buffer, fs, n);
    FinishStep(Write(h, buffer), WriteAdvance(n), fs);
    FinishWriteGrow(h, buffer, Advanced(fs, h, n), n);
  }

  lemma FinishWriteBytes(h: int, buffer: seq<byte>, fs: Fs, n: nat)
    requires fs.IsOpen(h) && fs.ValidInum(fs.files[h].inum)
    ensures Finish(Write(h, buffer), WriteBytes(n), fs) == AsEnding(WriteCopy(fs, h, buffer, n))
  {
    hide Finish, Splice, WriteClip, OpenStep, CloseStep, ReadStep, UnlinkStep;
    var op := Write(h, buffer);
    FinishStep(op, WriteBytes(n), fs);
    EndedFinish(op, Panicked, fs);
    if WriteCopy(fs, h, buffer, n).Done? {
      FinishWriteAdvance(h, buffer, MicroStep(op, WriteBytes(n), fs).1, n);
    }
  }

  lemma WriteBody(h: int, buffer: seq<byte>, fs: Fs)
    ensures Finish(Write(h, buffer), Start, fs) == AsEnding(WriteOp(fs, h, buffer))
  {
    hide Finish, WriteCopy, WriteClip, OpenStep, CloseStep, ReadStep, UnlinkStep;
    var op := Write(h, buffer);
    FinishStep(op, Start, fs);
    EndedFinish(op, Panicked, fs);
    EndedFinish(op, Finished(Result(-1, [])), fs);
    EndedFinish(op, Finished(Result(0, [])), fs);
    if fs.IsOpen(h) && fs.ValidInum(fs.files[h].inum) {
      var f := fs.files[h];
      var n := WriteClip(|buffer|, f.offset, fs.p.blockSize);
      if n > 0 && fs.inodes[f.inum].size > 0 {
        FinishWriteBytes(h, buffer, fs, n);
      } else if n > 0 {
        FinishStep(op, WriteAlloc(n), fs);
        var b := FirstFree(fs.blockTaken);
        if b != -1 {
          FinishStep(op, WriteBind(n, b), fs.(blockTaken := fs.blockTaken[b := true]));
          FinishWriteBytes(h, buffer, GiveBlock(fs, f.inum, b), n);
        }
      }
    }
  }

  lemma FinishReadBytes(h: int, len: nat, fs: Fs)
    requires fs.IsOpen(h) && fs.ValidInum(fs.files[h].inum)
    requires ReadClip(fs.inodes[fs.files[h].inum].size, fs.files[h].offset, len) > 0
    ensures var n := ReadClip(fs.inodes[fs.files[h].inum].size, fs.files[h].offset, len);
      Finish(Read(h, len), ReadBytes(n), fs) == AsEnding(ReadOp(fs, h, len))
  {
    hide Finish, ReadClip, OpenStep, CloseStep, WriteStep, UnlinkStep;
    var op := Read(h, len);
    var f := fs.files[h];
    var n := ReadClip(fs.inodes[f.inum].size, f.offset, len);
    FinishStep(op, ReadBytes(n), fs);
    EndedFinish(op, Panicked, fs);
    var r := ReadOp(fs, h, len);
    if r.Done? {
      FinishStep(op, ReadAdvance(n, r.out), fs);
      EndedFinish(op, Finished(Result(n, r.out)), r.fs);
    }
  }

  lemma ReadBody(h: int, len: nat, fs: Fs)
    ensures Finish(Read(h, len), Start, fs) == AsEnding(ReadOp(fs, h, len))
  {
    hide Finish, ReadClip, OpenStep, CloseStep, WriteStep, UnlinkStep;
    var op := Read(h, len);
    FinishStep(op, Start, fs);
    EndedFinish(op, Panicked, fs);
    EndedFinish(op, Finished(Result(-1, [])), fs);
    EndedFinish(op, Finished(Result(0, [])), fs);
    if fs.IsOpen(h) && fs.ValidInum(fs.files[h].inum)
      && ReadClip(fs.inodes[fs.files[h].inum].size, fs.files[h].offset, len) > 0 {
      FinishReadBytes(h, len, fs);
    }
  }

  lemma FinishUnlinkEntry(path: Option<cstring>, fs: Fs)
    requires ValidPath(path)
    ensures Finish(Unlink(path), UnlinkEntry, fs) == AsEnding(ClearDirEntry(fs, FileName(path)))
  {
  }

  lemma UnlinkBody(path: Option<cstring>, fs: Fs)
    ensures Finish(Unlink(path), Start, fs) == AsEnding(UnlinkOp(fs, path))
  {
    hide Finish, FindInDir, InodeDelete, ClearDirEntry, FileName, OpenStep, CloseStep, WriteStep, ReadStep;
    var op := Unlink(path);
    FinishStep(op, Start, fs);
    EndedFinish(op, Panicked, fs);
    EndedFinish(op, Finished(Result(-1, [])), fs);
    if ValidPath(path) && FindInDir(fs, FileName(path)).Done? {
      var i := FindInDir(fs, FileName(path)).ret;
      FinishStep(op, UnlinkInode(i), fs);
      if InodeDelete(fs, i).Done? {
        FinishUnlinkEntry(path, InodeDelete(fs, i).fs);
      }
    }
  }

  /** Run without interruption, the micro-steps of every operation are that operation. */
  lemma BodyIsOperation(op: Op, fs: Fs)
    ensures Finish(op, Start, fs) == AsEnding(Apply(fs, op))
  {
    hide Finish;
    match op
    case Open(path, mode) => OpenBody(path, mode, fs);
    case Close(h) => CloseBody(h, fs);
    case Write(h, buffer) => WriteBody(h, buffer, fs);
    case Read(h, len) => ReadBody(h, len, fs);
    case Unlink(path) => UnlinkBody(path, fs);
  }
}
