/**
 Theorems over whole runs from tfs_init: refinement and consistency for disciplined runs,
 what survives in every run, and that nothing leaks.
 */
module Runs {
  import opened CMemory
  import opened TfsState
  import opened TfsOperations
  import opened Invariants
  import opened Preservation
  import opened Steps
  import opened AbstractFs
  import opened Refinement
  import opened Counting
  import opened Simulation

  datatype Run = Running(fs: Fs, results: seq<Result>) | Crashed

  /** The calls in turn; a failed assertion ends the process. */
  function RunOps(fs: Fs, ops: seq<Op>): Run
    decreases ops
  {
    if ops == [] then Running(fs, [])
    else
      match Apply(fs, ops[0])
      case Panic => Crashed
      case Done(next, ret, out) =>
        match RunOps(next, ops[1..])
        case Crashed => Crashed
        case Running(last, results) => Running(last, [Result(ret, out)] + results)
  }

  function ARun(p: Params, a: Abs, ops: seq<Op>): (Abs, seq<Result>)
    decreases ops
  {
    if ops == [] then (a, [])
    else
      var (next, result) := AStep(p, a, ops[0]);
      var (last, results) := ARun(p, next, ops[1..]);
      (last, [result] + results)
  }

  /** Every call of the run is disciplined in the abstract state in which it is made. */
  ghost predicate DisciplinedRun(p: Params, a: Abs, ops: seq<Op>)
    decreases ops
  {
    ops != [] ==>
      FitsSizeT(p, ops[0]) && ADisciplined(a, ops[0]) && DisciplinedRun(p, AStep(p, a, ops[0]).0, ops[1..])
  }

  /** Refinement over runs: a disciplined run crashes nowhere, stays consistent, and shows its
      client the results and the final state of the abstract machine. */
  lemma {:induction false} RunRefines(fs: Fs, ops: seq<Op>)
    requires Consistent(fs) && DisciplinedRun(fs.p, Alpha(fs), ops)
    ensures var run := RunOps(fs, ops);
      run.Running? && Consistent(run.fs) && run.fs.inodes[ROOT] == fs.inodes[ROOT] && run.fs.p == fs.p
      && (Alpha(run.fs), run.results) == ARun(fs.p, Alpha(fs), ops)
    decreases ops
  {
    hide Alpha, Sound, HandlesLive, NoOrphans, ADisciplined, FitsSizeT, Apply, AStep;
    if ops != [] {
      StepRefines(fs, ops[0]);
      RootFixed(fs, ops[0]);
      RunRefines(Apply(fs, ops[0]).fs, ops[1..]);
    }
  }

  lemma RootFixed(fs: Fs, op: Op)
    requires Consistent(fs) && FitsSizeT(fs.p, op)
    ensures Apply(fs, op).Done? ==> Apply(fs, op).fs.inodes[ROOT] == fs.inodes[ROOT] && Apply(fs, op).fs.p == fs.p
  {
    ConsistentReadsWithin(fs, op);
    SoundStep(fs, op);
  }

  /** A file system just initialized, on any memory that malloc may return. */
  ghost predicate Initial(s: Fs) {
    exists inodes, data, files ::
      && |inodes| == s.p.inodeCount && |data| == Times(s.p.blockCount, s.p.blockSize) && |files| == s.p.handleCount
      && Init(s.p, inodes, data, files).0 == s && Init(s.p, inodes, data, files).1 == 0
  }

  lemma InitialIsEmpty(s: Fs)
    requires Initial(s)
    ensures Consistent(s) && Alpha(s) == EMPTY && s.inodes[ROOT].block == 0
  {
    var inodes, data, files :|
      && |inodes| == s.p.inodeCount && |data| == Times(s.p.blockCount, s.p.blockSize) && |files| == s.p.handleCount
      && Init(s.p, inodes, data, files).0 == s && Init(s.p, inodes, data, files).1 == 0;
    hide Init, Consistent, Dir;
    InitConsistent(s.p, inodes, data, files);
    assert DirNames(Dir(s)) == {};
  }

  /** The main theorem, from tfs_init on. */
  lemma InitialRunRefines(s: Fs, ops: seq<Op>)
    requires Initial(s) && DisciplinedRun(s.p, EMPTY, ops)
    ensures var run := RunOps(s, ops);
      run.Running? && Consistent(run.fs) && (Alpha(run.fs), run.results) == ARun(s.p, EMPTY, ops)
      && WellFormed(s.p, Alpha(run.fs))
  {
    hide Alpha, Consistent, WellFormed;
    InitialIsEmpty(s);
    RunRefines(s, ops);
    AlphaWellFormed(RunOps(s, ops).fs);
  }

  // ---------- What survives without discipline ----------

  /** Lengths fit size_t and no read is out of bounds: all that is asked. */
  ghost predicate TameRun(fs: Fs, ops: seq<Op>)
    decreases ops
  {
    ops != [] ==>
      && InBounds(fs, ops[0])
      && (Apply(fs, ops[0]).Done? ==> TameRun(Apply(fs, ops[0]).fs, ops[1..]))
  }

  /** The run crashes nowhere, and every state on the way is sound. */
  ghost predicate SoundAllAlong(fs: Fs, ops: seq<Op>)
    decreases ops
  {
    Sound(fs) &&
    (ops != [] ==> Apply(fs, ops[0]).Done? && SoundAllAlong(Apply(fs, ops[0]).fs, ops[1..]))
  }

  ghost predicate AllFitSizeT(p: Params, ops: seq<Op>) {
    forall i :: 0 <= i < |ops| ==> FitsSizeT(p, ops[i])
  }

  /** Exactly which runs stay sound without any discipline: those with no read out of bounds. */
  lemma {:induction false} SoundAllAlongIff(fs: Fs, ops: seq<Op>)
    requires Sound(fs) && AllFitSizeT(fs.p, ops)
    ensures SoundAllAlong(fs, ops) <==> TameRun(fs, ops)
    decreases ops
  {
    hide Sound, FitsSizeT, InBounds, Apply;
    if ops != [] {
      SoundStepIff(fs, ops[0]);
      if InBounds(fs, ops[0]) {
        SoundStep(fs, ops[0]);
        SoundAllAlongIff(Apply(fs, ops[0]).fs, ops[1..]);
      }
    }
  }

  /** The run crashes nowhere, and every state on the way is consistent. */
  ghost predicate ConsistentAllAlong(fs: Fs, ops: seq<Op>)
    decreases ops
  {
    Consistent(fs) &&
    (ops != [] ==> Apply(fs, ops[0]).Done? && ConsistentAllAlong(Apply(fs, ops[0]).fs, ops[1..]))
  }

  /** Exactly which runs stay consistent: the disciplined ones. */
  lemma {:induction false} ConsistentAllAlongIff(fs: Fs, ops: seq<Op>)
    requires Consistent(fs) && AllFitSizeT(fs.p, ops)
    ensures RootOk(fs) && (ConsistentAllAlong(fs, ops) <==> DisciplinedRun(fs.p, Alpha(fs), ops))
    decreases ops
  {
    hide Consistent, Alpha, ADisciplined, Disciplined, FitsSizeT, Apply, AStep;
    ConsistentRoot(fs);
    if ops != [] {
      ConsistentStep(fs, ops[0]);
      DisciplineIsAbstract(fs, ops[0]);
      if ADisciplined(Alpha(fs), ops[0]) {
        StepRefines(fs, ops[0]);
        assert Apply(fs, ops[0]).fs.p == fs.p;
        ConsistentAllAlongIff(Apply(fs, ops[0]).fs, ops[1..]);
      } else {
        NotConsistentNext(fs, ops);
      }
    }
  }

  lemma NotConsistentNext(fs: Fs, ops: seq<Op>)
    requires ops != [] && (Apply(fs, ops[0]).Done? ==> !Consistent(Apply(fs, ops[0]).fs))
    ensures !ConsistentAllAlong(fs, ops)
  {
    hide Consistent, Apply;
  }

  /** Even when files are unlinked or truncated under open handles: no assertion fails, live
      files own distinct TAKEN blocks, offsets stay within a block, and the root keeps its own. */
  lemma {:induction false} TameRunIsSound(fs: Fs, ops: seq<Op>)
    requires Sound(fs) && AllFitSizeT(fs.p, ops) && TameRun(fs, ops)
    ensures var run := RunOps(fs, ops);
      run.Running? && Sound(run.fs) && run.fs.inodes[ROOT] == fs.inodes[ROOT] && run.fs.p == fs.p
    decreases ops
  {
    hide Sound, FitsSizeT, InBounds, Apply;
    if ops != [] {
      SoundStep(fs, ops[0]);
      TameRunIsSound(Apply(fs, ops[0]).fs, ops[1..]);
    }
  }

  /** Truncating a file leaves a handle past offset 0 past its end, and one that has written a
      whole block out of bounds for any read. */
  lemma TruncationStrands(fs: Fs, path: Option<cstring>, h: int)
    requires Consistent(fs) && PathSlot(fs, path) != -1
    requires fs.IsOpen(h) && fs.files[h].inum == Dir(fs)[PathSlot(fs, path)].inum && fs.files[h].offset > 0
    ensures var r := Apply(fs, Open(path, Mode(false, true, false)));
      && r.Done? && Sound(r.fs) && r.fs.IsOpen(h) && !NotPastEnd(r.fs, Read(h, 1))
      && (fs.files[h].offset == fs.p.blockSize ==> !InBounds(r.fs, Read(h, 1)))
  {
    hide DirOk, Entries, Nodes, Handles, Ownership, NoOrphans, Dir;
    var mode := Mode(false, true, false);
    OpenOutcome(fs, path, mode);
    OpenSound(fs, path, mode);
    var i := Dir(fs)[PathSlot(fs, path)].inum;
    TruncateSound(fs, i);
  }

  // ---------- Handles ----------

  /** The handle that the open-file table scan picks was not open, and is the only one to open. */
  lemma PickedHandleIsFresh(fs: Fs, before: Fs, inum: int, offset: nat)
    requires fs.handleTaken == before.handleTaken
    ensures var r := AddToOpenFileTable(fs, inum, offset);
      && r.Done? && (r.ret >= 0 ==> !before.IsOpen(r.ret) && r.fs.IsOpen(r.ret))
      && forall h :: h != r.ret ==> r.fs.IsOpen(h) == before.IsOpen(h)
  {
  }

  /** A handle that tfs_open returns was not open: it is distinct from all handles open then. */
  lemma OpenedHandleIsFresh(fs: Fs, path: Option<cstring>, mode: Mode)
    requires Sound(fs)
    ensures var r := OpenOp(fs, path, mode);
      && r.Done? && (r.ret >= 0 ==> !fs.IsOpen(r.ret) && r.fs.IsOpen(r.ret))
      && forall h :: h != r.ret ==> r.fs.IsOpen(h) == fs.IsOpen(h)
  {
    hide DirOk, Entries, Nodes, Handles, Ownership, Dir, AddToOpenFileTable, OpenOp, OpenNew;
    OpenSound(fs, path, mode);
    OpenOutcome(fs, path, mode);
    if PathSlot(fs, path) != -1 {
      var i := Dir(fs)[PathSlot(fs, path)].inum;
      TruncateSound(fs, i);
      var cut := if mode.trunc then Truncate(fs, i).fs else fs;
      PickedHandleIsFresh(cut, fs, i, if mode.append then cut.inodes[i].size else 0);
    } else if ValidPath(path) && mode.creat {
      var name := FileName(path);
      OpenNewOutcome(fs, name);
      var i, slot := FirstFree(fs.inodeTaken), FirstUnused(Dir(fs));
      if i != -1 && |name| < MAX_FILE_NAME && slot != -1 {
        PickedHandleIsFresh(CreateFile(fs, name, i, slot), fs, i, 0);
      }
    }
  }

  // ---------- Failure leaves no trace ----------

  /** Nothing has changed but, at most, records of inodes that are still FREE. */
  ghost predicate NoTrace(fs: Fs, r: Fs) {
    r == fs.(inodes := r.inodes) && forall k :: 0 <= k < |fs.inodes| && fs.inodeTaken[k] ==> r.inodes[k] == fs.inodes[k]
  }

  /** There is room for a new file of this name: counted in files alone. */
  predicate CanCreate(p: Params, a: Abs, path: Option<cstring>) {
    ValidPath(path) && !Names(a, path) && |FileName(path)| < MAX_FILE_NAME
    && |a.files| + 1 < p.inodeCount && ENTRY_SIZE * (|a.files| + 1) <= p.blockSize
  }

  /** As many handles are open as the open-file table has entries. */
  predicate HandlesFull(p: Params, a: Abs) {
    |a.handles| == p.handleCount
  }

  /** The open has bytes to truncate, or a file to create. */
  predicate OpenChangesFiles(p: Params, a: Abs, path: Option<cstring>, mode: Mode) {
    || (Names(a, path) && mode.trunc && a.files[FileName(path)] != [])
    || (mode.creat && CanCreate(p, a, path))
  }

  lemma HandleOutcome(fs: Fs, before: Fs, inum: int, offset: nat)
    requires fs.handleTaken == before.handleTaken
    ensures var r := AddToOpenFileTable(fs, inum, offset);
      r.Done? && (r.ret == -1 <==> FirstFree(before.handleTaken) == -1) && (r.ret == -1 ==> r.fs == fs)
  {
  }

  /** The counts that decide creation, on states that need not be consistent. */
  lemma CreationByCount(fs: Fs)
    requires Sound(fs)
    ensures FirstFree(fs.inodeTaken) == -1 <==> |Alpha(fs).files| + 1 >= fs.p.inodeCount
    ensures FirstUnused(Dir(fs)) == -1 <==> ENTRY_SIZE * (|Alpha(fs).files| + 1) > fs.p.blockSize
  {
    hide DirOk, Entries, Nodes, Handles, Ownership, Dir, DirNames, Content;
    InodesCount(Dir(fs), fs);
    SlotsCount(Dir(fs));
    FullIffCount(fs.inodeTaken);
    DirFullIffCount(Dir(fs));
    assert Alpha(fs).files.Keys == DirNames(Dir(fs));
  }

  lemma TruncateTrace(fs: Fs, i: nat)
    requires Sound(fs) && Live(fs, i) && Truncate(fs, i).Done?
    ensures Truncate(fs, i).fs.handleTaken == fs.handleTaken && |Truncate(fs, i).fs.inodes| == |fs.inodes|
    ensures NoTrace(fs, Truncate(fs, i).fs) <==> fs.inodes[i].size == 0
  {
    hide DirOk, Entries, Nodes, Handles, Ownership, Dir;
    if fs.inodes[i].size > 0 {
      assert Truncate(fs, i).fs.inodes[i].size == 0;
    }
  }

  lemma CreateTrace(fs: Fs, name: cstring, i: nat, slot: nat)
    requires RootOk(fs) && 0 < i < |fs.inodes| && !fs.inodeTaken[i] && slot < fs.p.DirCapacity()
    ensures CreateFile(fs, name, i, slot).handleTaken == fs.handleTaken && !NoTrace(fs, CreateFile(fs, name, i, slot))
  {
    assert CreateFile(fs, name, i, slot).inodeTaken[i];
  }

  lemma ScrubbedTrace(fs: Fs, i: nat)
    requires i < |fs.inodes| && !fs.inodeTaken[i]
    ensures NoTrace(fs, Scrubbed(fs, i))
  {
  }

  lemma FailedOpenExisting(fs: Fs, path: Option<cstring>, mode: Mode)
    requires Sound(fs) && PathSlot(fs, path) != -1
    ensures OpenOp(fs, path, mode).Done?
    ensures OpenOp(fs, path, mode).ret == -1 ==>
      FirstFree(fs.handleTaken) == -1
      && (NoTrace(fs, OpenOp(fs, path, mode).fs) <==> !OpenChangesFiles(fs.p, Alpha(fs), path, mode))
  {
    hide DirOk, Entries, Nodes, Handles, Ownership, Dir, OpenOp, AddToOpenFileTable, Truncate, NoTrace, Files,
      OpenHandles, FindSlot;
    OpenOutcome(fs, path, mode);
    PathNames(fs, path);
    var j := PathSlot(fs, path);
    var i := Dir(fs)[j].inum;
    FileLength(fs, j);
    TruncateSound(fs, i);
    TruncateTrace(fs, i);
    SameTrace(fs);
    var cut := if mode.trunc then Truncate(fs, i).fs else fs;
    HandleOutcome(cut, fs, i, if mode.append then cut.inodes[i].size else 0);
  }

  lemma SameTrace(fs: Fs)
    ensures NoTrace(fs, fs)
  {
  }

  lemma FailedOpenNew(fs: Fs, path: Option<cstring>, mode: Mode)
    requires Sound(fs) && ValidPath(path) && PathSlot(fs, path) == -1 && mode.creat
    ensures OpenOp(fs, path, mode).Done?
    ensures OpenOp(fs, path, mode).ret == -1 ==>
      (NoTrace(fs, OpenOp(fs, path, mode).fs) <==>
        !(FirstFree(fs.handleTaken) == -1 && OpenChangesFiles(fs.p, Alpha(fs), path, mode)))
  {
    hide DirOk, Entries, Nodes, Handles, Ownership, Dir, OpenOp, OpenNew, CreateFile, AddToOpenFileTable, NoTrace,
      Alpha, FindSlot, PathSlot;
    OpenOutcome(fs, path, mode);
    PathNames(fs, path);
    CreationByCount(fs);
    SameTrace(fs);
    var name := FileName(path);
    OpenNewOutcome(fs, name);
    var i, slot := FirstFree(fs.inodeTaken), FirstUnused(Dir(fs));
    if i != -1 {
      ScrubbedTrace(fs, i);
      if |name| < MAX_FILE_NAME && slot != -1 {
        CreateTrace(fs, name, i, slot);
        HandleOutcome(CreateFile(fs, name, i, slot), fs, i, 0);
      }
    }
  }

  /** A failed open leaves a trace if and only if the open-file table is full and there were
      bytes to truncate or a file to create: then they are truncated, or it is created. */
  lemma FailedOpenTraceIff(fs: Fs, path: Option<cstring>, mode: Mode)
    requires Sound(fs)
    requires OpenOp(fs, path, mode).Done? && OpenOp(fs, path, mode).ret == -1
    ensures NoTrace(fs, OpenOp(fs, path, mode).fs) <==>
      !(HandlesFull(fs.p, Alpha(fs)) && OpenChangesFiles(fs.p, Alpha(fs), path, mode))
  {
    hide DirOk, Entries, Nodes, Handles, Ownership, Dir, OpenOp, NoTrace, Alpha, FindSlot, PathSlot;
    HandlesFullIffCount(fs);
    if PathSlot(fs, path) != -1 {
      FailedOpenExisting(fs, path, mode);
    } else {
      PathNames(fs, path);
      if ValidPath(path) && mode.creat {
        FailedOpenNew(fs, path, mode);
      } else {
        OpenOutcome(fs, path, mode);
        SameTrace(fs);
      }
    }
  }

  lemma FailedWriteLeavesNoTrace(fs: Fs, h: int, buffer: seq<byte>)
    requires Sound(fs) && |buffer| <= SIZE_MAX - fs.p.blockSize
    requires WriteOp(fs, h, buffer).Done? && WriteOp(fs, h, buffer).ret == -1
    ensures WriteOp(fs, h, buffer).fs == fs
  {
  }

  lemma FailedReadLeavesNoTrace(fs: Fs, h: int, len: nat)
    requires ReadOp(fs, h, len).Done? && ReadOp(fs, h, len).ret == -1
    ensures ReadOp(fs, h, len).fs == fs
  {
  }

  /** A call that fails changes nothing but, at most, the record of an inode that is still
      FREE, if and only if it is not an open that finds the open-file table full after it has
      truncated or created a file. */
  lemma FailureLeavesNoTraceIff(fs: Fs, op: Op)
    requires Sound(fs) && FitsSizeT(fs.p, op)
    requires Apply(fs, op).Done? && Apply(fs, op).ret == -1
    ensures NoTrace(fs, Apply(fs, op).fs) <==>
      !(op.Open? && HandlesFull(fs.p, Alpha(fs)) && OpenChangesFiles(fs.p, Alpha(fs), op.path, op.mode))
  {
    hide DirOk, Entries, Nodes, Handles, Ownership, Dir, OpenOp, UnlinkOp, RemoveFile, WriteOp, ReadOp, NoTrace, Alpha;
    SameTrace(fs);
    match op
    case Open(path, mode) => FailedOpenTraceIff(fs, path, mode);
    case Close(h) =>
    case Write(h, buffer) => FailedWriteLeavesNoTrace(fs, h, buffer);
    case Read(h, len) => FailedReadLeavesNoTrace(fs, h, len);
    case Unlink(path) => UnlinkOutcome(fs, path);
  }

  // ---------- No leaks ----------

  lemma EmptyDirHasNoEntry(d: seq<Slot>, k: nat)
    requires DirNames(d) == {}
    ensures !HasEntry(d, k)
  {
    forall j | 0 <= j < |d| ensures d[j].inum != k {
      var name := d[j].Name();
      assert !d[j].Used() || name in DirNames(d);
    }
  }

  lemma EmptyTables(fs: Fs)
    requires Consistent(fs) && Alpha(fs) == EMPTY
    ensures forall i :: 0 <= i < |fs.inodeTaken| ==> fs.inodeTaken[i] == (i == ROOT)
    ensures forall b :: 0 <= b < |fs.blockTaken| ==> fs.blockTaken[b] == (b == fs.inodes[ROOT].block)
    ensures forall h :: 0 <= h < |fs.handleTaken| ==> !fs.handleTaken[h]
  {
    assert DirNames(Dir(fs)) == {} by { assert Alpha(fs).files.Keys == DirNames(Dir(fs)); }
    forall i | 0 <= i < |fs.inodeTaken| ensures fs.inodeTaken[i] == (i == ROOT) {
      var d := Dir(fs);
      EmptyDirHasNoEntry(d, i);
      assert !Live(fs, i) || HasEntry(d, i);
    }
    assert forall k :: !NonEmpty(fs, k);
    assert forall b :: !HasOwner(fs, b);
    assert forall h :: h in Alpha(fs).handles <==> fs.IsOpen(h);
  }

  /** Once every handle is closed and every file unlinked, all three allocation tables are
      what they were just after tfs_init. */
  lemma NoLeaks(s: Fs, ops: seq<Op>)
    requires Initial(s) && DisciplinedRun(s.p, EMPTY, ops)
    requires ARun(s.p, EMPTY, ops).0 == EMPTY
    ensures var run := RunOps(s, ops);
      && run.Running?
      && run.fs.inodeTaken == s.inodeTaken && run.fs.blockTaken == s.blockTaken && run.fs.handleTaken == s.handleTaken
  {
    hide Alpha, Consistent;
    InitialIsEmpty(s);
    RunRefines(s, ops);
    EmptyTables(s);
    EmptyTables(RunOps(s, ops).fs);
  }

  // ---------- When exactly calls fail ----------

  /** A write on an open handle fails exactly when it must allocate and no block is left:
      counted in files, not in blocks. */
  lemma WriteFailsIff(fs: Fs, h: int, buffer: seq<byte>)
    requires Consistent(fs) && fs.IsOpen(h) && |buffer| <= SIZE_MAX - fs.p.blockSize
    ensures RootOk(fs) && h in Alpha(fs).handles && WriteOp(fs, h, buffer).Done?
    ensures var a := Alpha(fs);
      WriteOp(fs, h, buffer).ret == -1 <==>
        FileOf(a, h) == [] && buffer != [] && |NonEmptyNames(a)| + 1 == fs.p.blockCount
  {
    hide Files, OpenHandles, DirOk, Entries, Nodes, Handles, Ownership, NoOrphans, HandlesLive, Dir, WriteOp;
    var j := HandleAt(fs, h);
    WriteRefines(fs, h, buffer);
  }

  /** An open that asks for a new file creates it unless the name is invalid or too long, the
      inodes are used up, or the directory is full: again counted in files alone. */
  lemma CreateFailsIff(fs: Fs, path: Option<cstring>, mode: Mode)
    requires Consistent(fs) && mode.creat && !Names(Alpha(fs), path)
    ensures RootOk(fs) && OpenOp(fs, path, mode).Done? && RootOk(OpenOp(fs, path, mode).fs)
    ensures var a := Alpha(fs); var after := Alpha(OpenOp(fs, path, mode).fs);
      if !ValidPath(path) || |FileName(path)| >= MAX_FILE_NAME
         || |a.files| + 1 == fs.p.inodeCount || ENTRY_SIZE * (|a.files| + 1) > fs.p.blockSize
      then after == a && OpenOp(fs, path, mode).ret == -1
      else after.files == a.files[FileName(path) := []]
  {
    hide Files, OpenHandles, DirOk, Entries, Nodes, Handles, Ownership, NoOrphans, HandlesLive, Dir, OpenOp,
      Alpha;
    OpenRefines(fs, path, mode);
    ScansFailByCount(fs);
  }

  lemma NoHandleLeft(fs: Fs)
    requires RootOk(fs)
    ensures LeastAbsent(Alpha(fs).handles.Keys, 0, fs.p.handleCount) == -1 <==> HandlesFull(fs.p, Alpha(fs))
  {
    HandlesFullIffCount(fs);
    SameNextHandle(Alpha(fs).handles.Keys, fs.handleTaken);
  }

  /** An open fails if and only if every open-file entry is taken, or the path names no file and
      none is or can be created: counted in files and handles. */
  lemma OpenFailsIff(fs: Fs, path: Option<cstring>, mode: Mode)
    requires Consistent(fs)
    ensures RootOk(fs) && OpenOp(fs, path, mode).Done?
    ensures var a := Alpha(fs);
      OpenOp(fs, path, mode).ret == -1 <==>
        HandlesFull(fs.p, a) || !(Names(a, path) || (mode.creat && CanCreate(fs.p, a, path)))
  {
    hide Files, OpenHandles, DirOk, Entries, Nodes, Handles, Ownership, NoOrphans, HandlesLive, Dir, OpenOp, Alpha;
    OpenRefines(fs, path, mode);
    NoHandleLeft(fs);
  }

  /** With the open-file table full, an open fails and opens nothing, but a file that it was to
      create or to truncate is created or truncated all the same. */
  lemma FullTableKeepsFile(fs: Fs, path: Option<cstring>, mode: Mode)
    requires Consistent(fs) && HandlesFull(fs.p, Alpha(fs))
    ensures RootOk(fs) && OpenOp(fs, path, mode).Done? && RootOk(OpenOp(fs, path, mode).fs)
    ensures var a := Alpha(fs); var r := OpenOp(fs, path, mode);
      && r.ret == -1 && Alpha(r.fs).handles == a.handles
      && Alpha(r.fs).files ==
           if Names(a, path) then (if mode.trunc then a.files[FileName(path) := []] else a.files)
           else if mode.creat && CanCreate(fs.p, a, path) then a.files[FileName(path) := []]
           else a.files
  {
    hide Files, DirOk, Entries, Nodes, Handles, Ownership, NoOrphans, HandlesLive, Dir, OpenOp;
    OpenRefines(fs, path, mode);
    NoHandleLeft(fs);
  }

  // ---------- The flat byte array ----------

  /** A write through any handle, live or stale, changes bytes of at most one block, and never
      of the root directory's. */
  lemma WriteStaysInOneBlock(fs: Fs, h: int, buffer: seq<byte>)
    requires Sound(fs) && fs.IsOpen(h) && |buffer| <= SIZE_MAX - fs.p.blockSize
    ensures WriteOp(fs, h, buffer).Done?
    ensures var r := WriteOp(fs, h, buffer).fs; var b := r.inodes[fs.files[h].inum].block;
      r.data == fs.data ||
        (fs.ValidBlock(b) && b != fs.inodes[ROOT].block
         && forall k :: 0 <= k < |fs.data| && !(BlockStart(fs, b) <= k < BlockStart(fs, b) + fs.p.blockSize) ==>
              r.data[k] == fs.data[k])
  {
    hide DirOk, Entries, Nodes, Handles, Ownership, Dir;
    WriteOutcome(fs, h, buffer);
  }

  /** Non-interference: on a consistent state a write changes no byte of any other file, no
      other handle, and no directory record. */
  lemma WriteChangesOnlyItsFile(fs: Fs, h: int, buffer: seq<byte>)
    requires Consistent(fs) && fs.IsOpen(h) && |buffer| <= SIZE_MAX - fs.p.blockSize
    ensures WriteOp(fs, h, buffer).Done? && RootOk(fs)
    ensures var r := WriteOp(fs, h, buffer).fs; var a := Alpha(fs);
      && RootOk(r) && Dir(r) == Dir(fs) && h in a.handles
      && (forall n :: n in a.files && n != a.handles[h].name ==> n in Alpha(r).files && Alpha(r).files[n] == a.files[n])
      && (forall g :: g in a.handles && g != h ==> g in Alpha(r).handles && Alpha(r).handles[g] == a.handles[g])
  {
    hide Files, OpenHandles, DirOk, Entries, Nodes, Handles, Ownership, NoOrphans, HandlesLive, Dir, WriteOp;
    var j := HandleAt(fs, h);
    WriteSound(fs, h, buffer);
    WriteRefines(fs, h, buffer);
  }

  /** The modular sums and differences that clip transfers are exact on consistent states. */
  lemma ClipsAreExact(fs: Fs, h: int, toWrite: nat, len: nat)
    requires Consistent(fs) && fs.IsOpen(h) && toWrite <= SIZE_MAX - fs.p.blockSize && len <= SIZE_MAX
    ensures fs.ValidInum(fs.files[h].inum) && fs.files[h].offset <= fs.inodes[fs.files[h].inum].size <= fs.p.blockSize
    ensures var f := fs.files[h]; var size := fs.inodes[f.inum].size;
      && WriteClip(toWrite, f.offset, fs.p.blockSize) == Min(toWrite, fs.p.blockSize - f.offset)
      && ReadClip(size, f.offset, len) == Min(len, size - f.offset)
  {
    HandleNodeOk(fs, h);
    WriteClipIsMinIff(toWrite, fs.files[h].offset, fs.p.blockSize);
    ReadClipIsMinIff(fs.inodes[fs.files[h].inum].size, fs.files[h].offset, len);
  }

  // ---------- Runs that show the premises needed ----------

  const SLASH_A: cstring := [47, 97]
  const SLASH_B: cstring := [47, 98]
  const CREATING: Mode := Mode(true, false, false)
  const TRUNCATING: Mode := Mode(false, true, false)

  lemma RunOfOne(p: Params, a: Abs, x: Op)
    ensures ARun(p, a, [x]) == (AStep(p, a, x).0, [AStep(p, a, x).1])
  {
    hide AStep;
    assert [x][1..] == [];
    var (next, r) := AStep(p, a, x);
    assert ARun(p, next, []) == (next, []);
    assert [r] + [] == [r];
  }

  lemma RunOfTwo(p: Params, a: Abs, x: Op, y: Op)
    ensures var (a1, r1) := AStep(p, a, x); var (a2, r2) := AStep(p, a1, y);
      && ARun(p, a, [x, y]) == (a2, [r1, r2])
      && (DisciplinedRun(p, a, [x, y]) <==>
            FitsSizeT(p, x) && ADisciplined(a, x) && FitsSizeT(p, y) && ADisciplined(a1, y))
  {
    hide AStep, ADisciplined, FitsSizeT;
    var a1 := AStep(p, a, x).0;
    assert [x, y][1..] == [y] && [y][1..] == [];
    RunOfOne(p, a1, y);
    assert [AStep(p, a, x).1] + [AStep(p, a1, y).1] == [AStep(p, a, x).1, AStep(p, a1, y).1];
    assert DisciplinedRun(p, a1, [y]) <==> FitsSizeT(p, y) && ADisciplined(a1, y);
  }

  /** Create a file and fill its block. */
  function FillingScript(p: Params): seq<Op> {
    [Open(Some(SLASH_A), CREATING), Write(0, seq(p.blockSize, _ => 7))]
  }

  lemma FillingAbstractly(p: Params)
    requires p.inodeCount >= 2 && p.blockCount >= 2 && p.handleCount >= 1 && p.blockSize >= ENTRY_SIZE && p.Valid()
    ensures DisciplinedRun(p, EMPTY, FillingScript(p))
    ensures var a := ARun(p, EMPTY, FillingScript(p)).0; var name := FileName(Some(SLASH_A));
      0 in a.handles && a.handles[0] == Handle(name, p.blockSize) && name in a.files
  {
    var open, write := FillingScript(p)[0], FillingScript(p)[1];
    RunOfTwo(p, EMPTY, open, write);
    hide ARun, DisciplinedRun;
    var name := FileName(Some(SLASH_A));
    var a1 := AStep(p, EMPTY, open).0;
    assert a1 == Abs(map[name := []], map[0 := Handle(name, 0)]);
    assert NonEmptyNames(a1) == {};
    var a2 := AStep(p, a1, write).0;
    assert a2.handles[0] == Handle(name, p.blockSize) && name in a2.files;
  }

  /** From tfs_init, two calls that fill a file and a truncation under its open handle leave a
      state that is no longer consistent, in which a read of one byte starts past the end of
      its file and fails an assertion or leaves an offset past the block.  Neither the
      discipline nor the bound on reads can be dropped. */
  lemma PremisesAreNeeded(s: Fs)
    requires Initial(s) && s.p.inodeCount >= 2 && s.p.blockCount >= 2 && s.p.handleCount >= 1 && s.p.blockSize >= ENTRY_SIZE
    ensures var run := RunOps(s, FillingScript(s.p));
      && run.Running? && Consistent(run.fs)
      && var r := Apply(run.fs, Open(Some(SLASH_A), TRUNCATING));
         && r.Done? && Sound(r.fs) && !Consistent(r.fs) && !NotPastEnd(r.fs, Read(0, 1))
         && var last := Apply(r.fs, Read(0, 1)); last.Panic? || !Sound(last.fs)
  {
    hide Alpha, DirOk, Entries, Nodes, Handles, Ownership, NoOrphans, HandlesLive, RunOps, ARun,
      DisciplinedRun, Apply, FillingScript, Initial, PathSlot, InBounds;
    var path := Some(SLASH_A);
    FillingAbstractly(s.p);
    InitialRunRefines(s, FillingScript(s.p));
    var fs := RunOps(s, FillingScript(s.p)).fs;
    RunKeepsParams(s, FillingScript(s.p));
    HandleIsOpen(fs, 0);
    HandleOnPath(fs, path, 0);
    TruncationStrands(fs, path, 0);
    var r := Apply(fs, Open(path, TRUNCATING)).fs;
    StrandedIsInconsistent(r, 0);
    SoundStepIff(r, Read(0, 1));
  }

  lemma RunKeepsParams(s: Fs, ops: seq<Op>)
    requires Initial(s) && DisciplinedRun(s.p, EMPTY, ops)
    ensures RunOps(s, ops).Running? && RunOps(s, ops).fs.p == s.p
  {
    hide Alpha, Consistent;
    InitialIsEmpty(s);
    RunRefines(s, ops);
  }

  lemma HandleIsOpen(fs: Fs, h: int)
    requires Consistent(fs) && h in Alpha(fs).handles
    ensures fs.IsOpen(h)
  {
  }

  lemma StrandedIsInconsistent(fs: Fs, h: int)
    requires !NotPastEnd(fs, Read(h, 1))
    ensures !Consistent(fs)
  {
  }

  /** Open one file, and then create another. */
  function CreatingScript(): seq<Op> {
    [Open(Some(SLASH_A), CREATING), Open(Some(SLASH_B), CREATING)]
  }

  lemma CreatingAbstractly(p: Params)
    requires p.inodeCount >= 3 && p.blockSize >= 2 * ENTRY_SIZE && p.handleCount == 1 && p.Valid()
    ensures DisciplinedRun(p, EMPTY, CreatingScript())
    ensures var a, b := FileName(Some(SLASH_A)), FileName(Some(SLASH_B));
      && a != b
      && ARun(p, EMPTY, CreatingScript())
         == (Abs(map[a := [], b := []], map[0 := Handle(a, 0)]), [Result(0, []), Result(-1, [])])
  {
    var first, second := CreatingScript()[0], CreatingScript()[1];
    RunOfTwo(p, EMPTY, first, second);
    hide ARun, DisciplinedRun;
    var a, b := FileName(Some(SLASH_A)), FileName(Some(SLASH_B));
    assert a[0] == 97 && b[0] == 98;
    var a1 := AStep(p, EMPTY, first).0;
    assert a1 == Abs(map[a := []], map[0 := Handle(a, 0)]);
    var (a2, r2) := AStep(p, a1, second);
    assert a2 == Abs(map[a := [], b := []], map[0 := Handle(a, 0)]) && r2 == Result(-1, []);
  }

  /** From tfs_init with room for one open file, the second open of a run fails and leaves the
      file that it created behind. */
  lemma FailedOpenKeepsFile(s: Fs)
    requires Initial(s) && s.p.inodeCount >= 3 && s.p.blockSize >= 2 * ENTRY_SIZE && s.p.handleCount == 1
    ensures var run := RunOps(s, CreatingScript()); var b := FileName(Some(SLASH_B));
      && run.Running? && run.results == [Result(0, []), Result(-1, [])]
      && Consistent(run.fs) && b in Alpha(run.fs).files && |Alpha(run.fs).handles| == 1
  {
    hide Alpha, Consistent, RunOps, ARun, DisciplinedRun, CreatingScript;
    CreatingAbstractly(s.p);
    InitialRunRefines(s, CreatingScript());
    ConsistentRoot(RunOps(s, CreatingScript()).fs);
    assert map[0 := Handle(FileName(Some(SLASH_A)), 0)].Keys == {0};
  }

  /** The parameters that tfs_init uses when it is given none meet every premise. */
  lemma DefaultParamsValid()
    ensures Params(64, 1024, 16, 1024).Valid()
  {
    TimesIsProduct(1024, 1024);
  }

  // ---------- Initializing twice ----------

  lemma {:induction false} TimesInjective(n: nat, x: nat, y: nat)
    requires n > 0 && Times(n, x) == Times(n, y)
    ensures x == y
  {
    if x < y { TimesOrder(n, x, y); }
    if y < x { TimesOrder(n, y, x); }
  }

  lemma {:induction false} TimesOrder(n: nat, x: nat, y: nat)
    requires n > 0 && x < y
    ensures Times(n, x) < Times(n, y)
  {
    if n > 1 { TimesOrder(n - 1, x, y); }
  }

  /** A second tfs_init fails and touches no table, but it has replaced the parameters: every
      table still has the size that the bounds checks go by if and only if they are the same. */
  lemma SecondInit(fs: Fs, p: Params, inodes: seq<Inode>, data: seq<byte>, files: seq<OpenFile>)
    ensures var (s, ret) := TfsInit(Some(fs), p, inodes, data, files);
      && ret == -1 && s.p == p
      && s.inodes == fs.inodes && s.inodeTaken == fs.inodeTaken && s.data == fs.data && s.blockTaken == fs.blockTaken
      && s.files == fs.files && s.handleTaken == fs.handleTaken
      && (fs.p.blockCount > 0 ==> (s.Shape() <==> p == fs.p))
  {
    if fs.p.blockCount > 0 && TfsInit(Some(fs), p, inodes, data, files).0.Shape() {
      TimesInjective(fs.p.blockCount, p.blockSize, fs.p.blockSize);
    }
  }
}
