/**
 Threads that share the file system under the global mutex.  Every interleaving of their
 micro-steps has the results and the final state of running whole operations one after the
 other, in the order in which the mutex was taken.
 */
module Linearization {
  import opened CMemory
  import opened TfsState
  import opened TfsOperations
  import opened Invariants
  import opened Preservation
  import opened Steps
  import opened AbstractFs
  import opened Simulation
  import opened Runs
  import opened MicroSteps

  datatype Phase = Outside | Inside(op: Op, local: Local)

  /** A thread: the calls it still has to make, the results of those it has made, and where it is. */
  datatype Thread = Thread(todo: seq<Op>, results: seq<Result>, phase: Phase)

  /** A call that took the mutex, and the thread that made it. */
  datatype Entry = Entry(thread: nat, op: Op)

  /** The shared tables, the holder of g_library_mutex, the threads, and, for the statement
      only, the calls in the order in which they took the mutex. */
  datatype System = System(fs: Fs, holder: Option<nat>, threads: seq<Thread>, log: seq<Entry>)

  /** The scheduler picks thread t: it takes the free mutex, makes one micro-step, gives the
      mutex back, or waits. */
  function Schedule(s: System, t: nat): System {
    if t >= |s.threads| then s
    else
      var th := s.threads[t];
      match th.phase
      case Outside =>
        if th.todo == [] || s.holder.Some? then s
        else s.(holder := Some(t), log := s.log + [Entry(t, th.todo[0])],
                threads := s.threads[t := Thread(th.todo[1..], th.results, Inside(th.todo[0], Start))])
      case Inside(op, l) =>
        if l.Panicked? then s
        else if l.Finished? then
          s.(holder := None, threads := s.threads[t := Thread(th.todo, th.results + [l.result], Outside)])
        else
          var (next, fs) := MicroStep(op, l, s.fs);
          s.(fs := fs, threads := s.threads[t := Thread(th.todo, th.results, Inside(op, next))])
  }

  function Execute(s: System, schedule: seq<nat>): System {
    if schedule == [] then s else Schedule(Execute(s, schedule[..|schedule| - 1]), schedule[|schedule| - 1])
  }

  function StartSystem(fs: Fs, scripts: seq<seq<Op>>): System {
    System(fs, None, seq(|scripts|, i requires 0 <= i < |scripts| => Thread(scripts[i], [], Outside)), [])
  }

  // ---------- The sequential run ----------

  datatype Sequential = Sequential(fs: Fs, results: seq<Result>) | Broken

  /** Whole operations, one after the other. */
  function InOrder(fs: Fs, log: seq<Entry>): (r: Sequential)
    ensures r.Sequential? ==> |r.results| == |log|
  {
    if log == [] then Sequential(fs, [])
    else
      var before := InOrder(fs, log[..|log| - 1]);
      if before.Broken? then Broken
      else
        match Apply(before.fs, log[|log| - 1].op)
        case Panic => Broken
        case Done(next, ret, out) => Sequential(next, before.results + [Result(ret, out)])
  }

  /** The results that thread t's calls got, in order. */
  function ResultsOf(log: seq<Entry>, results: seq<Result>, t: nat): seq<Result>
    requires |results| == |log|
  {
    if log == [] then []
    else
      var n := |log| - 1;
      ResultsOf(log[..n], results[..n], t) + (if log[n].thread == t then [results[n]] else [])
  }

  function OpsOf(log: seq<Entry>, t: nat): seq<Op> {
    if log == [] then []
    else
      var n := |log| - 1;
      OpsOf(log[..n], t) + (if log[n].thread == t then [log[n].op] else [])
  }

  /** The calls of the log whose bodies have ended: all, or all but the one in progress. */
  function Completed(s: System): seq<Entry> {
    if s.holder.Some? && s.log != [] then s.log[..|s.log| - 1] else s.log
  }

  // ---------- The invariant of every interleaving ----------

  ghost predicate HolderOk(s: System, t: nat, before: Fs) {
    && t < |s.threads| && s.log != [] && s.log[|s.log| - 1].thread == t
    && s.threads[t].phase.Inside? && s.threads[t].phase.op == s.log[|s.log| - 1].op
    && Finish(s.log[|s.log| - 1].op, s.threads[t].phase.local, s.fs) == AsEnding(Apply(before, s.log[|s.log| - 1].op))
  }

  /** At most the holder of the mutex is inside a body, and letting it run to its end from
      here is the operation that it called, run on the sequential state. */
  ghost predicate Linear(s: System, fs0: Fs) {
    var seqRun := InOrder(fs0, Completed(s));
    && seqRun.Sequential?
    && (s.holder.None? ==> s.fs == seqRun.fs)
    && (s.holder.Some? ==> HolderOk(s, s.holder.value, seqRun.fs))
    && (forall t :: 0 <= t < |s.threads| && s.holder != Some(t) ==> s.threads[t].phase == Outside)
    && (forall t :: 0 <= t < |s.threads| ==> s.threads[t].results == ResultsOf(Completed(s), seqRun.results, t))
  }

  ghost predicate InProgramOrder(s: System, scripts: seq<seq<Op>>) {
    |s.threads| == |scripts|
    && forall t :: 0 <= t < |scripts| ==> OpsOf(s.log, t) + s.threads[t].todo == scripts[t]
  }

  lemma AcquireKeeps(s: System, t: nat, fs0: Fs)
    requires Linear(s, fs0) && t < |s.threads| && s.threads[t].phase == Outside
    requires s.threads[t].todo != [] && s.holder.None?
    ensures Linear(Schedule(s, t), fs0)
  {
    hide InOrder, ResultsOf, Finish, Apply;
    var r := Schedule(s, t);
    assert r.log[..|r.log| - 1] == s.log;
    BodyIsOperation(s.threads[t].todo[0], s.fs);
  }

  lemma MicroKeeps(s: System, t: nat, fs0: Fs)
    requires Linear(s, fs0) && t < |s.threads| && s.threads[t].phase.Inside? && !Ended(s.threads[t].phase.local)
    ensures Linear(Schedule(s, t), fs0)
  {
    hide InOrder, ResultsOf, Finish, Apply, MicroStep;
    FinishStep(s.log[|s.log| - 1].op, s.threads[t].phase.local, s.fs);
  }

  lemma ReleaseKeeps(s: System, t: nat, fs0: Fs)
    requires Linear(s, fs0) && t < |s.threads| && s.threads[t].phase.Inside? && s.threads[t].phase.local.Finished?
    ensures Linear(Schedule(s, t), fs0)
  {
    hide Apply, MicroStep;
    var r := Schedule(s, t);
    var n := |s.log| - 1;
    var before, after := InOrder(fs0, s.log[..n]), InOrder(fs0, s.log);
    EndedFinish(s.log[n].op, s.threads[t].phase.local, s.fs);
    assert after.results == before.results + [s.threads[t].phase.local.result];
    assert after.results[..n] == before.results;
    forall u | 0 <= u < |r.threads| ensures r.threads[u].results == ResultsOf(s.log, after.results, u) {
    }
  }

  lemma ScheduleKeeps(s: System, t: nat, fs0: Fs)
    requires Linear(s, fs0)
    ensures Linear(Schedule(s, t), fs0)
  {
    hide Linear;
    if t < |s.threads| {
      var th := s.threads[t];
      if th.phase.Outside? && th.todo != [] && s.holder.None? {
        AcquireKeeps(s, t, fs0);
      } else if th.phase.Inside? && !Ended(th.phase.local) {
        MicroKeeps(s, t, fs0);
      } else if th.phase.Inside? && th.phase.local.Finished? {
        ReleaseKeeps(s, t, fs0);
      }
    }
  }

  lemma AcquireInProgramOrder(s: System, t: nat, scripts: seq<seq<Op>>)
    requires InProgramOrder(s, scripts) && t < |s.threads| && s.threads[t].phase.Outside?
    requires s.threads[t].todo != [] && s.holder.None?
    ensures InProgramOrder(Schedule(s, t), scripts)
  {
    hide MicroStep, OpsOf;
    var r, op := Schedule(s, t), s.threads[t].todo[0];
    assert [op] + s.threads[t].todo[1..] == s.threads[t].todo;
    forall u | 0 <= u < |scripts| ensures OpsOf(r.log, u) + r.threads[u].todo == scripts[u] {
      OpsOfLonger(s.log, Entry(t, op), u);
      if u == t {
        assert (OpsOf(s.log, t) + [op]) + r.threads[t].todo == OpsOf(s.log, t) + ([op] + r.threads[t].todo);
      }
    }
  }

  lemma OpsOfLonger(log: seq<Entry>, e: Entry, t: nat)
    ensures OpsOf(log + [e], t) == OpsOf(log, t) + (if e.thread == t then [e.op] else [])
  {
    assert (log + [e])[..|log|] == log;
  }

  lemma ScheduleInProgramOrder(s: System, t: nat, scripts: seq<seq<Op>>)
    requires InProgramOrder(s, scripts)
    ensures InProgramOrder(Schedule(s, t), scripts)
  {
    hide MicroStep, OpsOf;
    if t < |s.threads| && s.threads[t].phase.Outside? && s.threads[t].todo != [] && s.holder.None? {
      AcquireInProgramOrder(s, t, scripts);
    }
  }

  /** Linearization.  Under any schedule, the calls that have taken the mutex, run as whole
      operations in that order, succeed and give every thread the results it has got; each
      thread's calls are in its own order; and when the mutex is free the shared state is the
      sequential one. */
  lemma {:induction false} EveryInterleavingIsSequential(fs: Fs, scripts: seq<seq<Op>>, schedule: seq<nat>)
    ensures var s := Execute(StartSystem(fs, scripts), schedule);
      Linear(s, fs) && InProgramOrder(s, scripts)
  {
    hide Linear, Schedule;
    if schedule == [] {
      StartIsLinear(fs, scripts);
    } else {
      var before := schedule[..|schedule| - 1];
      EveryInterleavingIsSequential(fs, scripts, before);
      var s := Execute(StartSystem(fs, scripts), before);
      ScheduleKeeps(s, schedule[|schedule| - 1], fs);
      ScheduleInProgramOrder(s, schedule[|schedule| - 1], scripts);
    }
  }

  lemma StartIsLinear(fs: Fs, scripts: seq<seq<Op>>)
    ensures Linear(StartSystem(fs, scripts), fs) && InProgramOrder(StartSystem(fs, scripts), scripts)
  {
  }

  // ---------- Discipline under concurrency ----------

  /** Every call of the log is disciplined in the state in which its body begins. */
  ghost predicate DisciplinedLog(fs: Fs, log: seq<Entry>) {
    log == [] ||
    (var n := |log| - 1; var before := InOrder(fs, log[..n]);
     && DisciplinedLog(fs, log[..n])
     && FitsSizeT(fs.p, log[n].op)
     && (before.Sequential? && RootOk(before.fs) ==> Disciplined(before.fs, log[n].op)))
  }

  lemma {:induction false} DisciplinedLogIsConsistent(fs: Fs, log: seq<Entry>)
    requires Consistent(fs) && DisciplinedLog(fs, log)
    ensures var r := InOrder(fs, log); r.Sequential? && Consistent(r.fs) && r.fs.p == fs.p
  {
    hide Consistent, Apply, Disciplined, FitsSizeT;
    if log != [] {
      var n := |log| - 1;
      DisciplinedLogIsConsistent(fs, log[..n]);
      var before := InOrder(fs, log[..n]).fs;
      ConsistentRoot(before);
      ConsistentStep(before, log[n].op);
      ParamsKept(before, log[n].op);
    }
  }

  lemma ParamsKept(fs: Fs, op: Op)
    ensures Apply(fs, op).Done? ==> Apply(fs, op).fs.p == fs.p
  {
  }

  /** If every body begins in a state in which its call is disciplined, the tables are
      consistent whenever the mutex is free, and no thread ever fails an assertion. */
  lemma ConsistentWheneverFree(fs: Fs, scripts: seq<seq<Op>>, schedule: seq<nat>)
    requires Consistent(fs)
    requires DisciplinedLog(fs, Execute(StartSystem(fs, scripts), schedule).log)
    ensures var s := Execute(StartSystem(fs, scripts), schedule);
      && (s.holder.None? ==> Consistent(s.fs))
      && forall t :: 0 <= t < |s.threads| ==> !(s.threads[t].phase.Inside? && s.threads[t].phase.local.Panicked?)
  {
    hide Consistent, Apply, Disciplined, FitsSizeT, Execute, StartSystem, Finish;
    var s := Execute(StartSystem(fs, scripts), schedule);
    EveryInterleavingIsSequential(fs, scripts, schedule);
    DisciplinedLogIsConsistent(fs, s.log);
    if s.holder.Some? {
      var t := s.holder.value;
      var n := |s.log| - 1;
      assert Apply(InOrder(fs, s.log[..n]).fs, s.log[n].op).Done?;
      if s.threads[t].phase.local.Panicked? {
        EndedFinish(s.log[n].op, Panicked, s.fs);
        assert false;
      }
    }
  }

  // ---------- Progress ----------

  /** Thread t given k turns in a row. */
  function Turns(s: System, t: nat, k: nat): System
    decreases k
  {
    if k == 0 then s else Turns(Schedule(s, t), t, k - 1)
  }

  /** The holder of the mutex, whatever the other threads want, gives it back after finitely
      many turns of its own: a body does not wait for anything. */
  lemma {:induction false} HolderReleases(s: System, t: nat, fs0: Fs) returns (k: nat)
    requires Linear(s, fs0) && s.holder == Some(t)
    requires Apply(InOrder(fs0, Completed(s)).fs, s.log[|s.log| - 1].op).Done?
    ensures k <= Rank(s.threads[t].phase.local) + 1
    ensures Turns(s, t, k).holder == None && Linear(Turns(s, t, k), fs0) && Turns(s, t, k).log == s.log
    ensures t < |Turns(s, t, k).threads| && Turns(s, t, k).threads[t].todo == s.threads[t].todo
    decreases Rank(s.threads[t].phase.local)
  {
    hide Apply, MicroStep, InOrder, ResultsOf, Rank;
    var l, op, next := s.threads[t].phase.local, s.log[|s.log| - 1].op, Schedule(s, t);
    ScheduleKeeps(s, t, fs0);
    if Ended(l) {
      EndedFinish(op, l, s.fs);
      k := 1;
      assert Turns(s, t, 1) == Turns(next, t, 0);
    } else {
      StepsEnd(op, l, s.fs);
      var m := HolderReleases(next, t, fs0);
      k := m + 1;
    }
  }

  /** When the mutex is free, a thread that is given enough turns takes it, carries out its
      next call, and gives it back with the state and the result of that operation. */
  lemma CallCompletes(s: System, t: nat, fs0: Fs) returns (k: nat)
    requires Linear(s, fs0) && s.holder.None? && t < |s.threads| && s.threads[t].todo != []
    requires Apply(s.fs, s.threads[t].todo[0]).Done?
    ensures var r := Turns(s, t, k); var op := s.threads[t].todo[0];
      && r.holder.None? && r.log == s.log + [Entry(t, op)] && r.fs == Apply(s.fs, op).fs
      && t < |r.threads| && r.threads[t].todo == s.threads[t].todo[1..]
      && r.threads[t].results == s.threads[t].results + [Result(Apply(s.fs, op).ret, Apply(s.fs, op).out)]
  {
    hide Apply, MicroStep;
    var next, op := Schedule(s, t), s.threads[t].todo[0];
    AcquireKeeps(s, t, fs0);
    assert next.log[..|next.log| - 1] == s.log;
    var m := HolderReleases(next, t, fs0);
    k := m + 1;
    var r := Turns(next, t, m);
    var seqRun := InOrder(fs0, r.log);
    assert seqRun.results[..|s.log|] == InOrder(fs0, s.log).results;
  }

  // ---------- Midway ----------

  /** The state of one thread that has taken the mutex and made its first two micro-steps. */
  function Midway(fs: Fs, op: Op): System {
    Execute(StartSystem(fs, [[op]]), [0, 0, 0])
  }

  /** The holder is between two micro-steps of the call, with these locals. */
  predicate HolderAt(s: System, op: Op, l: Local) {
    |s.threads| == 1 && s.holder == Some(0) && s.threads[0].phase == Inside(op, l)
  }

  lemma MidwayIs(fs: Fs, op: Op)
    requires !Ended(MicroStep(op, Start, fs).0)
    ensures var (l, mid) := MicroStep(op, Start, fs); var (next, after) := MicroStep(op, l, mid);
      Midway(fs, op).fs == after && HolderAt(Midway(fs, op), op, next)
  {
    hide MicroStep, Execute;
    var s0 := StartSystem(fs, [[op]]);
    ExecuteOne(s0, 0);
    ExecuteMore(s0, [0], 0);
    ExecuteMore(s0, [0, 0], 0);
    assert [0] + [0] == [0, 0] && [0, 0] + [0] == [0, 0, 0];
  }

  lemma ExecuteMore(s: System, schedule: seq<nat>, t: nat)
    ensures Execute(s, schedule + [t]) == Schedule(Execute(s, schedule), t)
  {
    hide Schedule;
    var longer := schedule + [t];
    assert longer[..|longer| - 1] == schedule;
  }

  lemma ExecuteOne(s: System, t: nat)
    ensures Execute(s, [t]) == Schedule(s, t)
  {
    hide Schedule;
    ExecuteMore(s, [], t);
    assert [] + [t] == [t];
  }

  /** A record that names a FREE inode is not sound. */
  lemma DanglingRecord(fs: Fs, slot: nat)
    requires fs.ValidBlock(fs.inodes[ROOT].block)
    requires slot < |Dir(fs)| && Dir(fs)[slot].Used() && !Live(fs, Dir(fs)[slot].inum)
    ensures !Sound(fs)
  {
  }

  lemma FreedInode(fs: Fs, i: nat)
    requires RootOk(fs) && Live(fs, i) && InodeDelete(fs, i).Done?
    ensures var r := InodeDelete(fs, i).fs; r.inodes == fs.inodes && r.ValidBlock(r.inodes[ROOT].block) && Dir(r) == Dir(fs) && !Live(r, i)
  {
  }

  lemma UnlinkLookupStep(fs: Fs, path: Option<cstring>)
    requires RootOk(fs) && PathSlot(fs, path) != -1 && Dir(fs)[PathSlot(fs, path)].inum >= 0
    ensures MicroStep(Unlink(path), Start, fs) == (UnlinkInode(Dir(fs)[PathSlot(fs, path)].inum), fs)
  {
    hide ClearDirEntry, InodeDelete, Dir, FindSlot, FileName;
  }

  lemma UnlinkDeleteStep(fs: Fs, path: Option<cstring>, i: int)
    requires ValidPath(path) && InodeDelete(fs, i).Done?
    ensures MicroStep(Unlink(path), UnlinkInode(i), fs) == (UnlinkEntry, InodeDelete(fs, i).fs)
  {
    hide ClearDirEntry, InodeDelete, FindInDir, FileName;
  }

  lemma UnlinkInodeStep(fs: Fs, path: Option<cstring>)
    requires Sound(fs) && PathSlot(fs, path) != -1
    ensures var i := Dir(fs)[PathSlot(fs, path)].inum;
      && MicroStep(Unlink(path), Start, fs) == (UnlinkInode(i), fs)
      && var (next, after) := MicroStep(Unlink(path), UnlinkInode(i), fs);
         next == UnlinkEntry && after.ValidBlock(after.inodes[ROOT].block) && Dir(after) == Dir(fs) && !Live(after, i)
  {
    hide MicroStep, DirOk, Entries, Nodes, Handles, Ownership, Dir, UnlinkOp, FindSlot, InodeDelete, RemoveFile, FileName;
    UnlinkOutcome(fs, path);
    var i := Dir(fs)[PathSlot(fs, path)].inum;
    UnlinkLookupStep(fs, path);
    UnlinkDeleteStep(fs, path, i);
    FreedInode(fs, i);
  }

  /** Midway the invariants do not hold.  Between freeing the inode and clearing the record, an
      unlink leaves a directory record that names a FREE inode. */
  lemma UnlinkBreaksInvariantMidway(fs: Fs, path: Option<cstring>)
    requires Sound(fs) && PathSlot(fs, path) != -1
    ensures var s := Midway(fs, Unlink(path)); HolderAt(s, Unlink(path), UnlinkEntry) && !Sound(s.fs)
  {
    hide MicroStep, DirOk, Entries, Nodes, Handles, Ownership, Dir, FindSlot, Midway;
    var slot := PathSlot(fs, path);
    PathNames(fs, path);
    LookupFindsLive(fs, FileName(path));
    UnlinkInodeStep(fs, path);
    MidwayIs(fs, Unlink(path));
    DanglingRecord(Midway(fs, Unlink(path)).fs, slot);
  }

  lemma UnrecordedInode(fs: Fs, i: nat)
    requires Sound(fs) && i == FirstFree(fs.inodeTaken)
    ensures !Sound(fs.(inodeTaken := fs.inodeTaken[i := true]))
  {
    var r := fs.(inodeTaken := fs.inodeTaken[i := true]);
    assert Dir(r) == Dir(fs);
    assert Live(r, i) && !Live(fs, i);
    assert !HasEntry(Dir(fs), i);
  }

  /** Between taking an inode and adding its record, a creation leaves a TAKEN inode that no
      record names. */
  lemma CreateBreaksInvariantMidway(fs: Fs, path: Option<cstring>, mode: Mode)
    requires Sound(fs) && ValidPath(path) && PathSlot(fs, path) == -1 && mode.creat
    requires FirstFree(fs.inodeTaken) != -1
    ensures var s := Midway(fs, Open(path, mode));
      HolderAt(s, Open(path, mode), CreateRecord(FirstFree(fs.inodeTaken))) && !Sound(s.fs)
  {
    hide DirOk, Entries, Nodes, Handles, Ownership, Dir, FindSlot, Midway;
    MidwayIs(fs, Open(path, mode));
    UnrecordedInode(fs, FirstFree(fs.inodeTaken));
  }

  lemma OwnerlessBlock(fs: Fs, b: nat)
    requires Consistent(fs) && b == FirstFree(fs.blockTaken)
    ensures !Consistent(fs.(blockTaken := fs.blockTaken[b := true]))
  {
    hide DirOk, Entries, Nodes, Handles, Dir;
    var r := fs.(blockTaken := fs.blockTaken[b := true]);
    assert forall i :: NonEmpty(r, i) <==> NonEmpty(fs, i);
    assert !HasOwner(r, b);
  }

  /** Between taking a block and storing its number in the inode, the first write to an empty
      file leaves a TAKEN block without an owner. */
  lemma WriteBreaksInvariantMidway(fs: Fs, h: int, buffer: seq<byte>)
    requires Consistent(fs) && fs.IsOpen(h) && 0 < |buffer| <= SIZE_MAX - fs.p.blockSize
    requires 0 <= fs.files[h].inum < |fs.inodes| && fs.inodes[fs.files[h].inum].size == 0
    requires FirstFree(fs.blockTaken) != -1
    ensures var s := Midway(fs, Write(h, buffer));
      HolderAt(s, Write(h, buffer), WriteBind(Min(|buffer|, fs.p.blockSize), FirstFree(fs.blockTaken)))
      && !Consistent(s.fs)
  {
    hide Sound, NoOrphans, Midway, WriteClip;
    ClipsAreExact(fs, h, |buffer|, 0);
    MidwayIs(fs, Write(h, buffer));
    OwnerlessBlock(fs, FirstFree(fs.blockTaken));
  }
}
