/**
 Read completeness.  Other calls may come between the reads of a handle, through the same or
 another thread, as long as they neither close the handle nor change its file.
 */
module Reading {
  import opened CMemory
  import opened TfsState
  import opened TfsOperations
  import opened Invariants
  import opened Preservation
  import opened AbstractFs
  import opened Refinement
  import opened Simulation
  import opened Runs
  import opened Clients

  // ---------- Calls that leave a handle and its file alone ----------

  /** The handle stays open and its file keeps its bytes; reading is allowed. */
  predicate Spares(a: Abs, h: int, op: Op) {
    && h in a.handles
    && match op
       case Open(path, mode) => !(ValidPath(path) && FileName(path) == a.handles[h].name && mode.trunc)
       case Close(g) => g != h
       case Write(g, _) => g in a.handles ==> a.handles[g].name != a.handles[h].name
       case Read(_, _) => true
       case Unlink(path) => !(ValidPath(path) && FileName(path) == a.handles[h].name)
  }

  /** Every call of the run spares the handle in the state in which it is made. */
  ghost predicate SparingRun(p: Params, a: Abs, h: int, ops: seq<Op>)
    decreases ops
  {
    ops != [] ==> Spares(a, h, ops[0]) && SparingRun(p, AStep(p, a, ops[0]).0, h, ops[1..])
  }

  predicate IsRead(h: int, op: Op) {
    op.Read? && op.h == h
  }

  /** The bytes that the reads of h among the calls have returned. */
  function OutsOn(h: int, ops: seq<Op>, results: seq<Result>): seq<byte> {
    if ops == [] || results == [] then []
    else (if IsRead(h, ops[0]) then results[0].out else []) + OutsOn(h, ops[1..], results[1..])
  }

  /** How many bytes they have asked for. */
  function TotalOn(h: int, ops: seq<Op>): nat {
    if ops == [] then 0 else (if IsRead(h, ops[0]) then ops[0].len else 0) + TotalOn(h, ops[1..])
  }

  /** As many of the remaining bytes as they ask for. */
  function AskedOn(a: Abs, h: int, ops: seq<Op>): nat
    requires h in a.handles
  {
    Min(TotalOn(h, ops), Minus(|FileOf(a, h)|, a.handles[h].offset))
  }

  /** Between the two states n bytes have been read from the handle's offset on; its file and
      its name are the same. */
  ghost predicate ReadsOn(a: Abs, h: int, n: nat, last: Abs, out: seq<byte>)
    requires h in a.handles
  {
    var from := a.handles[h].offset;
    && from + n <= |FileOf(a, h)| && out == FileOf(a, h)[from..from + n]
    && h in last.handles && last.handles[h] == a.handles[h].(offset := from + n)
    && FileOf(last, h) == FileOf(a, h)
  }

  // ---------- The abstract machine ----------

  lemma ReadMoves(p: Params, a: Abs, h: int, len: nat)
    requires OpenWithin(p, a, h)
    ensures var (next, r) := ARead(a, h, len);
      OpenWithin(p, next, h) && ReadsOn(a, h, Min(len, |FileOf(a, h)| - a.handles[h].offset), next, r.out)
  {
  }

  lemma SparingOpen(p: Params, a: Abs, h: int, path: Option<cstring>, mode: Mode)
    requires OpenWithin(p, a, h) && Spares(a, h, Open(path, mode))
    ensures var next := AOpen(p, a, path, mode).0;
      OpenWithin(p, next, h) && next.handles[h] == a.handles[h] && FileOf(next, h) == FileOf(a, h)
  {
  }

  /** A call that spares the handle, and is not a read of it, does not show through it. */
  lemma SparingStep(p: Params, a: Abs, h: int, op: Op)
    requires OpenWithin(p, a, h) && Spares(a, h, op) && !IsRead(h, op)
    ensures var next := AStep(p, a, op).0;
      OpenWithin(p, next, h) && next.handles[h] == a.handles[h] && FileOf(next, h) == FileOf(a, h)
  {
    hide AOpen;
    if op.Open? {
      SparingOpen(p, a, h, op.path, op.mode);
    }
  }

  lemma ReadsCompose(a: Abs, h: int, n: nat, mid: Abs, x: seq<byte>, m: nat, last: Abs, y: seq<byte>)
    requires h in a.handles && ReadsOn(a, h, n, mid, x) && ReadsOn(mid, h, m, last, y)
    ensures ReadsOn(a, h, n + m, last, x + y)
  {
  }

  lemma FirstStep(p: Params, a: Abs, h: int, op: Op, rest: seq<Op>)
    requires OpenWithin(p, a, h) && Spares(a, h, op)
    ensures var (next, r) := AStep(p, a, op); var out := if IsRead(h, op) then r.out else [];
      && OpenWithin(p, next, h) && AskedOn(a, h, [op] + rest) >= AskedOn(next, h, rest)
      && ReadsOn(a, h, AskedOn(a, h, [op] + rest) - AskedOn(next, h, rest), next, out)
  {
    hide ARead, AOpen, AWrite, AClose, AUnlink;
    assert ([op] + rest)[1..] == rest;
    if IsRead(h, op) {
      ReadMoves(p, a, h, op.len);
    } else {
      SparingStep(p, a, h, op);
    }
  }

  /** Whatever comes between them, the reads of a handle return consecutive pieces of its
      file: together, the bytes from its offset on, as many as asked for or as there are. */
  lemma {:induction false} InterleavedReads(p: Params, a: Abs, h: int, ops: seq<Op>)
    requires OpenWithin(p, a, h) && SparingRun(p, a, h, ops)
    ensures var (last, results) := ARun(p, a, ops);
      OpenWithin(p, last, h) && ReadsOn(a, h, AskedOn(a, h, ops), last, OutsOn(h, ops, results))
    decreases ops
  {
    hide AStep, Spares, ReadsOn, FileOf, AskedOn;
    if ops == [] {
      NothingRead(p, a, h);
    } else {
      var op, rest := ops[0], ops[1..];
      assert ops == [op] + rest;
      FirstStep(p, a, h, op, rest);
      var (next, r) := AStep(p, a, op);
      InterleavedReads(p, next, h, rest);
      var (last, results) := ARun(p, next, rest);
      assert ([r] + results)[1..] == results;
      ReadsCompose(a, h, AskedOn(a, h, ops) - AskedOn(next, h, rest), next, if IsRead(h, op) then r.out else [],
        AskedOn(next, h, rest), last, OutsOn(h, rest, results));
    }
  }

  lemma NothingRead(p: Params, a: Abs, h: int)
    requires OpenWithin(p, a, h)
    ensures ReadsOn(a, h, AskedOn(a, h, []), a, [])
  {
  }

  /** Every read of the handle has returned 0. */
  ghost predicate ZeroesOn(h: int, ops: seq<Op>, results: seq<Result>) {
    |results| == |ops| && forall i :: 0 <= i < |ops| && IsRead(h, ops[i]) ==> results[i] == Result(0, [])
  }

  lemma EndStep(p: Params, a: Abs, h: int, op: Op)
    requires OpenWithin(p, a, h) && Spares(a, h, op) && a.handles[h].offset == |FileOf(a, h)|
    ensures var (next, r) := AStep(p, a, op);
      && OpenWithin(p, next, h) && next.handles[h].offset == |FileOf(next, h)|
      && (IsRead(h, op) ==> r == Result(0, []))
  {
    hide AOpen, AWrite, AClose, AUnlink;
    if !IsRead(h, op) {
      SparingStep(p, a, h, op);
    }
  }

  /** At the end of the file, 0 forever. */
  lemma {:induction false} ZeroForever(p: Params, a: Abs, h: int, ops: seq<Op>)
    requires OpenWithin(p, a, h) && SparingRun(p, a, h, ops) && a.handles[h].offset == |FileOf(a, h)|
    ensures ZeroesOn(h, ops, ARun(p, a, ops).1)
    decreases ops
  {
    hide AStep, OpenWithin, Spares, FileOf;
    if ops != [] {
      EndStep(p, a, h, ops[0]);
      ZeroForever(p, AStep(p, a, ops[0]).0, h, ops[1..]);
      var (last, results) := ARun(p, a, ops);
      forall i | 0 <= i < |ops| && IsRead(h, ops[i]) ensures results[i] == Result(0, []) {
        if i > 0 { assert ops[i] == ops[1..][i - 1] && results[i] == results[1..][i - 1]; }
      }
    }
  }

  /** The handle is at the end if and only if what has been read is all that there was. */
  lemma EndIffAllRead(a: Abs, h: int, n: nat, last: Abs, out: seq<byte>)
    requires h in a.handles && ReadsOn(a, h, n, last, out)
    ensures a.handles[h].offset <= |FileOf(a, h)|
    ensures last.handles[h].offset == |FileOf(last, h)| <==> out == FileOf(a, h)[a.handles[h].offset..]
  {
  }

  // ---------- The concrete file system ----------

  /** A handle as the tables show it. */
  lemma HandleInAlpha(fs: Fs, h: int)
    requires Consistent(fs) && fs.IsOpen(h)
    ensures RootOk(fs) && OpenWithin(fs.p, Alpha(fs), h) && Alpha(fs).handles[h].offset == fs.files[h].offset
    ensures 0 <= fs.files[h].inum < |fs.inodes| && |FileOf(Alpha(fs), h)| == fs.inodes[fs.files[h].inum].size
  {
    hide DirOk, Entries, Nodes, Handles, Ownership, NoOrphans, Dir, Files, OpenHandles;
    var j := HandleAt(fs, h);
  }

  /** A disciplined run that spares the handle and its file. */
  ghost predicate ReadingRun(p: Params, a: Abs, h: int, ops: seq<Op>) {
    DisciplinedRun(p, a, ops) && SparingRun(p, a, h, ops)
  }

  lemma ReadsAmongOthers(fs: Fs, h: int, ops: seq<Op>)
    requires Consistent(fs) && fs.IsOpen(h) && ReadingRun(fs.p, Alpha(fs), h, ops)
    ensures var run := RunOps(fs, ops); var a := Alpha(fs);
      && run.Running? && Consistent(run.fs) && run.fs.p == fs.p && RootOk(run.fs) && OpenWithin(fs.p, Alpha(run.fs), h)
      && (Alpha(run.fs), run.results) == ARun(fs.p, a, ops)
      && h in a.handles && ReadsOn(a, h, AskedOn(a, h, ops), Alpha(run.fs), OutsOn(h, ops, run.results))
  {
    hide Alpha, Consistent, RunOps, ARun, DisciplinedRun, SparingRun, ReadsOn, FileOf, AskedOn;
    HandleInAlpha(fs, h);
    RunRefines(fs, ops);
    InterleavedReads(fs.p, Alpha(fs), h, ops);
    ConsistentRoot(RunOps(fs, ops).fs);
  }

  /** Read completeness: reads that ask for at least what is left return exactly that, from the
      offset on; every read of the handle after that, in any number, returns 0. */
  lemma ReadsWholeFile(fs: Fs, h: int, ops: seq<Op>, more: seq<Op>)
    requires Consistent(fs) && fs.IsOpen(h) && ReadingRun(fs.p, Alpha(fs), h, ops)
    requires ReadingRun(fs.p, ARun(fs.p, Alpha(fs), ops).0, h, more)
    requires 0 <= fs.files[h].inum < |fs.inodes|
    requires fs.files[h].offset + TotalOn(h, ops) >= fs.inodes[fs.files[h].inum].size
    ensures var run := RunOps(fs, ops); var a := Alpha(fs);
      && run.Running? && h in a.handles && fs.files[h].offset <= |FileOf(a, h)|
      && OutsOn(h, ops, run.results) == FileOf(a, h)[fs.files[h].offset..]
      && var again := RunOps(run.fs, more); again.Running? && ZeroesOn(h, more, again.results)
  {
    hide Alpha, Consistent, RunOps, ARun, DisciplinedRun, SparingRun, ReadsOn, FileOf, OutsOn, TotalOn, ZeroesOn;
    HandleInAlpha(fs, h);
    ReadsAmongOthers(fs, h, ops);
    var a, run := Alpha(fs), RunOps(fs, ops);
    AllAsked(a, h, ops, Alpha(run.fs), OutsOn(h, ops, run.results));
    RunRefines(run.fs, more);
    ZeroForever(fs.p, Alpha(run.fs), h, more);
  }

  lemma AllAsked(a: Abs, h: int, ops: seq<Op>, last: Abs, out: seq<byte>)
    requires h in a.handles && a.handles[h].offset <= |FileOf(a, h)| <= a.handles[h].offset + TotalOn(h, ops)
    requires ReadsOn(a, h, AskedOn(a, h, ops), last, out)
    ensures out == FileOf(a, h)[a.handles[h].offset..] && last.handles[h].offset == |FileOf(last, h)|
  {
  }

  lemma ReadStepRefines(fs: Fs, h: int, len: nat)
    requires Consistent(fs) && len <= SIZE_MAX
    ensures RootOk(fs) && Apply(fs, Read(h, len)).Done? && Apply(fs, Read(h, len)).ret == ARead(Alpha(fs), h, len).1.ret
  {
    hide Alpha, Consistent, Apply, ARead;
    ConsistentRoot(fs);
    StepRefines(fs, Read(h, len));
  }

  /** Reading until 0: a read of a positive length returns 0 if and only if the reads before it
      have returned all that there was from the offset on. */
  lemma ReadUntilZero(fs: Fs, h: int, ops: seq<Op>, len: nat)
    requires Consistent(fs) && fs.IsOpen(h) && ReadingRun(fs.p, Alpha(fs), h, ops) && 0 < len <= SIZE_MAX
    ensures var run := RunOps(fs, ops); var a := Alpha(fs);
      && run.Running? && h in a.handles && fs.files[h].offset <= |FileOf(a, h)|
      && var last := Apply(run.fs, Read(h, len));
         last.Done? && (last.ret == 0 <==> OutsOn(h, ops, run.results) == FileOf(a, h)[fs.files[h].offset..])
  {
    hide Alpha, Consistent, RunOps, ARun, ReadingRun, ReadsOn, FileOf, OutsOn, AskedOn, ARead, Apply;
    HandleInAlpha(fs, h);
    ReadsAmongOthers(fs, h, ops);
    var a, run := Alpha(fs), RunOps(fs, ops);
    EndIffAllRead(a, h, AskedOn(a, h, ops), Alpha(run.fs), OutsOn(h, ops, run.results));
    ReadStepRefines(run.fs, h, len);
    ZeroAtEnd(fs.p, Alpha(run.fs), h, len);
  }

  lemma ZeroAtEnd(p: Params, a: Abs, h: int, len: nat)
    requires OpenWithin(p, a, h) && len > 0
    ensures ARead(a, h, len).1.ret == 0 <==> a.handles[h].offset == |FileOf(a, h)|
  {
  }

  /** Progress, as the tables show it: a read of a positive length returns bytes and leaves
      strictly less between of_offset and i_size, or nothing was left, and it changes nothing. */
  lemma ReadProgress(fs: Fs, h: int, len: nat)
    requires Sound(fs) && fs.IsOpen(h) && ReadsWithin(fs, h) && len > 0
    ensures fs.ValidInum(fs.files[h].inum) && ReadOp(fs, h, len).Done?
    ensures var r := ReadOp(fs, h, len); var size := fs.inodes[fs.files[h].inum].size; var left := size - fs.files[h].offset;
      if left > 0 then
        && 0 < r.ret == |r.out| && r.fs.inodes == fs.inodes && r.fs.IsOpen(h) && r.fs.files[h].inum == fs.files[h].inum
        && 0 <= size - r.fs.files[h].offset < left
      else r == Done(fs, 0, [])
  {
    hide DirOk, Entries, Nodes, Handles, Ownership, Dir, ReadOp, Content;
    ReadOutcome(fs, h, len);
    assert fs.files[h := fs.files[h]] == fs.files;
  }

  // ---------- Nothing in between ----------

  function Reads(h: int, lens: seq<nat>): (ops: seq<Op>)
    ensures |ops| == |lens|
  {
    if lens == [] then [] else [Read(h, lens[0])] + Reads(h, lens[1..])
  }

  function Outs(results: seq<Result>): seq<byte> {
    if results == [] then [] else results[0].out + Outs(results[1..])
  }

  function Total(lens: seq<nat>): nat {
    if lens == [] then 0 else lens[0] + Total(lens[1..])
  }

  lemma {:induction false} ReadsSpare(p: Params, a: Abs, h: int, lens: seq<nat>)
    requires h in a.handles && forall i :: 0 <= i < |lens| ==> lens[i] <= SIZE_MAX
    ensures ReadingRun(p, a, h, Reads(h, lens)) && TotalOn(h, Reads(h, lens)) == Total(lens)
    ensures var (last, results) := ARun(p, a, Reads(h, lens));
      && OutsOn(h, Reads(h, lens), results) == Outs(results)
      && h in last.handles && last == a.(handles := a.handles[h := last.handles[h]])
    decreases |lens|
  {
    if lens != [] {
      var ops := Reads(h, lens);
      assert ops[0] == Read(h, lens[0]) && ops[1..] == Reads(h, lens[1..]);
      var (next, r) := AStep(p, a, ops[0]);
      ReadMovesOnly(a, h, lens[0]);
      hide ARead;
      ReadsSpare(p, next, h, lens[1..]);
      var (last, results) := ARun(p, next, ops[1..]);
      assert ([r] + results)[1..] == results;
    }
  }

  lemma ReadMovesOnly(a: Abs, h: int, len: nat)
    requires h in a.handles
    ensures var next := ARead(a, h, len).0; h in next.handles && next == a.(handles := a.handles[h := next.handles[h]])
  {
    assert a.handles[h := a.handles[h]] == a.handles;
  }

  /** The reads move the handle's offset and change nothing else. */
  predicate OnlyMoves(a: Abs, h: int, n: nat, last: Abs, out: seq<byte>)
    requires h in a.handles
  {
    var from := a.handles[h].offset;
    && from + n <= |FileOf(a, h)| && out == FileOf(a, h)[from..from + n]
    && last == a.(handles := a.handles[h := a.handles[h].(offset := from + n)])
  }

  lemma ConsecutiveReads(p: Params, a: Abs, h: int, lens: seq<nat>)
    requires OpenWithin(p, a, h) && forall i :: 0 <= i < |lens| ==> lens[i] <= SIZE_MAX
    ensures DisciplinedRun(p, a, Reads(h, lens))
    ensures var (last, results) := ARun(p, a, Reads(h, lens));
      OnlyMoves(a, h, Min(Total(lens), |FileOf(a, h)| - a.handles[h].offset), last, Outs(results))
  {
    hide ARun, DisciplinedRun, SparingRun, Reads, OutsOn, Outs, FileOf, TotalOn, Total;
    ReadsSpare(p, a, h, lens);
    InterleavedReads(p, a, h, Reads(h, lens));
  }

  /** With no other call in between, the reads move the handle's offset and change nothing else. */
  lemma ReadsAreConsecutive(fs: Fs, h: int, lens: seq<nat>)
    requires Consistent(fs) && fs.IsOpen(h)
    requires forall i :: 0 <= i < |lens| ==> lens[i] <= SIZE_MAX
    ensures var run := RunOps(fs, Reads(h, lens));
      && run.Running? && Consistent(run.fs) && RootOk(fs) && RootOk(run.fs) && OpenWithin(fs.p, Alpha(fs), h)
      && OnlyMoves(Alpha(fs), h, Min(Total(lens), |FileOf(Alpha(fs), h)| - Alpha(fs).handles[h].offset),
                   Alpha(run.fs), Outs(run.results))
  {
    hide Alpha, Consistent, RunOps, ARun, DisciplinedRun, Reads, Outs, FileOf, Total, OnlyMoves;
    HandleInAlpha(fs, h);
    ConsecutiveReads(fs.p, Alpha(fs), h, lens);
    RunRefines(fs, Reads(h, lens));
    ConsistentRoot(RunOps(fs, Reads(h, lens)).fs);
  }
}
