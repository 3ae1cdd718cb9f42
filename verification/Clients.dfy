/**
 What clients rely on: chunked writes, and write-close-reopen-read round trips.  Proved of the
 abstract machine, and carried to the concrete one by refinement.
 */
module Clients {
  import opened CMemory
  import opened TfsState
  import opened TfsOperations
  import opened Invariants
  import opened Steps
  import opened AbstractFs
  import opened Refinement
  import opened Simulation
  import opened Runs

  ghost predicate OpenWithin(p: Params, a: Abs, h: int) {
    h in a.handles && a.handles[h].name in a.files && a.handles[h].offset <= |FileOf(a, h)| <= p.blockSize
  }

  // ---------- Writing in chunks ----------

  lemma OverwriteTwice(c: seq<byte>, offset: nat, x: seq<byte>, y: seq<byte>)
    requires offset <= |c|
    ensures Overwrite(Overwrite(c, offset, x), offset + |x|, y) == Overwrite(c, offset, x + y)
  {
  }

  /** Two writes through a handle are one write of both buffers, unless that one would fail. */
  lemma WriteTwice(p: Params, a: Abs, h: int, x: seq<byte>, y: seq<byte>)
    requires OpenWithin(p, a, h)
    requires AWrite(p, a, h, x + y).1.ret != -1
    ensures
      var (a1, r1) := AWrite(p, a, h, x); var (a2, r2) := AWrite(p, a1, h, y);
      && OpenWithin(p, a1, h) && r1.ret >= 0 && r2.ret >= 0
      && a2 == AWrite(p, a, h, x + y).0 && r1.ret + r2.ret == AWrite(p, a, h, x + y).1.ret
  {
    var c, name, offset := FileOf(a, h), a.handles[h].name, a.handles[h].offset;
    var room := p.blockSize - offset;
    var n := Min(|x|, room);
    var (a1, r1) := AWrite(p, a, h, x);
    if n > 0 {
      var m := Min(|y|, room - n);
      OverwriteTwice(c, offset, x[..n], y[..m]);
      if m > 0 {
        assert x[..n] + y[..m] == (x + y)[..n + m];
      } else {
        assert x[..n] == (x + y)[..n];
      }
    } else {
      assert x == [] ==> x + y == y;
    }
  }

  function Concat(chunks: seq<seq<byte>>): seq<byte> {
    if chunks == [] then [] else chunks[0] + Concat(chunks[1..])
  }

  function Sum(results: seq<Result>): int {
    if results == [] then 0 else results[0].ret + Sum(results[1..])
  }

  function Writes(h: int, chunks: seq<seq<byte>>): (ops: seq<Op>)
    ensures |ops| == |chunks|
  {
    if chunks == [] then [] else [Write(h, chunks[0])] + Writes(h, chunks[1..])
  }

  lemma {:induction false} ChunkedWrites(p: Params, a: Abs, h: int, chunks: seq<seq<byte>>)
    requires OpenWithin(p, a, h)
    requires AWrite(p, a, h, Concat(chunks)).1.ret != -1
    ensures var (last, results) := ARun(p, a, Writes(h, chunks));
      last == AWrite(p, a, h, Concat(chunks)).0 && Sum(results) == AWrite(p, a, h, Concat(chunks)).1.ret
    decreases |chunks|
  {
    if chunks != [] {
      hide AWrite, OpenWithin;
      var x, rest := chunks[0], chunks[1..];
      WriteTwice(p, a, h, x, Concat(rest));
      var ops := Writes(h, chunks);
      assert ops[0] == Write(h, x) && ops[1..] == Writes(h, rest);
      ChunkedWrites(p, AWrite(p, a, h, x).0, h, rest);
    }
  }

  lemma {:induction false} WritesDisciplined(p: Params, a: Abs, h: int, chunks: seq<seq<byte>>)
    requires forall i :: 0 <= i < |chunks| ==> |chunks[i]| <= SIZE_MAX - p.blockSize
    ensures DisciplinedRun(p, a, Writes(h, chunks))
    decreases |chunks|
  {
    if chunks != [] {
      var ops := Writes(h, chunks);
      assert ops[0] == Write(h, chunks[0]) && ops[1..] == Writes(h, chunks[1..]);
      WritesDisciplined(p, AStep(p, a, ops[0]).0, h, chunks[1..]);
    }
  }

  lemma {:induction false} ConcatBounds(chunks: seq<seq<byte>>)
    ensures forall i :: 0 <= i < |chunks| ==> |chunks[i]| <= |Concat(chunks)|
  {
    if chunks != [] {
      ConcatBounds(chunks[1..]);
      forall i | 0 <= i < |chunks| ensures |chunks[i]| <= |Concat(chunks)| {
        if i > 0 { assert chunks[i] == chunks[1..][i - 1]; }
      }
    }
  }

  /** Write chunking: on the concrete file system, the chunks give the contents, the offset
      and the byte count of one write of their concatenation. */
  lemma WriteChunking(fs: Fs, h: int, chunks: seq<seq<byte>>)
    requires Consistent(fs) && fs.IsOpen(h) && |Concat(chunks)| <= SIZE_MAX - fs.p.blockSize
    requires Apply(fs, Write(h, Concat(chunks))).Done? && Apply(fs, Write(h, Concat(chunks))).ret != -1
    ensures var run := RunOps(fs, Writes(h, chunks)); var whole := Apply(fs, Write(h, Concat(chunks)));
      && run.Running? && RootOk(run.fs) && RootOk(whole.fs)
      && Alpha(run.fs) == Alpha(whole.fs) && Sum(run.results) == whole.ret
  {
    hide Alpha, Consistent, Apply, AWrite, DisciplinedRun, RunOps, ARun, Writes, Concat, Sum;
    OpenIsWithin(fs, h);
    StepRefines(fs, Write(h, Concat(chunks)));
    ConcatBounds(chunks);
    WritesDisciplined(fs.p, Alpha(fs), h, chunks);
    RunRefines(fs, Writes(h, chunks));
    ChunkedWrites(fs.p, Alpha(fs), h, chunks);
    ConsistentRoot(RunOps(fs, Writes(h, chunks)).fs);
  }

  lemma OpenIsWithin(fs: Fs, h: int)
    requires Consistent(fs) && fs.IsOpen(h)
    ensures RootOk(fs) && OpenWithin(fs.p, Alpha(fs), h)
  {
    hide Files, OpenHandles, DirOk, Entries, Nodes, Handles, Ownership, NoOrphans, Dir;
    var j := HandleAt(fs, h);
  }

  // ---------- Write, close, reopen, read ----------

  /** The file after data has been written through a handle just opened in the given mode. */
  function Written(c: seq<byte>, mode: Mode, data: seq<byte>, blockSize: nat): seq<byte> {
    if mode.trunc then data[..Min(|data|, blockSize)]
    else if mode.append then (c + data)[..Min(|c + data|, if blockSize < |c| then |c| else blockSize)]
    else
      var d := data[..Min(|data|, blockSize)];
      if |d| < |c| then d + c[|d|..] else d
  }

  /** The bytes under a path, none when it names no file. */
  function BytesAt(a: Abs, path: Option<cstring>): seq<byte> {
    if Names(a, path) then a.files[FileName(path)] else []
  }

  /** What an open that succeeds does, of a file that exists or of one that it creates. */
  lemma OpenedFile(p: Params, a: Abs, path: Option<cstring>, mode: Mode)
    requires WellFormed(p, a)
    ensures var (a1, r1) := AOpen(p, a, path, mode);
      var c := if mode.trunc then [] else BytesAt(a, path);
      r1.ret >= 0 ==>
        && ValidPath(path) && r1.ret !in a.handles
        && a1 == Abs(a.files[FileName(path) := c],
                     a.handles[r1.ret := Handle(FileName(path), if mode.append then |c| else 0)])
  {
  }

  /** What a write that succeeds does, also when it writes nothing. */
  lemma WrittenFile(p: Params, a: Abs, h: int, data: seq<byte>)
    requires OpenWithin(p, a, h) && AWrite(p, a, h, data).1.ret >= 0
    ensures var name := a.handles[h].name; var offset := a.handles[h].offset;
      var n := Min(|data|, p.blockSize - offset);
      AWrite(p, a, h, data).0 == Abs(a.files[name := Overwrite(FileOf(a, h), offset, data[..n])],
                                     a.handles[h := Handle(name, offset + n)])
  {
    var name, offset := a.handles[h].name, a.handles[h].offset;
    if Min(|data|, p.blockSize - offset) == 0 {
      assert Overwrite(FileOf(a, h), offset, data[..0]) == FileOf(a, h);
      assert a.files[name := a.files[name]] == a.files && a.handles[h := a.handles[h]] == a.handles;
    }
  }

  /** Opening and writing through the new handle, in each mode. */
  lemma OpenThenWrite(p: Params, a: Abs, path: Option<cstring>, mode: Mode, data: seq<byte>)
    requires WellFormed(p, a)
    ensures
      var (a1, r1) := AOpen(p, a, path, mode);
      var (a2, r2) := AWrite(p, a1, r1.ret, data);
      r1.ret >= 0 && r2.ret >= 0 ==>
        && ValidPath(path)
        && a2.files == a.files[FileName(path) := Written(BytesAt(a, path), mode, data, p.blockSize)]
        && r1.ret !in a.handles && a2.handles.Keys == a.handles.Keys + {r1.ret}
  {
    hide *;
    BytesFit(p, a, path);
    OpenedFile(p, a, path, mode);
    var (a1, r1) := AOpen(p, a, path, mode);
    if r1.ret >= 0 && AWrite(p, a1, r1.ret, data).1.ret >= 0 {
      WrittenIsOverwrite(BytesAt(a, path), mode, data, p.blockSize);
      var c := if mode.trunc then [] else BytesAt(a, path);
      WriteOpened(p, a, FileName(path), c, r1.ret, if mode.append then |c| else 0, data);
    }
  }

  lemma WriteOpened(p: Params, a: Abs, name: cstring, c: seq<byte>, h: int, offset: nat, data: seq<byte>)
    requires offset <= |c| <= p.blockSize
    ensures
      var a1 := Abs(a.files[name := c], a.handles[h := Handle(name, offset)]); var (a2, r2) := AWrite(p, a1, h, data);
      r2.ret >= 0 ==>
        && a2.files == a.files[name := Overwrite(c, offset, data[..Min(|data|, p.blockSize - offset)])]
        && a2.handles.Keys == a.handles.Keys + {h}
  {
    hide AWrite, Overwrite;
    var a1 := Abs(a.files[name := c], a.handles[h := Handle(name, offset)]);
    if AWrite(p, a1, h, data).1.ret >= 0 {
      WrittenFile(p, a1, h, data);
    }
  }

  lemma BytesFit(p: Params, a: Abs, path: Option<cstring>)
    requires WellFormed(p, a)
    ensures |BytesAt(a, path)| <= p.blockSize
  {
  }

  lemma WrittenIsOverwrite(before: seq<byte>, mode: Mode, data: seq<byte>, blockSize: nat)
    requires |before| <= blockSize
    ensures var c := if mode.trunc then [] else before; var offset := if mode.append then |c| else 0;
      Overwrite(c, offset, data[..Min(|data|, blockSize - offset)]) == Written(before, mode, data, blockSize)
  {
  }

  /** The round trip: write through a handle in some mode, to a file that exists or that the
      open creates, close it, reopen the file, read it. */
  lemma RoundTrip(p: Params, a: Abs, path: Option<cstring>, mode: Mode, data: seq<byte>)
    requires WellFormed(p, a)
    ensures
      var (a1, r1) := AOpen(p, a, path, mode);
      var (a2, r2) := AWrite(p, a1, r1.ret, data);
      var (a3, r3) := AClose(a2, r1.ret);
      var (a4, r4) := AOpen(p, a3, path, Mode(false, false, false));
      r1.ret >= 0 && r2.ret >= 0 ==>
        r3.ret == 0 && r4.ret >= 0
        && ARead(a4, r4.ret, p.blockSize).1.out == Written(BytesAt(a, path), mode, data, p.blockSize)
  {
    hide AWrite, Written, AOpen;
    OpenThenWrite(p, a, path, mode, data);
    BytesFit(p, a, path);
    WrittenFits(BytesAt(a, path), mode, data, p.blockSize);
    OpenedBelow(p, a, path, mode);
    var (a1, r1) := AOpen(p, a, path, mode);
    var (a2, r2) := AWrite(p, a1, r1.ret, data);
    if r1.ret >= 0 && r2.ret >= 0 {
      var a3 := AClose(a2, r1.ret).0;
      assert r1.ret !in a3.handles;
      CloseReopenRead(p, a3, path);
    }
  }

  lemma OpenedBelow(p: Params, a: Abs, path: Option<cstring>, mode: Mode)
    ensures AOpen(p, a, path, mode).1.ret < p.handleCount
  {
  }

  /** Reopening a file and reading a block returns all of it. */
  lemma CloseReopenRead(p: Params, a: Abs, path: Option<cstring>)
    requires Names(a, path) && |a.files[FileName(path)]| <= p.blockSize
    requires LeastAbsent(a.handles.Keys, 0, p.handleCount) != -1
    ensures var (a1, r1) := AOpen(p, a, path, Mode(false, false, false));
      r1.ret >= 0 && ARead(a1, r1.ret, p.blockSize).1.out == a.files[FileName(path)]
  {
  }

  lemma WrittenFits(c: seq<byte>, mode: Mode, data: seq<byte>, blockSize: nat)
    requires |c| <= blockSize
    ensures |Written(c, mode, data, blockSize)| <= blockSize
  {
  }

  /** The same round trip on the concrete file system. */
  lemma ConcreteRoundTrip(fs: Fs, path: Option<cstring>, mode: Mode, data: seq<byte>)
    requires Consistent(fs) && Disciplined(fs, Open(path, mode))
    requires |data| <= SIZE_MAX - fs.p.blockSize
    requires var o1 := Apply(fs, Open(path, mode));
      o1.Done? && o1.ret >= 0 && var o2 := Apply(o1.fs, Write(o1.ret, data)); o2.Done? && o2.ret >= 0
    ensures
      var o1 := Apply(fs, Open(path, mode));
      var o2 := Apply(o1.fs, Write(o1.ret, data));
      var o3 := Apply(o2.fs, Close(o1.ret));
      && o3.Done?
      && var o4 := Apply(o3.fs, Open(path, Mode(false, false, false)));
         o4.Done? && var o5 := Apply(o4.fs, Read(o4.ret, fs.p.blockSize));
         o5.Done? && o5.out == Written(BytesAt(Alpha(fs), path), mode, data, fs.p.blockSize)
  {
    hide Alpha, DirOk, Entries, Nodes, Handles, Ownership, HandlesLive, NoOrphans, Dir, Apply, Disciplined,
      Written, AOpen, AWrite, AClose, ARead, WellFormed, BytesAt;
    AlphaWellFormed(fs);
    DisciplineIsAbstract(fs, Open(path, mode));
    StepRefines(fs, Open(path, mode));
    var o1 := Apply(fs, Open(path, mode));
    StepRefines(o1.fs, Write(o1.ret, data));
    var o2 := Apply(o1.fs, Write(o1.ret, data));
    StepRefines(o2.fs, Close(o1.ret));
    var o3 := Apply(o2.fs, Close(o1.ret));
    StepRefines(o3.fs, Open(path, Mode(false, false, false)));
    var o4 := Apply(o3.fs, Open(path, Mode(false, false, false)));
    StepRefines(o4.fs, Read(o4.ret, fs.p.blockSize));
    RoundTrip(fs.p, Alpha(fs), path, mode, data);
  }
}
