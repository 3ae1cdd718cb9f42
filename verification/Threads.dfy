/**
 What the threads themselves observe: under any schedule the results they get are those of the
 abstract machine, and a thread that alone reads through a handle gets its file, whatever the
 others do in between.
 */
module Threads {
  import opened TfsState
  import opened TfsOperations
  import opened Invariants
  import opened Steps
  import opened AbstractFs
  import opened Refinement
  import opened Runs
  import opened Clients
  import opened Reading
  import opened Linearization

  /** The calls in the order in which they took the mutex. */
  function Calls(log: seq<Entry>): (ops: seq<Op>)
    ensures |ops| == |log| && forall i :: 0 <= i < |log| ==> ops[i] == log[i].op
  {
    seq(|log|, i requires 0 <= i < |log| => log[i].op)
  }

  lemma {:induction false} RunOneMore(fs: Fs, ops: seq<Op>, op: Op)
    ensures RunOps(fs, ops + [op]) ==
      match RunOps(fs, ops)
      case Crashed => Crashed
      case Running(mid, results) =>
        match Apply(mid, op)
        case Panic => Crashed
        case Done(last, ret, out) => Running(last, results + [Result(ret, out)])
    decreases ops
  {
    hide Apply;
    if ops == [] {
      assert [] + [op] == [op] && [op][1..] == [];
    } else {
      assert (ops + [op])[0] == ops[0] && (ops + [op])[1..] == ops[1..] + [op];
      if Apply(fs, ops[0]).Done? {
        RunOneMore(Apply(fs, ops[0]).fs, ops[1..], op);
      }
    }
  }

  /** Whole operations in the order of the log are a run of its calls. */
  lemma {:induction false} InOrderIsRun(fs: Fs, log: seq<Entry>)
    ensures InOrder(fs, log) ==
      match RunOps(fs, Calls(log)) case Crashed => Broken case Running(last, results) => Sequential(last, results)
  {
    hide Apply;
    if log == [] {
      assert Calls(log) == [];
    } else {
      var n := |log| - 1;
      InOrderIsRun(fs, log[..n]);
      assert Calls(log) == Calls(log[..n]) + [log[n].op];
      RunOneMore(fs, Calls(log[..n]), log[n].op);
    }
  }

  /** Linearization and refinement together: if the calls that have taken the mutex and ended
      are, in that order, a disciplined run, then every thread has got the results of the
      abstract machine, and a free mutex leaves its state. */
  lemma ThreadsRefine(fs: Fs, scripts: seq<seq<Op>>, schedule: seq<nat>)
    requires Consistent(fs)
    requires DisciplinedRun(fs.p, Alpha(fs), Calls(Completed(Execute(StartSystem(fs, scripts), schedule))))
    ensures var s := Execute(StartSystem(fs, scripts), schedule);
      var (last, results) := ARun(fs.p, Alpha(fs), Calls(Completed(s)));
      && |results| == |Completed(s)|
      && (forall t :: 0 <= t < |s.threads| ==> s.threads[t].results == ResultsOf(Completed(s), results, t))
      && (s.holder.None? ==> Consistent(s.fs) && RootOk(s.fs) && Alpha(s.fs) == last)
  {
    hide Consistent, Alpha, Execute, StartSystem, DisciplinedRun, ARun, RunOps, InOrder, ResultsOf, Completed,
      HolderOk, InProgramOrder;
    var s := Execute(StartSystem(fs, scripts), schedule);
    EveryInterleavingIsSequential(fs, scripts, schedule);
    InOrderIsRun(fs, Completed(s));
    RunRefines(fs, Calls(Completed(s)));
    ConsistentRoot(RunOps(fs, Calls(Completed(s))).fs);
  }

  // ---------- One thread's reads ----------

  /** No other thread reads through the handle. */
  predicate OnlyReader(log: seq<Entry>, h: int, t: nat) {
    forall i :: 0 <= i < |log| && IsRead(h, log[i].op) ==> log[i].thread == t
  }

  lemma {:induction false} OnConcat(h: int, x: seq<Op>, xs: seq<Result>, y: seq<Op>, ys: seq<Result>)
    requires |x| == |xs|
    ensures OutsOn(h, x + y, xs + ys) == OutsOn(h, x, xs) + OutsOn(h, y, ys)
    ensures TotalOn(h, x + y) == TotalOn(h, x) + TotalOn(h, y)
    decreases x
  {
    if x == [] {
      assert x + y == y && xs + ys == ys;
    } else {
      assert (x + y)[0] == x[0] && (x + y)[1..] == x[1..] + y;
      assert (xs + ys)[0] == xs[0] && (xs + ys)[1..] == xs[1..] + ys;
      OnConcat(h, x[1..], xs[1..], y, ys);
      var first := if IsRead(h, x[0]) then xs[0].out else [];
      assert first + (OutsOn(h, x[1..], xs[1..]) + OutsOn(h, y, ys)) == (first + OutsOn(h, x[1..], xs[1..])) + OutsOn(h, y, ys);
    }
  }

  lemma OnOne(h: int, op: Op, r: Result)
    ensures OutsOn(h, [op], [r]) == if IsRead(h, op) then r.out else []
    ensures TotalOn(h, [op]) == if IsRead(h, op) then op.len else 0
  {
    assert [op][1..] == [];
  }

  lemma {:induction false} SameLength(log: seq<Entry>, results: seq<Result>, t: nat)
    requires |results| == |log|
    ensures |ResultsOf(log, results, t)| == |OpsOf(log, t)|
  {
    if log != [] { SameLength(log[..|log| - 1], results[..|log| - 1], t); }
  }

  /** The only reader of a handle has got all the bytes that reads of it have returned. */
  lemma {:induction false} OnlyReaderGetsAll(log: seq<Entry>, results: seq<Result>, h: int, t: nat)
    requires |results| == |log| && OnlyReader(log, h, t)
    ensures OutsOn(h, OpsOf(log, t), ResultsOf(log, results, t)) == OutsOn(h, Calls(log), results)
    ensures TotalOn(h, OpsOf(log, t)) == TotalOn(h, Calls(log))
  {
    if log == [] {
      assert Calls(log) == [];
    } else {
      hide OutsOn, TotalOn;
      var n := |log| - 1;
      var front, rs, op := log[..n], results[..n], log[n].op;
      OnlyReaderGetsAll(front, rs, h, t);
      assert Calls(log) == Calls(front) + [op] && results == rs + [results[n]];
      OnConcat(h, Calls(front), rs, [op], [results[n]]);
      OnOne(h, op, results[n]);
      SameLength(front, rs, t);
      if log[n].thread == t {
        OnConcat(h, OpsOf(front, t), ResultsOf(front, rs, t), [op], [results[n]]);
      } else {
        assert !IsRead(h, log[n].op);
        assert OutsOn(h, Calls(front), rs) + [] == OutsOn(h, Calls(front), rs);
        assert OpsOf(log, t) == OpsOf(front, t) && ResultsOf(log, results, t) == ResultsOf(front, rs, t);
      }
    }
  }

  lemma {:induction false} RestOfResults(log: seq<Entry>, results: seq<Result>, k: nat, t: nat)
    requires |results| == |log| && k <= |log|
    ensures ResultsOf(log, results, t) == ResultsOf(log[..k], results[..k], t) + ResultsOf(log[k..], results[k..], t)
  {
    if k == |log| {
      assert log[..k] == log && results[..k] == results;
    } else {
      var n := |log| - 1;
      RestOfResults(log[..n], results[..n], k, t);
      assert log[..n][..k] == log[..k] && results[..n][..k] == results[..k];
      assert log[k..][..n - k] == log[..n][k..] && results[k..][..n - k] == results[..n][k..];
    }
  }

  lemma {:induction false} RunInParts(p: Params, a: Abs, x: seq<Op>, y: seq<Op>)
    requires DisciplinedRun(p, a, x + y)
    ensures DisciplinedRun(p, a, x) && DisciplinedRun(p, ARun(p, a, x).0, y)
    ensures |ARun(p, a, x).1| == |x|
    ensures ARun(p, a, x + y) == (ARun(p, ARun(p, a, x).0, y).0, ARun(p, a, x).1 + ARun(p, ARun(p, a, x).0, y).1)
    decreases x
  {
    hide AStep, ADisciplined, FitsSizeT;
    if x == [] {
      assert x + y == y && [] + ARun(p, a, y).1 == ARun(p, a, y).1;
    } else {
      assert (x + y)[0] == x[0] && (x + y)[1..] == x[1..] + y;
      var (next, r) := AStep(p, a, x[0]);
      RunInParts(p, next, x[1..], y);
      var (mid, xs) := ARun(p, next, x[1..]);
      assert ARun(p, a, x) == (mid, [r] + xs);
      assert [r] + (xs + ARun(p, mid, y).1) == ([r] + xs) + ARun(p, mid, y).1;
    }
  }

  /** From an abstract state on, the calls of the log spare the open handle and its file, and
      only thread t reads through it. */
  ghost predicate SoleReader(p: Params, a: Abs, log: seq<Entry>, h: int, t: nat) {
    h in a.handles && OnlyReader(log, h, t) && SparingRun(p, a, h, Calls(log))
  }

  lemma ReachedHandle(fs: Fs, ops: seq<Op>, h: int)
    requires Consistent(fs) && DisciplinedRun(fs.p, Alpha(fs), ops) && h in ARun(fs.p, Alpha(fs), ops).0.handles
    ensures OpenWithin(fs.p, ARun(fs.p, Alpha(fs), ops).0, h)
  {
    hide Consistent, Alpha, DisciplinedRun, ARun, RunOps, OpenWithin;
    RunRefines(fs, ops);
    var last := RunOps(fs, ops).fs;
    ConsistentRoot(last);
    HandleIsOpen(last, h);
    HandleInAlpha(last, h);
  }

  /** The same on the log alone. */
  lemma LogReadsFile(fs: Fs, log: seq<Entry>, results: seq<Result>, k: nat, h: int, t: nat)
    requires Consistent(fs) && DisciplinedRun(fs.p, Alpha(fs), Calls(log)) && results == ARun(fs.p, Alpha(fs), Calls(log)).1
    requires k <= |log| && SoleReader(fs.p, ARun(fs.p, Alpha(fs), Calls(log[..k])).0, log[k..], h, t)
    ensures |results| == |log|
    ensures var since, got := OpsOf(log[k..], t), ResultsOf(log, results, t);
      var a := ARun(fs.p, Alpha(fs), Calls(log[..k])).0; var from := a.handles[h].offset;
      && |since| <= |got| && from <= |FileOf(a, h)|
      && OutsOn(h, since, got[|got| - |since|..])
         == FileOf(a, h)[from..from + Min(TotalOn(h, since), |FileOf(a, h)| - from)]
  {
    hide Consistent, Alpha, DisciplinedRun, SparingRun, ARun, OutsOn, TotalOn, FileOf, OpsOf, ResultsOf, OnlyReader;
    ConsistentRoot(fs);
    var p := fs.p;
    var x, y := Calls(log[..k]), Calls(log[k..]);
    assert Calls(log) == x + y;
    RunInParts(p, Alpha(fs), x, y);
    var a := ARun(p, Alpha(fs), x).0;
    ReachedHandle(fs, x, h);
    InterleavedReads(p, a, h, y);
    RunLength(p, a, y);
    var rest := ARun(p, a, y).1;
    assert results[k..] == rest;
    RestOfResults(log, results, k, t);
    SameLength(log[k..], rest, t);
    OnlyReaderGetsAll(log[k..], rest, h, t);
    var got, mine := ResultsOf(log, results, t), ResultsOf(log[k..], rest, t);
    assert got[|got| - |mine|..] == mine;
  }

  lemma {:induction false} RunLength(p: Params, a: Abs, ops: seq<Op>)
    ensures |ARun(p, a, ops).1| == |ops|
    decreases ops
  {
    hide AStep;
    if ops != [] { RunLength(p, AStep(p, a, ops[0]).0, ops[1..]); }
  }

  /** Read completeness among threads.  Let h be open after the first k calls, and from then on
      every call spare h and its file and only thread t read through h.  Then the results of
      t's calls since then hold the bytes of the file from the offset that h had, as many as t
      has asked for or as there are, however the schedule mixes in the other threads. */
  lemma ThreadReadsFile(fs: Fs, scripts: seq<seq<Op>>, schedule: seq<nat>, k: nat, h: int, t: nat)
    requires Consistent(fs) && t < |Execute(StartSystem(fs, scripts), schedule).threads|
    requires var log := Completed(Execute(StartSystem(fs, scripts), schedule));
      && DisciplinedRun(fs.p, Alpha(fs), Calls(log))
      && k <= |log| && SoleReader(fs.p, ARun(fs.p, Alpha(fs), Calls(log[..k])).0, log[k..], h, t)
    ensures var s := Execute(StartSystem(fs, scripts), schedule); var log := Completed(s);
      var since, got := OpsOf(log[k..], t), s.threads[t].results;
      var a := ARun(fs.p, Alpha(fs), Calls(log[..k])).0; var from := a.handles[h].offset;
      && |since| <= |got| && from <= |FileOf(a, h)|
      && OutsOn(h, since, got[|got| - |since|..])
         == FileOf(a, h)[from..from + Min(TotalOn(h, since), |FileOf(a, h)| - from)]
  {
    hide Consistent, Alpha, DisciplinedRun, SparingRun, ARun, OutsOn, TotalOn, FileOf, OpsOf, ResultsOf, OnlyReader,
      Execute, StartSystem, Completed;
    ConsistentRoot(fs);
    ThreadsRefine(fs, scripts, schedule);
    var log := Completed(Execute(StartSystem(fs, scripts), schedule));
    LogReadsFile(fs, log, ARun(fs.p, Alpha(fs), Calls(log)).1, k, h, t);
  }
}
