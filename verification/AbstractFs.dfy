/**
 What a client of TecnicoFS is meant to see: a map from names to byte strings, and handles
 with a name and an offset.  No inode, block or record appears here; of the parameters only
 the sizes of the tables matter.
 */
module AbstractFs {
  import opened CMemory
  import opened TfsState
  import opened TfsOperations

  datatype Handle = Handle(name: cstring, offset: nat)
  datatype Abs = Abs(files: map<cstring, seq<byte>>, handles: map<int, Handle>)
  datatype Result = Result(ret: int, out: seq<byte>)

  const EMPTY := Abs(map[], map[])

  predicate Names(a: Abs, path: Option<cstring>) {
    ValidPath(path) && FileName(path) in a.files
  }

  function NonEmptyNames(a: Abs): set<cstring> {
    set n | n in a.files && a.files[n] != []
  }

  /** The contents behind a handle. */
  function FileOf(a: Abs, h: int): seq<byte>
    requires h in a.handles
  {
    if a.handles[h].name in a.files then a.files[a.handles[h].name] else []
  }

  function Min(a: nat, b: nat): nat { if a <= b then a else b }

  function Minus(a: nat, b: nat): nat { if a <= b then 0 else a - b }

  /** The least number in [from, count) that is not in s, or -1. */
  function LeastAbsent(s: set<int>, from: nat, count: nat): (r: int)
    requires from <= count
    ensures r == -1 || (from <= r < count && r !in s)
    ensures forall i :: from <= i < (if r == -1 then count else r) ==> i in s
    decreases count - from
  {
    if from == count then -1 else if from !in s then from else LeastAbsent(s, from + 1, count)
  }

  /** c with b stored at the given offset, growing c when b ends past it. */
  function Overwrite(c: seq<byte>, offset: nat, b: seq<byte>): (r: seq<byte>)
    requires offset <= |c|
    ensures |r| == if offset + |b| > |c| then offset + |b| else |c|
  {
    c[..offset] + b + (if offset + |b| < |c| then c[offset + |b|..] else [])
  }

  function AddHandle(p: Params, a: Abs, name: cstring, offset: nat): (Abs, Result) {
    var h := LeastAbsent(a.handles.Keys, 0, p.handleCount);
    if h == -1 then (a, Result(-1, []))
    else (a.(handles := a.handles[h := Handle(name, offset)]), Result(h, []))
  }

  function AOpen(p: Params, a: Abs, path: Option<cstring>, mode: Mode): (Abs, Result) {
    if Names(a, path) then
      var name := FileName(path);
      var cut := if mode.trunc then a.(files := a.files[name := []]) else a;
      AddHandle(p, cut, name, if mode.append then |cut.files[name]| else 0)
    else if ValidPath(path) && mode.creat && |FileName(path)| < MAX_FILE_NAME
            && |a.files| + 1 < p.inodeCount && ENTRY_SIZE * (|a.files| + 1) <= p.blockSize then
      AddHandle(p, a.(files := a.files[FileName(path) := []]), FileName(path), 0)
    else (a, Result(-1, []))
  }

  function AClose(a: Abs, h: int): (Abs, Result) {
    if h !in a.handles then (a, Result(-1, [])) else (a.(handles := a.handles - {h}), Result(0, []))
  }

  function AWrite(p: Params, a: Abs, h: int, buffer: seq<byte>): (Abs, Result) {
    if h !in a.handles then (a, Result(-1, []))
    else
      var c, name, offset := FileOf(a, h), a.handles[h].name, a.handles[h].offset;
      var n := Min(|buffer|, Minus(p.blockSize, offset));
      if n == 0 || offset > |c| then (a, Result(0, []))
      else if c == [] && |NonEmptyNames(a)| + 1 == p.blockCount then (a, Result(-1, []))
      else (Abs(a.files[name := Overwrite(c, offset, buffer[..n])], a.handles[h := Handle(name, offset + n)]), Result(n, []))
  }

  function ARead(a: Abs, h: int, len: nat): (Abs, Result) {
    if h !in a.handles then (a, Result(-1, []))
    else
      var c, offset := FileOf(a, h), a.handles[h].offset;
      var n := Min(len, Minus(|c|, offset));
      if n == 0 then (a, Result(0, []))
      else (a.(handles := a.handles[h := a.handles[h].(offset := offset + n)]), Result(n, c[offset..offset + n]))
  }

  function AUnlink(a: Abs, path: Option<cstring>): (Abs, Result) {
    if Names(a, path) then (a.(files := a.files - {FileName(path)}), Result(0, [])) else (a, Result(-1, []))
  }

  function AStep(p: Params, a: Abs, op: Op): (Abs, Result) {
    match op
    case Open(path, mode) => AOpen(p, a, path, mode)
    case Close(h) => AClose(a, h)
    case Write(h, buffer) => AWrite(p, a, h, buffer)
    case Read(h, len) => ARead(a, h, len)
    case Unlink(path) => AUnlink(a, path)
  }

  /** The discipline in the client's own terms. */
  ghost predicate ADisciplined(a: Abs, op: Op) {
    match op
    case Unlink(path) =>
      Names(a, path) ==> forall h :: h in a.handles ==> a.handles[h].name != FileName(path)
    case Open(path, mode) =>
      Names(a, path) && mode.trunc ==>
        forall h :: h in a.handles && a.handles[h].name == FileName(path) ==> a.handles[h].offset == 0
    case _ => true
  }

  /** Names have 1 to 39 bytes, contents fit a block, handles are within the files they name. */
  ghost predicate WellFormed(p: Params, a: Abs) {
    && (forall n :: n in a.files ==> 1 <= |n| < MAX_FILE_NAME && |a.files[n]| <= p.blockSize)
    && (forall h :: h in a.handles ==>
          0 <= h < p.handleCount && a.handles[h].name in a.files
          && a.handles[h].offset <= |a.files[a.handles[h].name]|)
    && |a.files| + 1 <= p.inodeCount && ENTRY_SIZE * |a.files| <= p.blockSize && |NonEmptyNames(a)| + 1 <= p.blockCount
  }
}
