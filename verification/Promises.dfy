/**
 What each call promises its caller, said outright: in the bytes of the path, the map from
 names to byte strings, the open handles, and numbers.  Neither the operations nor the
 abstract machine are used to say it, so that each is checked against something else.
 */
module Promises {
  import opened CMemory
  import opened TfsState
  import opened TfsOperations
  import opened Invariants
  import opened Steps
  import opened AbstractFs
  import opened Refinement
  import opened Counting
  import opened Simulation
  import opened Runs
  import opened Clients
  import opened Reading

  // ---------- Paths ----------

  /** No path, or one shorter than two bytes or without a leading slash, names anything. */
  lemma BadPathFails(fs: Fs, path: Option<cstring>, mode: Mode)
    requires path.None? || |path.value| < 2 || path.value[0] != 47
    ensures OpenOp(fs, path, mode) == Done(fs, -1, []) && UnlinkOp(fs, path) == Done(fs, -1, [])
  {
  }

  /** The path of a name. */
  function PathTo(n: cstring): (path: Option<cstring>)
    ensures path.Some? && path.value == [47] + n
  {
    Some([47] + n)
  }

  /** Every other path is a slash and a name, and means that name. */
  lemma PathMeansName(n: cstring)
    requires n != []
    ensures ValidPath(PathTo(n)) && FileName(PathTo(n)) == n
  {
  }

  // ---------- Open ----------

  /** A new handle of n at the given offset: the least one not open.  With as many open as there
      are entries, -1 and none. */
  predicate HandsOut(p: Params, before: map<int, Handle>, after: map<int, Handle>, ret: int, n: cstring, offset: nat) {
    if |before| == p.handleCount then ret == -1 && after == before
    else
      && 0 <= ret < p.handleCount && ret !in before && (forall g :: 0 <= g < ret ==> g in before)
      && after == before[ret := Handle(n, offset)]
  }

  lemma AddHandleHandsOut(fs: Fs, a: Abs, n: cstring, offset: nat)
    requires Consistent(fs) && a.handles == Alpha(fs).handles
    ensures var (b, r) := AddHandle(fs.p, a, n, offset);
      HandsOut(fs.p, a.handles, b.handles, r.ret, n, offset) && b.files == a.files && r.out == []
  {
    hide Alpha, Consistent, HandlesFull;
    ConsistentRoot(fs);
    NoHandleLeft(fs);
    HandlesFullMeans(fs);
  }

  lemma HandlesFullMeans(fs: Fs)
    requires RootOk(fs)
    ensures HandlesFull(fs.p, Alpha(fs)) <==> |Alpha(fs).handles| == fs.p.handleCount
  {
  }

  /** Opening a file that is there, in any mode: truncation empties it, and the handle starts at
      its end in append mode and at 0 otherwise. */
  lemma OpenNamed(fs: Fs, n: cstring, mode: Mode)
    requires Consistent(fs) && n in Alpha(fs).files
    ensures var r := OpenOp(fs, PathTo(n), mode);
      && r.Done? && RootOk(r.fs) && r.out == []
      && var a, b := Alpha(fs), Alpha(r.fs); var c := if mode.trunc then [] else a.files[n];
         && b.files == a.files[n := c]
         && HandsOut(fs.p, a.handles, b.handles, r.ret, n, if mode.append then |c| else 0)
  {
    hide Alpha, Consistent, OpenOp, AddHandle, AOpen, HandsOut;
    NameIsNotEmpty(fs, n);
    OpenRefines(fs, PathTo(n), mode);
    var a := Alpha(fs);
    var c := if mode.trunc then [] else a.files[n];
    AOpenNamed(fs.p, a, n, mode);
    AddHandleHandsOut(fs, a.(files := a.files[n := c]), n, if mode.append then |c| else 0);
  }

  lemma AOpenNamed(p: Params, a: Abs, n: cstring, mode: Mode)
    requires n != [] && n in a.files
    ensures var c := if mode.trunc then [] else a.files[n];
      AOpen(p, a, PathTo(n), mode) == AddHandle(p, a.(files := a.files[n := c]), n, if mode.append then |c| else 0)
  {
    hide AddHandle, FileName;
    PathMeansName(n);
    assert a.files[n := a.files[n]] == a.files;
  }

  lemma NameIsNotEmpty(fs: Fs, n: cstring)
    requires Consistent(fs) && n in Alpha(fs).files
    ensures RootOk(fs) && n != []
  {
    hide Alpha, DirOk, Entries, Nodes, Handles, Ownership, HandlesLive, NoOrphans, Dir;
    NameBounds(fs, n);
  }

  /** Opening a name that is not there creates the file exactly when it is asked to, the name
      has at most 39 bytes, an inode is left and one more 44-byte record fits the root's block;
      otherwise it returns -1 and nothing shows. */
  lemma OpenUnnamed(fs: Fs, n: cstring, mode: Mode)
    requires Consistent(fs) && n != [] && n !in Alpha(fs).files
    ensures var r := OpenOp(fs, PathTo(n), mode);
      && r.Done? && RootOk(r.fs) && r.out == []
      && var a, b := Alpha(fs), Alpha(r.fs);
         if mode.creat && |n| <= 39 && |a.files| + 1 < fs.p.inodeCount && (|a.files| + 1) * 44 <= fs.p.blockSize then
           b.files == a.files[n := []] && HandsOut(fs.p, a.handles, b.handles, r.ret, n, 0)
         else r.ret == -1 && b == a
  {
    hide Alpha, Consistent, OpenOp, AddHandle;
    ConsistentRoot(fs);
    PathMeansName(n);
    OpenRefines(fs, PathTo(n), mode);
    AddHandleHandsOut(fs, Alpha(fs).(files := Alpha(fs).files[n := []]), n, 0);
  }

  // ---------- Unlink ----------

  /** On any sound state, unlink returns 0 exactly for a name that is there, and otherwise -1
      and changes nothing. */
  lemma UnlinkReturns(fs: Fs, n: cstring)
    requires Sound(fs) && n != []
    ensures var r := UnlinkOp(fs, PathTo(n));
      if n in Alpha(fs).files then r.Done? && r.ret == 0 else r == Done(fs, -1, [])
  {
    hide Alpha, Sound, UnlinkOp, FindSlot;
    SoundRoot(fs);
    PathMeansName(n);
    PathNames(fs, PathTo(n));
    UnlinkOutcome(fs, PathTo(n));
  }

  lemma SoundRoot(fs: Fs)
    requires Sound(fs)
    ensures RootOk(fs)
  {
  }

  /** Unlinking a file that no handle has open removes that name and changes nothing else. */
  lemma UnlinkNamed(fs: Fs, n: cstring)
    requires Consistent(fs) && n in Alpha(fs).files
    requires forall h :: h in Alpha(fs).handles ==> Alpha(fs).handles[h].name != n
    ensures var r := UnlinkOp(fs, PathTo(n));
      && r.Done? && RootOk(r.fs) && r.ret == 0 && r.out == []
      && Alpha(r.fs).files == Alpha(fs).files - {n} && Alpha(r.fs).handles == Alpha(fs).handles
  {
    hide Alpha, Consistent, UnlinkOp, Disciplined, FileName;
    NameIsNotEmpty(fs, n);
    PathMeansName(n);
    DisciplineIsAbstract(fs, Unlink(PathTo(n)));
    UnlinkRefines(fs, PathTo(n));
  }

  // ---------- Close, and handles that are not open ----------

  /** Close returns 0 exactly for an open handle, and frees its entry alone.  On a handle that is
      not open close, read and write return -1 and change nothing.  This holds of every state. */
  lemma ClosedHandlesFail(fs: Fs, h: int, buffer: seq<byte>, len: nat)
    ensures var open := 0 <= h < |fs.handleTaken| && fs.handleTaken[h];
      if open then CloseOp(fs, h) == Done(fs.(handleTaken := fs.handleTaken[h := false]), 0, [])
      else CloseOp(fs, h) == WriteOp(fs, h, buffer) == ReadOp(fs, h, len) == Done(fs, -1, [])
  {
  }

  /** In the caller's terms: exactly that handle goes. */
  lemma CloseRemoves(fs: Fs, h: int)
    requires Consistent(fs)
    ensures var r := CloseOp(fs, h);
      if h in Alpha(fs).handles then
        && r.Done? && RootOk(r.fs) && r.ret == 0
        && Alpha(r.fs).files == Alpha(fs).files && Alpha(r.fs).handles == Alpha(fs).handles - {h}
      else r == Done(fs, -1, [])
  {
    hide Files, NameOfInum, Consistent, Dir;
    ConsistentRoot(fs);
    CloseRefines(fs, h);
    ClosedHandlesFail(fs, h, [], 0);
  }

  // ---------- Write ----------

  /** The bytes d are the bytes c with n bytes of the buffer stored from an offset on. */
  predicate Stored(c: seq<byte>, offset: nat, buffer: seq<byte>, n: nat, d: seq<byte>) {
    && n <= |buffer| && |d| == (if offset + n > |c| then offset + n else |c|)
    && forall k :: 0 <= k < |d| ==>
         if offset <= k < offset + n then d[k] == buffer[k - offset] else k < |c| && d[k] == c[k]
  }

  lemma OverwriteStores(c: seq<byte>, offset: nat, buffer: seq<byte>, n: nat)
    requires offset <= |c| && n <= |buffer|
    ensures Stored(c, offset, buffer, n, Overwrite(c, offset, buffer[..n]))
  {
  }

  /** A write through an open handle stores as many bytes as are left in the block, and returns
      how many.  It fails, and changes nothing, exactly when the file is empty, there is
      something to write, and the other files own every block but the root's. */
  lemma WriteStores(fs: Fs, h: int, buffer: seq<byte>)
    requires Consistent(fs) && h in Alpha(fs).handles && |buffer| <= SIZE_MAX - fs.p.blockSize
    ensures var a := Alpha(fs); var n, from := a.handles[h].name, a.handles[h].offset; var r := WriteOp(fs, h, buffer);
      && n in a.files && from <= fs.p.blockSize && r.Done? && RootOk(r.fs)
      && if a.files[n] == [] && buffer != [] && |set m | m in a.files && a.files[m] != []| + 1 == fs.p.blockCount
         then r == Done(fs, -1, [])
         else
           && r.ret == (if |buffer| <= fs.p.blockSize - from then |buffer| else fs.p.blockSize - from)
           && var b := Alpha(r.fs);
              && b.files.Keys == a.files.Keys && (forall m :: m in a.files && m != n ==> b.files[m] == a.files[m])
              && Stored(a.files[n], from, buffer, r.ret, b.files[n])
              && b.handles == a.handles[h := Handle(n, from + r.ret)]
  {
    hide Alpha, Consistent, WriteOp, Overwrite, Stored, Names;
    HandleIsOpen(fs, h);
    OpenIsWithin(fs, h);
    WriteRefines(fs, h, buffer);
    var a := Alpha(fs);
    var c, from := FileOf(a, h), a.handles[h].offset;
    var n := Min(|buffer|, fs.p.blockSize - from);
    AWriteCases(fs.p, a, h, buffer, n);
    assert NonEmptyNames(a) == set m | m in a.files && a.files[m] != [];
    assert c == [] && buffer != [] ==> n > 0;
    OverwriteStores(c, from, buffer, n);
    if WriteOp(fs, h, buffer).ret == -1 {
      FailedWrite(fs, h, buffer);
    }
    if n == 0 {
      StoredNothing(c, from, buffer);
      assert a.handles[h := a.handles[h]] == a.handles;
    }
  }

  lemma StoredNothing(c: seq<byte>, offset: nat, buffer: seq<byte>)
    requires offset <= |c|
    ensures Stored(c, offset, buffer, 0, c)
  {
  }

  lemma FailedWrite(fs: Fs, h: int, buffer: seq<byte>)
    requires Consistent(fs) && |buffer| <= SIZE_MAX - fs.p.blockSize
    requires WriteOp(fs, h, buffer).Done? && WriteOp(fs, h, buffer).ret == -1
    ensures WriteOp(fs, h, buffer) == Done(fs, -1, [])
  {
    hide WriteOp, DirOk, Entries, Nodes, Handles, Ownership, Dir, HandlesLive, NoOrphans;
    FailedWriteLeavesNoTrace(fs, h, buffer);
    WriteRefines(fs, h, buffer);
  }

  /** A write whose length and offset add up past size_t is not clipped at all: it fails for lack
      of a block, or its copy leaves the byte array. */
  lemma WrappedWritePanics(fs: Fs, h: int, buffer: seq<byte>)
    requires Sound(fs) && fs.IsOpen(h) && |buffer| <= SIZE_MAX < |buffer| + fs.files[h].offset
    ensures 0 <= fs.files[h].inum < |fs.inodes|
    ensures
      if fs.inodes[fs.files[h].inum].size == 0 && FirstFree(fs.blockTaken) == -1 then WriteOp(fs, h, buffer) == Done(fs, -1, [])
      else WriteOp(fs, h, buffer).Panic?
  {
    hide DirOk, Entries, Ownership, Nodes, Dir, FirstFree;
    HandleNodeOk(fs, h);
    WrappedClip(|buffer|, fs.files[h].offset, fs.p.blockSize);
  }

  lemma WrappedClip(toWrite: nat, offset: nat, blockSize: nat)
    requires toWrite <= SIZE_MAX < toWrite + offset && offset <= blockSize <= SSIZE_MAX
    ensures WriteClip(toWrite, offset, blockSize) == toWrite > SSIZE_MAX
  {
  }

  // ---------- Read ----------

  /** A read through an open handle returns the bytes from its offset on, as many as asked for
      or as there are, and moves that offset. */
  lemma ReadReturns(fs: Fs, h: int, len: nat)
    requires Consistent(fs) && h in Alpha(fs).handles
    ensures var a := Alpha(fs); var n, from := a.handles[h].name, a.handles[h].offset; var r := ReadOp(fs, h, len);
      && n in a.files && from <= |a.files[n]| && r.Done? && RootOk(r.fs)
      && r.ret == (if len <= |a.files[n]| - from then len else |a.files[n]| - from)
      && r.out == a.files[n][from..from + r.ret]
      && Alpha(r.fs).files == a.files && Alpha(r.fs).handles == a.handles[h := Handle(n, from + r.ret)]
  {
    hide Alpha, Consistent, ReadOp, ARead;
    HandleIsOpen(fs, h);
    OpenIsWithin(fs, h);
    ReadRefines(fs, h, len);
    var a := Alpha(fs);
    var c, from := FileOf(a, h), a.handles[h].offset;
    var n := Min(len, |c| - from);
    AReadMoves(a, h, len, n, c[from..from + n]);
  }
}
