/**
 TecnicoFS as it is written: tables in arrays that the operations scan and update in place.
 Every method is proved to do to the arrays what the state model says.
 */
module TfsClass {
  import opened CMemory
  import opened TfsState
  import opened TfsOperations
  import opened Invariants
  import opened Steps
  import opened AbstractFs
  import opened Refinement
  import opened Simulation
  import opened Runs
  import opened Clients
  import S = TfsState

  /** A call that is disciplined on a consistent state follows the abstract machine. */
  ghost predicate Follows(before: Fs, op: Op, after: Fs, result: Result) {
    Consistent(before) && FitsSizeT(before.p, op) && ADisciplined(Alpha(before), op) ==>
      Consistent(after) && (Alpha(after), result) == AStep(before.p, Alpha(before), op)
  }

  lemma ApplyFollows(before: Fs, op: Op)
    requires Apply(before, op).Done?
    ensures var r := Apply(before, op); Follows(before, op, r.fs, Result(r.ret, r.out))
  {
    hide Sound, HandlesLive, NoOrphans, Apply, Alpha, ADisciplined, FitsSizeT, AStep;
    assert Consistent(before) ==> RootOk(before) by { if Consistent(before) { ConsistentRoot(before); } }
    if Consistent(before) && FitsSizeT(before.p, op) && ADisciplined(Alpha(before), op) {
      StepRefines(before, op);
    }
  }

  class Tfs {
    const p: Params
    const inodes: array<Inode>
    const inodeTaken: array<bool>
    const data: array<byte>
    const blockTaken: array<bool>
    const files: array<OpenFile>
    const handleTaken: array<bool>

    /** The arrays have the sizes that the parameters say and do not alias. */
    ghost predicate Allocated() {
      && p.Valid()
      && inodes.Length == inodeTaken.Length == p.inodeCount
      && blockTaken.Length == p.blockCount && data.Length == Times(p.blockCount, p.blockSize)
      && files.Length == handleTaken.Length == p.handleCount
      && inodeTaken != blockTaken && inodeTaken != handleTaken && blockTaken != handleTaken
    }

    ghost predicate Valid() {
      Allocated() && p.inodeCount > 0
    }

    ghost function Snapshot(): State
      reads inodes, inodeTaken, data, blockTaken, files, handleTaken
    {
      State(p, inodes[..], inodeTaken[..], data[..], blockTaken[..], files[..], handleTaken[..])
    }

    /** What the arrays hold. */
    ghost function Now(): Fs
      requires Valid()
      reads inodes, inodeTaken, data, blockTaken, files, handleTaken
    {
      Snapshot()
    }

    // ---------- state.c ----------

    /** state_init: what the inode table, the blocks and the open-file table hold afterwards is
        whatever the allocation left there. */
    constructor (params: Params)
      requires params.Valid()
      ensures Allocated() && p == params
      ensures Snapshot() == AllFree(params, inodes[..], data[..], files[..])
      ensures fresh(inodes) && fresh(inodeTaken) && fresh(data) && fresh(blockTaken) && fresh(files) && fresh(handleTaken)
    {
      p := params;
      inodes := new Inode[params.inodeCount];
      inodeTaken := new bool[params.inodeCount];
      data := new byte[Times(params.blockCount, params.blockSize)];
      blockTaken := new bool[params.blockCount];
      files := new OpenFile[params.handleCount];
      handleTaken := new bool[params.handleCount];
      new;
      MarkFree(inodeTaken);
      MarkFree(blockTaken);
      MarkFree(handleTaken);
    }

    static method MarkFree(taken: array<bool>)
      modifies taken
      ensures taken[..] == seq(taken.Length, _ => false)
    {
      for i := 0 to taken.Length
        invariant forall k :: 0 <= k < i ==> !taken[k]
      {
        taken[i] := false;
      }
    }

    /** The scan that inode_alloc, data_block_alloc and add_to_open_file_table share: take the
        first FREE entry. */
    static method TakeFirstFree(taken: array<bool>) returns (r: int)
      modifies taken
      ensures r == FirstFree(old(taken[..]))
      ensures taken[..] == if r == -1 then old(taken[..]) else old(taken[..])[r := true]
    {
      for i := 0 to taken.Length
        invariant forall k :: 0 <= k < i ==> taken[k]
        invariant taken[..] == old(taken[..])
      {
        if !taken[i] {
          taken[i] := true;
          return i;
        }
      }
      r := -1;
    }

    method InodeCreate(kind: NodeKind) returns (i: int)
      requires Allocated()
      modifies inodes, inodeTaken, blockTaken, data
      ensures p.inodeCount == 0 ==> i == -1 && Snapshot() == old(Snapshot())
      ensures p.inodeCount > 0 ==> (Now(), i) == S.InodeCreate(old(Now()), kind)
    {
      i := TakeFirstFree(inodeTaken);
      if i == -1 {
        return;
      }
      ghost var fs := old(Now());
      match kind
      case File =>
        inodes[i] := Inode(File, 0, -1);
      case Directory =>
        var b := TakeFirstFree(blockTaken);
        if b == -1 {
          inodes[i] := Inode(Directory, 0, -1);
          InodeDelete(i);
          assert inodeTaken[..] == fs.inodeTaken;
          return -1;
        }
        inodes[i] := Inode(Directory, p.blockSize, b);
        ghost var start := BlockStart(fs, b);
        TimesMonotone(b, p.blockCount, p.blockSize);
        LabelRecords(Times(b, p.blockSize), p.DirCapacity());
    }

    method InodeDelete(i: int)
      requires Valid() && S.InodeDelete(Now(), i).Done?
      modifies inodeTaken, blockTaken
      ensures S.InodeDelete(old(Now()), i) == Done(Now(), 0, [])
    {
      if inodes[i].size > 0 {
        DataBlockFree(inodes[i].block);
      }
      inodeTaken[i] := false;
    }

    method DataBlockFree(b: int)
      requires Valid() && Now().ValidBlock(b)
      modifies blockTaken
      ensures S.DataBlockFree(old(Now()), b) == Done(Now(), 0, [])
    {
      blockTaken[b] := false;
    }

    /** data_block_get */
    method DataBlockGet(b: int) returns (start: nat)
      requires Valid() && Now().ValidBlock(b)
      ensures start == BlockStart(Now(), b) && start + p.blockSize <= data.Length
    {
      ghost var s := BlockStart(Now(), b);
      start := Times(b, p.blockSize);
    }

    /** The d_inumber of the record at an address. */
    method InumberAt(at: nat) returns (inum: int)
      requires at + ENTRY_SIZE <= data.Length
      ensures inum == SlotAt(data[..], at).inum
    {
      inum := DecodeInt(data[at + 40..at + 44]);
    }

    /** find_in_dir's scan for a used record with the given name. */
    method ScanForName(base: nat, count: nat, name: cstring) returns (r: int)
      requires base + ENTRY_SIZE * count <= data.Length
      ensures r == FindSlot(Slots(data[..], base, count), name)
    {
      hide StrnCmp;
      ghost var d := Slots(data[..], base, count);
      for i := 0 to count
        invariant forall k :: 0 <= k < i ==> !d[k].Matches(name)
      {
        var at := base + ENTRY_SIZE * i;
        var inum := InumberAt(at);
        assert d[i] == SlotAt(data[..], at) && data[..][at..at + 40] == data[at..at + 40];
        if inum != NO_INODE && StrnCmp(data[at..at + 40], name + [0], MAX_FILE_NAME) == 0 {
          return i;
        }
      }
      r := -1;
    }

    /** find_in_dir */
    method FindInDir(name: cstring) returns (inum: int)
      requires Valid() && S.FindInDir(Now(), name).Done?
      ensures inum == S.FindInDir(Now(), name).ret
    {
      hide FindSlot, DecodeInt, StrnCmp, Times;
      if inodes[ROOT].kind != Directory {
        return -1;
      }
      var base := DataBlockGet(inodes[ROOT].block);
      DirectoryInBlock(p);
      var i := ScanForName(base, p.DirCapacity(), name);
      if i == -1 {
        return -1;
      }
      inum := InumberAt(base + ENTRY_SIZE * i);
    }

    /** add_dir_entry's scan for the first unused record. */
    method ScanForUnused(base: nat, count: nat) returns (r: int)
      requires base + ENTRY_SIZE * count <= data.Length
      ensures r == FirstUnused(Slots(data[..], base, count))
    {
      ghost var d := Slots(data[..], base, count);
      for i := 0 to count
        invariant forall k :: 0 <= k < i ==> d[k].Used()
      {
        var inum := InumberAt(base + ENTRY_SIZE * i);
        assert d[i] == SlotAt(data[..], base + ENTRY_SIZE * i);
        if inum == NO_INODE {
          return i;
        }
      }
      r := -1;
    }

    /** add_dir_entry */
    method AddDirEntry(name: cstring, inum: int) returns (r: int)
      requires Valid() && IsInt(inum) && S.AddDirEntry(Now(), name, inum).Done?
      modifies data
      ensures S.AddDirEntry(old(Now()), name, inum) == Done(Now(), r, [])
    {
      hide Splice, FirstUnused, SlotAt, EntryBytes, Times, StrnCpy;
      if |name| == 0 || |name| > MAX_FILE_NAME - 1 {
        return -1;
      }
      if inodes[ROOT].kind != Directory {
        return -1;
      }
      var base := DataBlockGet(inodes[ROOT].block);
      DirectoryInBlock(p);
      var i := ScanForUnused(base, p.DirCapacity());
      if i == -1 {
        return -1;
      }
      CopyIn(base + ENTRY_SIZE * i, EntryBytes(name, inum));
      r := 0;
    }

    /** clear_dir_entry's scan: strcmp is given the whole of memory from the record on. */
    method ScanForString(base: nat, count: nat, name: cstring) returns (r: int)
      requires base + ENTRY_SIZE * count <= data.Length
      ensures r == FindString(data[..], base, count, name, 0)
    {
      hide StrnCmp, StrCmp;
      ghost var memory := data[..];
      for i := 0 to count
        invariant forall k :: 0 <= k < i ==> StrCmp(memory[base + ENTRY_SIZE * k..], name + [0]) != 0
      {
        var at := base + ENTRY_SIZE * i;
        assert data[at..] == memory[at..];
        if StrCmp(data[at..], name + [0]) == 0 {
          return i;
        }
      }
      r := -1;
    }

    /** clear_dir_entry */
    method ClearDirEntry(name: cstring) returns (r: int)
      requires Valid() && S.ClearDirEntry(Now(), name).Done?
      modifies data
      ensures S.ClearDirEntry(old(Now()), name) == Done(Now(), r, [])
    {
      hide Splice, FindString, StrCmp, StrnCmp, ClearedBytes, Times;
      if inodes[ROOT].kind != Directory {
        return -1;
      }
      var base := DataBlockGet(inodes[ROOT].block);
      DirectoryInBlock(p);
      var i := ScanForString(base, p.DirCapacity(), name);
      if i == -1 {
        return -1;
      }
      CopyIn(base + ENTRY_SIZE * i, ClearedBytes());
      r := 0;
    }

    /** add_to_open_file_table */
    method AddToOpenFileTable(inum: int, offset: nat) returns (h: int)
      requires Valid()
      modifies files, handleTaken
      ensures S.AddToOpenFileTable(old(Now()), inum, offset) == Done(Now(), h, [])
    {
      h := TakeFirstFree(handleTaken);
      if h != -1 {
        files[h] := OpenFile(inum, offset);
      }
    }

    /** get_open_file_entry, as the index of the entry */
    method IsOpen(h: int) returns (open: bool)
      requires Valid()
      ensures open == Now().IsOpen(h)
    {
      open := 0 <= h < p.handleCount && handleTaken[h];
    }

    /** Label the records of a new directory as unused. */
    method LabelRecords(base: nat, count: nat)
      requires base + ENTRY_SIZE * count <= data.Length
      modifies data
      ensures data[..] == LabelUnused(old(data[..]), base, count)
    {
      hide Splice, EncodeInt;
      for i := 0 to count
        invariant data[..] == LabelUnused(old(data[..]), base, i)
      {
        CopyIn(base + ENTRY_SIZE * i + 40, EncodeInt(NO_INODE));
      }
    }

    /** memcpy, memset or a store into the byte array. */
    method CopyIn(at: nat, bytes: seq<byte>)
      requires at + |bytes| <= data.Length
      modifies data
      ensures data[..] == Splice(old(data[..]), at, bytes)
    {
      for k := 0 to |bytes|
        invariant forall j :: 0 <= j < data.Length ==> data[j] == if at <= j < at + k then bytes[j - at] else old(data[j])
      {
        data[at + k] := bytes[k];
      }
    }

    // ---------- operations.c ----------

    /** tfs_init */
    static method TfsInit(params: Params) returns (tfs: Tfs, r: int)
      requires params.Valid()
      ensures fresh(tfs) && tfs.p == params && tfs.Allocated()
      ensures fresh(tfs.inodes) && fresh(tfs.inodeTaken) && fresh(tfs.data)
      ensures fresh(tfs.blockTaken) && fresh(tfs.files) && fresh(tfs.handleTaken)
      ensures r == 0 <==> params.inodeCount > 0 && params.blockCount > 0
      ensures r == 0 || r == -1
      ensures r == -1 ==> forall k :: 0 <= k < tfs.inodeTaken.Length ==> !tfs.inodeTaken[k]
      ensures r == -1 ==> forall k :: 0 <= k < tfs.blockTaken.Length ==> !tfs.blockTaken[k]
      ensures r == -1 ==> forall k :: 0 <= k < tfs.handleTaken.Length ==> !tfs.handleTaken[k]
      ensures r == 0 ==> Initial(tfs.Now()) && Consistent(tfs.Now()) && Alpha(tfs.Now()) == EMPTY
    {
      tfs := new Tfs(params);
      ghost var inodes0, data0, files0 := tfs.inodes[..], tfs.data[..], tfs.files[..];
      InitConsistent(params, inodes0, data0, files0);
      var root := tfs.InodeCreate(Directory);
      r := if root != ROOT then -1 else 0;
      if r == 0 {
        assert Init(params, inodes0, data0, files0) == (tfs.Now(), 0);
        InitialIsEmpty(tfs.Now());
      }
    }

    /** tfs_open */
    method TfsOpen(path: Option<cstring>, mode: Mode) returns (r: int)
      requires Valid() && Apply(Now(), Open(path, mode)).Done?
      modifies inodes, inodeTaken, data, blockTaken, files, handleTaken
      ensures Apply(old(Now()), Open(path, mode)) == Done(Now(), r, [])
      ensures Follows(old(Now()), Open(path, mode), Now(), Result(r, []))
    {
      hide Follows, S.FindInDir, S.AddDirEntry, Splice;
      ApplyFollows(Now(), Open(path, mode));
      if !ValidPath(path) {
        return -1;
      }
      var inum := FindInDir(FileName(path));
      if inum >= 0 {
        if mode.trunc {
          if inodes[inum].size > 0 {
            DataBlockFree(inodes[inum].block);
            inodes[inum] := inodes[inum].(size := 0);
          }
        }
        var offset := if mode.append then inodes[inum].size else 0;
        r := AddToOpenFileTable(inum, offset);
      } else if mode.creat {
        inum := InodeCreate(File);
        if inum == -1 {
          return -1;
        }
        var added := AddDirEntry(FileName(path), inum);
        if added == -1 {
          InodeDelete(inum);
          return -1;
        }
        r := AddToOpenFileTable(inum, 0);
      } else {
        return -1;
      }
    }

    /** tfs_close */
    method TfsClose(h: int) returns (r: int)
      requires Valid()
      modifies handleTaken
      ensures Apply(old(Now()), Close(h)) == Done(Now(), r, [])
      ensures Follows(old(Now()), Close(h), Now(), Result(r, []))
    {
      ApplyFollows(Now(), Close(h));
      var open := IsOpen(h);
      if !open {
        return -1;
      }
      handleTaken[h] := false;
      r := 0;
    }

    /** tfs_write */
    method TfsWrite(h: int, buffer: array<byte>, toWrite: nat) returns (r: int)
      requires Valid() && toWrite <= buffer.Length && buffer != data
      requires Apply(Now(), Write(h, buffer[..toWrite])).Done?
      modifies inodes, data, blockTaken, files
      ensures Apply(old(Now()), Write(h, buffer[..toWrite])) == Done(Now(), r, [])
      ensures Follows(old(Now()), Write(h, buffer[..toWrite]), Now(), Result(r, []))
    {
      hide Follows, WriteCopy, WriteClip;
      ApplyFollows(Now(), Write(h, buffer[..toWrite]));
      var open := IsOpen(h);
      if !open {
        return -1;
      }
      var inum := files[h].inum;
      var n := WriteClip(toWrite, files[h].offset, p.blockSize);
      if n > 0 {
        if inodes[inum].size == 0 {
          var b := TakeFirstFree(blockTaken);
          if b == -1 {
            return -1;
          }
          inodes[inum] := inodes[inum].(block := b);
          assert Now() == GiveBlock(old(Now()), inum, b);
        }
        WriteThrough(h, buffer, toWrite, n);
      }
      r := n;
    }

    /** The copy of a write, and its new offset and size. */
    method WriteThrough(h: int, buffer: array<byte>, toWrite: nat, n: nat)
      requires Valid() && toWrite <= buffer.Length && buffer != data
      requires Now().IsOpen(h) && WriteCopy(Now(), h, buffer[..toWrite], n).Done?
      modifies inodes, data, files
      ensures WriteCopy(old(Now()), h, buffer[..toWrite], n) == Done(Now(), n, [])
    {
      hide Splice, Times;
      var inum := files[h].inum;
      var block := DataBlockGet(inodes[inum].block);
      assert buffer[..toWrite][..n] == buffer[..n];
      CopyIn(block + files[h].offset, buffer[..n]);
      files[h] := files[h].(offset := files[h].offset + n);
      ghost var node := inodes[inum];
      if files[h].offset > inodes[inum].size {
        inodes[inum] := inodes[inum].(size := files[h].offset);
      }
    }

    /** tfs_read */
    method TfsRead(h: int, buffer: array<byte>, len: nat) returns (r: int)
      requires Valid() && len <= buffer.Length && buffer != data
      requires Apply(Now(), Read(h, len)).Done?
      modifies files, buffer
      ensures r >= -1 && r <= len
      ensures var out := buffer[..if r < 0 then 0 else r];
        && Apply(old(Now()), Read(h, len)) == Done(Now(), r, out)
        && Follows(old(Now()), Read(h, len), Now(), Result(r, out))
      ensures buffer[if r < 0 then 0 else r..] == old(buffer[..])[if r < 0 then 0 else r..]
    {
      ApplyFollows(Now(), Read(h, len));
      var open := IsOpen(h);
      if !open {
        return -1;
      }
      var inum := files[h].inum;
      var n := ReadClip(inodes[inum].size, files[h].offset, len);
      if n > 0 {
        var block := DataBlockGet(inodes[inum].block);
        CopyOut(buffer, block + files[h].offset, n);
        files[h] := files[h].(offset := files[h].offset + n);
      }
      r := n;
    }

    /** memcpy out of the byte array */
    method CopyOut(buffer: array<byte>, at: nat, n: nat)
      requires buffer != data && n <= buffer.Length && at + n <= data.Length
      modifies buffer
      ensures buffer[..n] == data[at..at + n] && buffer[n..] == old(buffer[..])[n..]
    {
      for k := 0 to n
        invariant forall j :: 0 <= j < buffer.Length ==> buffer[j] == if j < k then data[at + j] else old(buffer[j])
      {
        buffer[k] := data[at + k];
      }
    }

    /** tfs_unlink */
    method TfsUnlink(path: Option<cstring>) returns (r: int)
      requires Valid() && Apply(Now(), Unlink(path)).Done?
      modifies inodeTaken, data, blockTaken
      ensures Apply(old(Now()), Unlink(path)) == Done(Now(), r, [])
      ensures Follows(old(Now()), Unlink(path), Now(), Result(r, []))
    {
      ApplyFollows(Now(), Unlink(path));
      if !ValidPath(path) {
        return -1;
      }
      var inum := FindInDir(FileName(path));
      if inum == -1 {
        return -1;
      }
      InodeDelete(inum);
      r := ClearDirEntry(FileName(path));
    }
  }

  // ---------- A client ----------

  const PLAIN: Mode := Mode(false, false, false)

  /** Whether a new file system has room for a file of this name and so many bytes. */
  predicate HasRoom(p: Params, path: Option<cstring>, bytes: nat) {
    && path.Some? && 2 <= |path.value| <= MAX_FILE_NAME && path.value[0] == '/' as int
    && p.inodeCount > 1 && p.blockSize >= ENTRY_SIZE && p.handleCount > 0 && (bytes > 0 ==> p.blockCount > 1)
  }

  lemma OpenFromEmpty(p: Params, path: Option<cstring>)
    ensures var (a1, r1) := AOpen(p, EMPTY, path, CREATING);
      if HasRoom(p, path, 0) then r1.ret == 0 && a1 == Abs(map[FileName(path) := []], map[0 := Handle(FileName(path), 0)])
      else r1.ret == -1
  {
    hide FileName;
    assert EMPTY.files.Keys == {} && EMPTY.handles.Keys == {};
  }

  lemma WriteFirst(p: Params, name: cstring, data: seq<byte>)
    requires p.blockCount > 0 && p.blockSize > 0
    ensures AWrite(p, Abs(map[name := []], map[0 := Handle(name, 0)]), 0, data).1.ret
         == if |data| > 0 && p.blockCount == 1 then -1 else Min(|data|, p.blockSize)
  {
    var a := Abs(map[name := []], map[0 := Handle(name, 0)]);
    assert NonEmptyNames(a) == {};
  }

  lemma RoundTripFromEmpty(p: Params, path: Option<cstring>, data: seq<byte>)
    requires p.inodeCount > 0 && p.blockCount > 0 && p.blockSize > 0
    ensures
      var (a1, r1) := AOpen(p, EMPTY, path, CREATING);
      var (a2, r2) := AWrite(p, a1, r1.ret, data);
      var (a3, r3) := AClose(a2, r1.ret);
      var (a4, r4) := AOpen(p, a3, path, PLAIN);
      var r5 := ARead(a4, r4.ret, p.blockSize).1;
      && (r1.ret >= 0 && r2.ret >= 0 <==> HasRoom(p, path, |data|))
      && (HasRoom(p, path, |data|) ==> r4.ret >= 0 && r5 == Result(Min(|data|, p.blockSize), data[..Min(|data|, p.blockSize)]))
  {
    hide AOpen, AWrite, AClose, ARead, WellFormed, BytesAt, Written, FileName;
    EmptyFits(p, path, data);
    RoundTrip(p, EMPTY, path, CREATING, data);
    OpenFromEmpty(p, path);
    ReopenedRead(p, AClose(AWrite(p, AOpen(p, EMPTY, path, CREATING).0, 0, data).0, 0).0, path);
    if HasRoom(p, path, 0) {
      WriteFirst(p, FileName(path), data);
    }
  }

  lemma ReopenedRead(p: Params, a: Abs, path: Option<cstring>)
    ensures var (a1, r1) := AOpen(p, a, path, PLAIN);
      r1.ret >= 0 ==> ARead(a1, r1.ret, p.blockSize).1.ret == |ARead(a1, r1.ret, p.blockSize).1.out|
  {
  }

  lemma EmptyFits(p: Params, path: Option<cstring>, data: seq<byte>)
    requires p.inodeCount > 0 && p.blockCount > 0
    ensures WellFormed(p, EMPTY) && Written(BytesAt(EMPTY, path), CREATING, data, p.blockSize) == data[..Min(|data|, p.blockSize)]
  {
    assert NonEmptyNames(EMPTY) == {};
  }

  /** A consistent file system that represents the given abstract state. */
  ghost predicate At(fs: Fs, p: Params, a: Abs) {
    fs.p == p && Consistent(fs) && RootOk(fs) && Alpha(fs) == a
  }

  lemma CallAt(fs: Fs, p: Params, a: Abs, op: Op)
    requires At(fs, p, a) && FitsSizeT(p, op) && ADisciplined(a, op)
    ensures var r := Apply(fs, op);
      r.Done? && At(r.fs, p, AStep(p, a, op).0) && Result(r.ret, r.out) == AStep(p, a, op).1
  {
    hide Consistent, Alpha, Apply, AStep, ADisciplined, FitsSizeT, RootOk;
    StepRefines(fs, op);
    assert Apply(fs, op).fs.p == p;
    ConsistentRoot(Apply(fs, op).fs);
  }

  lemma InitialAt(fs: Fs)
    requires Initial(fs)
    ensures At(fs, fs.p, EMPTY)
  {
    hide Initial, Alpha, Consistent;
    InitialIsEmpty(fs);
    ConsistentRoot(fs);
  }

  /** Initialize, create a file, write it, close it, reopen it and read it back: by the
      contracts of the methods alone. */
  method WriteAndReadBack(params: Params, path: Option<cstring>, buffer: array<byte>, into: array<byte>)
    returns (r: int)
    requires params.Valid() && params.inodeCount > 0 && params.blockCount > 0
    requires buffer.Length <= SIZE_MAX - params.blockSize && params.blockSize <= into.Length
    modifies into
    ensures r >= 0 <==> HasRoom(params, path, buffer.Length)
    ensures r < 0 ==> into[..] == old(into[..])
    ensures r >= 0 ==> r == Min(buffer.Length, params.blockSize) && into[..r] == old(buffer[..r])
  {
    hide At, Follows, Initial, Consistent, Alpha, Apply, AOpen, AWrite, AClose, ARead, HasRoom;
    RoundTripFromEmpty(params, path, buffer[..]);
    var tfs, ok := Tfs.TfsInit(params);
    InitialAt(tfs.Now());
    CallAt(tfs.Now(), params, EMPTY, Open(path, CREATING));
    var h := tfs.TfsOpen(path, CREATING);
    ghost var a := AOpen(params, EMPTY, path, CREATING).0;
    if h < 0 {
      return -1;
    }
    assert buffer[..buffer.Length] == buffer[..];
    CallAt(tfs.Now(), params, a, Write(h, buffer[..]));
    var written := tfs.TfsWrite(h, buffer, buffer.Length);
    a := AWrite(params, a, h, buffer[..]).0;
    if written < 0 {
      return -1;
    }
    CallAt(tfs.Now(), params, a, Close(h));
    var closed := tfs.TfsClose(h);
    a := AClose(a, h).0;
    CallAt(tfs.Now(), params, a, Open(path, PLAIN));
    h := tfs.TfsOpen(path, PLAIN);
    a := AOpen(params, a, path, PLAIN).0;
    CallAt(tfs.Now(), params, a, Read(h, params.blockSize));
    r := tfs.TfsRead(h, into, params.blockSize);
  }
}
