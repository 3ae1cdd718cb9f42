/**
 The state of TecnicoFS (fs/state.c) as a value, and what each of its primitives does to it.

 All the static arrays of state.c are here: inode table, the flat byte array, open file
 table, and the three allocation tables.  The root directory lives in one block of the byte
 array as 44-byte records.  A failed ALWAYS_ASSERT, or a copy that leaves the byte array, is
 the outcome Panic, so that every primitive is total and "no assertion fails" is a theorem.
 */
module TfsState {
  import opened CMemory

  const ROOT: nat := 0
  const MAX_FILE_NAME: nat := 40
  const ENTRY_SIZE: nat := 44
  const NO_INODE: int := -1

  datatype Params = Params(inodeCount: nat, blockCount: nat, handleCount: nat, blockSize: nat) {
    /** No table index overflows an int, and the storage is an object that C can address. */
    predicate Valid() {
      && 0 < blockSize
      && inodeCount <= INT_MAX && blockCount <= INT_MAX && handleCount <= INT_MAX
      && blockSize / ENTRY_SIZE <= INT_MAX
      && blockSize <= SSIZE_MAX && Times(blockCount, blockSize) <= SSIZE_MAX
    }

    /** MAX_DIR_ENTRIES: the records that fit a block, and no more would. */
    function DirCapacity(): (n: nat)
      ensures ENTRY_SIZE * n <= blockSize < ENTRY_SIZE * (n + 1)
    {
      if blockSize == 0 then 0 else blockSize / ENTRY_SIZE
    }
  }

  datatype NodeKind = File | Directory
  datatype Inode = Inode(kind: NodeKind, size: nat, block: int)
  datatype OpenFile = OpenFile(inum: int, offset: nat)

  /** A directory record: its name field and its inumber. */
  datatype Slot = Slot(field: seq<byte>, inum: int) {
    predicate Used() { inum != NO_INODE }
    function Name(): cstring { StringOf(field) }
    predicate Matches(s: cstring) { Used() && StrnCmp(field, s + [0], MAX_FILE_NAME) == 0 }
  }

  datatype State = State(
    p: Params,
    inodes: seq<Inode>, inodeTaken: seq<bool>,
    data: seq<byte>, blockTaken: seq<bool>,
    files: seq<OpenFile>, handleTaken: seq<bool>)
  {
    predicate Shape() {
      && p.Valid() && 0 < p.inodeCount
      && |inodes| == |inodeTaken| == p.inodeCount
      && |blockTaken| == p.blockCount && |data| == Times(p.blockCount, p.blockSize)
      && |files| == |handleTaken| == p.handleCount
    }

    predicate ValidInum(i: int) { 0 <= i < |inodes| }
    predicate ValidBlock(b: int) { 0 <= b < |blockTaken| }
    predicate IsOpen(h: int) { 0 <= h < |handleTaken| && handleTaken[h] }
  }

  type Fs = s: State | s.Shape()
    witness State(Params(1, 0, 0, 1), [Inode(File, 0, 0)], [false], [], [], [], [])

  /** What a call leaves behind: the new state, the returned int, and the bytes that a read
      stores in its caller's buffer. */
  datatype Outcome = Done(fs: Fs, ret: int, out: seq<byte>) | Panic

  // ---------- First-fit scans ----------

  function FirstIndex<T>(s: seq<T>, p: T -> bool, from: nat): (r: int)
    requires from <= |s|
    ensures r == -1 || from <= r < |s|
    ensures r != -1 ==> p(s[r])
    ensures forall i :: from <= i < (if r == -1 then |s| else r) ==> !p(s[i])
    decreases |s| - from
  {
    if from == |s| then -1 else if p(s[from]) then from else FirstIndex(s, p, from + 1)
  }

  /** The index that each of the three allocation scans picks. */
  function FirstFree(taken: seq<bool>): (r: int)
    ensures -1 <= r < |taken|
    ensures r != -1 ==> !taken[r]
    ensures forall i :: 0 <= i < (if r == -1 then |taken| else r) ==> taken[i]
  {
    FirstIndex(taken, t => !t, 0)
  }

  function FirstUnused(d: seq<Slot>): (r: int)
    ensures -1 <= r < |d|
    ensures r != -1 ==> !d[r].Used()
    ensures forall i :: 0 <= i < (if r == -1 then |d| else r) ==> d[i].Used()
  {
    FirstIndex(d, (s: Slot) => !s.Used(), 0)
  }

  /** The record that find_in_dir stops at. */
  function FindSlot(d: seq<Slot>, name: cstring): (r: int)
    ensures -1 <= r < |d|
    ensures r != -1 ==> d[r].Matches(name)
    ensures forall i :: 0 <= i < (if r == -1 then |d| else r) ==> !d[i].Matches(name)
  {
    FirstIndex(d, (s: Slot) => s.Matches(name), 0)
  }

  // ---------- Directory records in the byte array ----------

  function SlotAt(data: seq<byte>, p: nat): Slot
    requires p + ENTRY_SIZE <= |data|
  {
    Slot(data[p..p + 40], DecodeInt(data[p + 40..p + 44]))
  }

  function Slots(data: seq<byte>, base: nat, count: nat): (d: seq<Slot>)
    requires base + ENTRY_SIZE * count <= |data|
    ensures |d| == count
    ensures forall i :: 0 <= i < count ==> d[i] == SlotAt(data, base + ENTRY_SIZE * i)
  {
    seq(count, i requires 0 <= i < count => SlotAt(data, base + ENTRY_SIZE * i))
  }

  /** clear_dir_entry's scan: an unguarded strcmp on the memory at each record. */
  function FindString(data: seq<byte>, base: nat, count: nat, name: cstring, from: nat): (r: int)
    requires from <= count && base + ENTRY_SIZE * count <= |data|
    ensures r == -1 || from <= r < count
    ensures r != -1 ==> StrCmp(data[base + ENTRY_SIZE * r..], name + [0]) == 0
    ensures forall i :: from <= i < (if r == -1 then count else r) ==>
              StrCmp(data[base + ENTRY_SIZE * i..], name + [0]) != 0
    decreases count - from
  {
    if from == count then -1
    else if StrCmp(data[base + ENTRY_SIZE * from..], name + [0]) == 0 then from
    else FindString(data, base, count, name, from + 1)
  }

  function EntryBytes(name: cstring, inum: int): (b: seq<byte>)
    requires IsInt(inum)
    ensures |b| == ENTRY_SIZE
  {
    StrnCpy(name, MAX_FILE_NAME - 1) + [0] + EncodeInt(inum)
  }

  function ClearedBytes(): (b: seq<byte>)
    ensures |b| == ENTRY_SIZE
  {
    Zeros(MAX_FILE_NAME) + EncodeInt(NO_INODE)
  }

  lemma DirectoryInBlock(p: Params)
    requires p.Valid()
    ensures ENTRY_SIZE * p.DirCapacity() <= p.blockSize
  {
  }

  /** data_block_get: the address of a block. */
  function BlockStart(fs: Fs, b: int): (p: nat)
    requires fs.ValidBlock(b)
    ensures p == Times(b, fs.p.blockSize) && p + fs.p.blockSize <= |fs.data|
  {
    TimesMonotone(b, fs.p.blockCount, fs.p.blockSize);
    Times(b, fs.p.blockSize)
  }

  /** The records that the root inode's block holds. */
  function Dir(fs: Fs): (d: seq<Slot>)
    requires fs.ValidBlock(fs.inodes[ROOT].block)
    ensures |d| == fs.p.DirCapacity()
  {
    DirectoryInBlock(fs.p);
    Slots(fs.data, BlockStart(fs, fs.inodes[ROOT].block), fs.p.DirCapacity())
  }

  // ---------- Primitives ----------

  function DataBlockFree(fs: Fs, b: int): Outcome {
    if !fs.ValidBlock(b) then Panic else Done(fs.(blockTaken := fs.blockTaken[b := false]), 0, [])
  }

  function InodeDelete(fs: Fs, i: int): Outcome {
    if !fs.ValidInum(i) || !fs.inodeTaken[i] then Panic
    else
      var freed := if fs.inodes[i].size > 0 then DataBlockFree(fs, fs.inodes[i].block) else Done(fs, 0, []);
      if freed.Panic? then Panic
      else Done(freed.fs.(inodeTaken := fs.inodeTaken[i := false]), 0, [])
  }

  /** inode_create(T_FILE), given the inumber that inode_alloc picked. */
  function TakeInode(fs: Fs, i: nat): Fs
    requires i < |fs.inodes|
  {
    fs.(inodeTaken := fs.inodeTaken[i := true], inodes := fs.inodes[i := Inode(File, 0, -1)])
  }

  function FindInDir(fs: Fs, name: cstring): Outcome {
    if fs.inodes[ROOT].kind != Directory then Done(fs, -1, [])
    else if !fs.ValidBlock(fs.inodes[ROOT].block) then Panic
    else
      var d := Dir(fs);
      var i := FindSlot(d, name);
      Done(fs, if i == -1 then -1 else d[i].inum, [])
  }

  /** The state after the record at index i has been overwritten. */
  function WriteSlot(fs: Fs, i: nat, bytes: seq<byte>): (r: Fs)
    requires fs.ValidBlock(fs.inodes[ROOT].block) && i < fs.p.DirCapacity() && |bytes| == ENTRY_SIZE
  {
    DirectoryInBlock(fs.p);
    fs.(data := Splice(fs.data, BlockStart(fs, fs.inodes[ROOT].block) + ENTRY_SIZE * i, bytes))
  }

  function AddDirEntry(fs: Fs, name: cstring, inum: int): Outcome
    requires IsInt(inum)
  {
    if |name| == 0 || |name| > MAX_FILE_NAME - 1 then Done(fs, -1, [])
    else if fs.inodes[ROOT].kind != Directory then Done(fs, -1, [])
    else if !fs.ValidBlock(fs.inodes[ROOT].block) then Panic
    else
      var i := FirstUnused(Dir(fs));
      if i == -1 then Done(fs, -1, [])
      else Done(WriteSlot(fs, i, EntryBytes(name, inum)), 0, [])
  }

  function ClearDirEntry(fs: Fs, name: cstring): Outcome {
    if fs.inodes[ROOT].kind != Directory then Done(fs, -1, [])
    else if !fs.ValidBlock(fs.inodes[ROOT].block) then Panic
    else
      DirectoryInBlock(fs.p);
      var i := FindString(fs.data, BlockStart(fs, fs.inodes[ROOT].block), fs.p.DirCapacity(), name, 0);
      if i == -1 then Done(fs, -1, []) else Done(WriteSlot(fs, i, ClearedBytes()), 0, [])
  }

  function AddToOpenFileTable(fs: Fs, inum: int, offset: nat): Outcome {
    var h := FirstFree(fs.handleTaken);
    if h == -1 then Done(fs, -1, [])
    else Done(fs.(handleTaken := fs.handleTaken[h := true], files := fs.files[h := OpenFile(inum, offset)]), h, [])
  }

  // ---------- Initialization ----------

  /** The loop that labels the first n records of a new directory as unused.  It sets only
      their inumbers: the name fields keep whatever bytes malloc left there. */
  function LabelUnused(data: seq<byte>, base: nat, n: nat): (r: seq<byte>)
    requires base + ENTRY_SIZE * n <= |data|
    ensures |r| == |data|
    ensures forall k :: base + ENTRY_SIZE * n <= k < |data| ==> r[k] == data[k]
    ensures forall i :: 0 <= i < n ==> r[base + ENTRY_SIZE * i + 40..base + ENTRY_SIZE * i + 44] == EncodeInt(NO_INODE)
  {
    if n == 0 then data
    else Splice(LabelUnused(data, base, n - 1), base + ENTRY_SIZE * (n - 1) + 40, EncodeInt(NO_INODE))
  }

  /** inode_create: a regular file starts empty; a directory gets a block of unused records. */
  function InodeCreate(fs: Fs, kind: NodeKind): (r: (Fs, int)) {
    var i := FirstFree(fs.inodeTaken);
    if i == -1 then (fs, -1)
    else if kind == File then (TakeInode(fs, i), i)
    else
      var b := FirstFree(fs.blockTaken);
      if b == -1 then (fs.(inodes := fs.inodes[i := Inode(Directory, 0, -1)]), -1)
      else
        DirectoryInBlock(fs.p);
        (fs.(inodeTaken := fs.inodeTaken[i := true],
             inodes := fs.inodes[i := Inode(Directory, fs.p.blockSize, b)],
             blockTaken := fs.blockTaken[b := true],
             data := LabelUnused(fs.data, BlockStart(fs, b), fs.p.DirCapacity())), i)
  }

  /** The tables after malloc and the loops of state_init: every entry FREE, and for the rest
      whatever memory malloc returned. */
  function AllFree(p: Params, inodes: seq<Inode>, data: seq<byte>, files: seq<OpenFile>): State {
    State(p, inodes, seq(p.inodeCount, _ => false), data, seq(p.blockCount, _ => false),
          files, seq(p.handleCount, _ => false))
  }

  /** state_init.  It takes over the parameters before it looks whether there are tables already. */
  function StateInit(tables: Option<State>, p: Params, inodes: seq<Inode>, data: seq<byte>, files: seq<OpenFile>): (State, int) {
    match tables
    case Some(s) => (s.(p := p), -1)
    case None => (AllFree(p, inodes, data, files), 0)
  }

  /** tfs_init, on tables that there may already be, and on memory that malloc returns if there
      are none: inodes, bytes and open-file entries are arbitrary. */
  function TfsInit(tables: Option<State>, p: Params, inodes: seq<Inode>, data: seq<byte>, files: seq<OpenFile>): (State, int)
    requires tables.None? ==>
      p.Valid() && |inodes| == p.inodeCount && |data| == Times(p.blockCount, p.blockSize) && |files| == p.handleCount
  {
    var (s, ret) := StateInit(tables, p, inodes, data, files);
    if ret != 0 || p.inodeCount == 0 then (s, -1)
    else
      var (fs, root) := InodeCreate(s, Directory);
      (fs, if root != ROOT then -1 else 0)
  }

  /** The first tfs_init. */
  function Init(p: Params, inodes: seq<Inode>, data: seq<byte>, files: seq<OpenFile>): (State, int)
    requires p.Valid()
    requires |inodes| == p.inodeCount && |data| == Times(p.blockCount, p.blockSize) && |files| == p.handleCount
  {
    TfsInit(None, p, inodes, data, files)
  }
}
