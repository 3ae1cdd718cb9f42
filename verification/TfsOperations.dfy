/**
 The five public operations (fs/operations.c) on a state value.  Sizes are size_t: the sums
 and differences that clip a transfer are taken modulo 2^64, as in C.
 */
module TfsOperations {
  import opened CMemory
  import opened TfsState

  datatype Mode = Mode(creat: bool, trunc: bool, append: bool)

  datatype Op =
    | Open(path: Option<cstring>, mode: Mode)
    | Close(h: int)
    | Write(h: int, buffer: seq<byte>)
    | Read(h: int, len: nat)
    | Unlink(path: Option<cstring>)

  /** valid_pathname; a missing path is the NULL pointer. */
  predicate ValidPath(path: Option<cstring>) {
    path.Some? && |path.value| > 1 && path.value[0] == '/' as int
  }

  /** The path without its leading slash. */
  function FileName(path: Option<cstring>): (name: cstring)
    requires ValidPath(path)
    ensures name != [] && path.value == ['/' as int] + name
  {
    var name := path.value[1..];
    assert forall i :: 0 <= i < |name| ==> name[i] == path.value[i + 1];
    name
  }

  /** The to_write that tfs_write computes. */
  function WriteClip(toWrite: nat, offset: nat, blockSize: nat): nat {
    if (toWrite + offset) % SIZE_MODULUS > blockSize then (blockSize - offset) % SIZE_MODULUS else toWrite
  }

  /** The to_read that tfs_read computes. */
  function ReadClip(size: nat, offset: nat, len: nat): nat {
    var toRead := (size - offset) % SIZE_MODULUS;
    if toRead > len then len else toRead
  }

  function Truncate(fs: Fs, i: nat): Outcome
    requires i < |fs.inodes|
  {
    if fs.inodes[i].size == 0 then Done(fs, 0, [])
    else
      var freed := DataBlockFree(fs, fs.inodes[i].block);
      if freed.Panic? then Panic
      else Done(freed.fs.(inodes := fs.inodes[i := fs.inodes[i].(size := 0)]), 0, [])
  }

  function OpenExisting(fs: Fs, i: int, mode: Mode): (r: Outcome)
    ensures r.Done? ==> r.fs.p == fs.p
  {
    if !fs.ValidInum(i) then Panic
    else
      var cut := if mode.trunc then Truncate(fs, i) else Done(fs, 0, []);
      if cut.Panic? then Panic
      else AddToOpenFileTable(cut.fs, i, if mode.append then cut.fs.inodes[i].size else 0)
  }

  function OpenNew(fs: Fs, name: cstring): (r: Outcome)
    ensures r.Done? ==> r.fs.p == fs.p
  {
    var i := FirstFree(fs.inodeTaken);
    if i == -1 then Done(fs, -1, [])
    else
      var created := TakeInode(fs, i);
      var added := AddDirEntry(created, name, i);
      if added.Panic? then Panic
      else if added.ret == -1 then
        var undone := InodeDelete(added.fs, i);
        if undone.Panic? then Panic else Done(undone.fs, -1, [])
      else AddToOpenFileTable(added.fs, i, 0)
  }

  function OpenOp(fs: Fs, path: Option<cstring>, mode: Mode): (r: Outcome)
    ensures r.Done? ==> r.fs.p == fs.p
  {
    if !ValidPath(path) then Done(fs, -1, [])
    else
      var found := FindInDir(fs, FileName(path));
      if found.Panic? then Panic
      else if found.ret >= 0 then OpenExisting(fs, found.ret, mode)
      else if mode.creat then OpenNew(fs, FileName(path))
      else Done(fs, -1, [])
  }

  function CloseOp(fs: Fs, h: int): (r: Outcome)
    ensures r.Done? ==> r.fs.p == fs.p
  {
    if !fs.IsOpen(h) then Done(fs, -1, [])
    else Done(fs.(handleTaken := fs.handleTaken[h := false]), 0, [])
  }

  /** The copy into the file's block, and the new offset and size. */
  function WriteCopy(fs: Fs, h: int, buffer: seq<byte>, n: nat): Outcome
    requires fs.IsOpen(h)
  {
    var f := fs.files[h];
    if !fs.ValidInum(f.inum) || !fs.ValidBlock(fs.inodes[f.inum].block) then Panic
    else
      var node := fs.inodes[f.inum];
      var p := BlockStart(fs, node.block) + f.offset;
      if n > |buffer| || p + n > |fs.data| then Panic
      else
        var offset := f.offset + n;
        Done(fs.(data := Splice(fs.data, p, buffer[..n]),
                 files := fs.files[h := f.(offset := offset)],
                 inodes := fs.inodes[f.inum := node.(size := if offset > node.size then offset else node.size)]),
             n, [])
  }

  /** data_block_alloc, and the block number stored in the inode. */
  function GiveBlock(fs: Fs, i: nat, b: nat): Fs
    requires i < |fs.inodes| && b < |fs.blockTaken|
  {
    fs.(blockTaken := fs.blockTaken[b := true], inodes := fs.inodes[i := fs.inodes[i].(block := b)])
  }

  function WriteOp(fs: Fs, h: int, buffer: seq<byte>): (r: Outcome)
    ensures r.Done? ==> r.fs.p == fs.p
  {
    if !fs.IsOpen(h) then Done(fs, -1, [])
    else
      var f := fs.files[h];
      if !fs.ValidInum(f.inum) then Panic
      else
        var n := WriteClip(|buffer|, f.offset, fs.p.blockSize);
        if n == 0 then Done(fs, 0, [])
        else if fs.inodes[f.inum].size > 0 then WriteCopy(fs, h, buffer, n)
        else
          var b := FirstFree(fs.blockTaken);
          if b == -1 then Done(fs, -1, []) else WriteCopy(GiveBlock(fs, f.inum, b), h, buffer, n)
  }

  function ReadOp(fs: Fs, h: int, len: nat): (r: Outcome)
    ensures r.Done? ==> r.fs.p == fs.p
  {
    if !fs.IsOpen(h) then Done(fs, -1, [])
    else
      var f := fs.files[h];
      if !fs.ValidInum(f.inum) then Panic
      else
        var node := fs.inodes[f.inum];
        var n := ReadClip(node.size, f.offset, len);
        if n == 0 then Done(fs, 0, [])
        else if !fs.ValidBlock(node.block) then Panic
        else
          var p := BlockStart(fs, node.block) + f.offset;
          if p + n > |fs.data| then Panic
          else Done(fs.(files := fs.files[h := f.(offset := f.offset + n)]), n, fs.data[p..p + n])
  }

  function UnlinkOp(fs: Fs, path: Option<cstring>): (r: Outcome)
    ensures r.Done? ==> r.fs.p == fs.p
  {
    if !ValidPath(path) then Done(fs, -1, [])
    else
      var found := FindInDir(fs, FileName(path));
      if found.Panic? then Panic
      else if found.ret == -1 then Done(fs, -1, [])
      else
        var deleted := InodeDelete(fs, found.ret);
        if deleted.Panic? then Panic else ClearDirEntry(deleted.fs, FileName(path))
  }

  function Apply(fs: Fs, op: Op): (r: Outcome)
    ensures r.Done? ==> r.fs.p == fs.p
  {
    match op
    case Open(path, mode) => OpenOp(fs, path, mode)
    case Close(h) => CloseOp(fs, h)
    case Write(h, buffer) => WriteOp(fs, h, buffer)
    case Read(h, len) => ReadOp(fs, h, len)
    case Unlink(path) => UnlinkOp(fs, path)
  }

  /** The write clip is what it is meant to be exactly when the sum does not wrap. */
  lemma WriteClipIsMinIff(toWrite: nat, offset: nat, blockSize: nat)
    requires toWrite <= SIZE_MAX && offset <= blockSize < SIZE_MAX
    ensures WriteClip(toWrite, offset, blockSize) == (if toWrite <= blockSize - offset then toWrite else blockSize - offset)
        <==> toWrite + offset <= SIZE_MAX
  {
  }

  /** The read clip is what it is meant to be exactly when the read does not start past the
      end of the file, or asks for nothing. */
  lemma ReadClipIsMinIff(size: nat, offset: nat, len: nat)
    requires size <= SSIZE_MAX && offset <= SSIZE_MAX && len <= SIZE_MAX
    ensures ReadClip(size, offset, len) == (if offset >= size then 0 else if len <= size - offset then len else size - offset)
        <==> offset <= size || len == 0
  {
  }
}
