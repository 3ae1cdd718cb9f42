/**
 Every operation keeps `Sound`; disciplined operations, and only those, keep `Consistent`.
 The operations are taken apart into the few changes of state that they are made of.
 */
module Preservation {
  import opened CMemory
  import opened TfsState
  import opened TfsOperations
  import opened Invariants

  // ---------- Finding a file ----------

  /** A lookup on a sound state never fails an assertion and finds live files only. */
  lemma LookupFindsLive(fs: Fs, name: cstring)
    requires Sound(fs)
    ensures FindInDir(fs, name).Done? && FindInDir(fs, name).fs == fs
    ensures var r := FindSlot(Dir(fs), name);
      FindInDir(fs, name).ret == (if r == -1 then -1 else Dir(fs)[r].inum) && (r != -1 ==> Live(fs, Dir(fs)[r].inum))
  {
  }

  // ---------- Truncating ----------

  ghost predicate HandlesAtZero(fs: Fs, i: int) {
    forall h :: fs.IsOpen(h) && fs.files[h].inum == i ==> fs.files[h].offset == 0
  }

  lemma TruncateSound(fs: Fs, i: nat)
    requires Sound(fs) && Live(fs, i)
    ensures Truncate(fs, i).Done?
    ensures var r := Truncate(fs, i).fs;
      Sound(r) && Dir(r) == Dir(fs) && r.inodes[ROOT] == fs.inodes[ROOT]
  {
    assert NodeOk(fs, i);
    var r := Truncate(fs, i).fs;
    assert Dir(r) == Dir(fs);
    assert forall k :: Live(r, k) <==> Live(fs, k);
    TruncateTables(fs, i);
  }

  lemma TruncateTables(fs: Fs, i: nat)
    requires RootOk(fs) && Nodes(fs) && Handles(fs) && Ownership(fs)
    requires Live(fs, i) && Truncate(fs, i).Done?
    ensures var r := Truncate(fs, i).fs; RootOk(r) && Nodes(r) && Handles(r) && Ownership(r)
  {
    var r := Truncate(fs, i).fs;
    assert NodeOk(fs, i);
    assert Nodes(r) by {
      forall k | Live(r, k) ensures NodeOk(r, k) { assert NodeOk(fs, k); }
    }
    assert Handles(r) by {
      forall h | r.IsOpen(h) ensures NodeOk(r, r.files[h].inum) { assert fs.IsOpen(h); }
    }
    assert forall k :: NonEmpty(r, k) ==> NonEmpty(fs, k) && k != i;
  }

  lemma TruncateConsistent(fs: Fs, i: nat)
    requires Consistent(fs) && Live(fs, i) && HandlesAtZero(fs, i)
    requires Truncate(fs, i).Done? && Sound(Truncate(fs, i).fs)
    ensures Consistent(Truncate(fs, i).fs)
  {
    assert NodeOk(fs, i);
    var r := Truncate(fs, i).fs;
    assert HandlesLive(r) by {
      forall h | r.IsOpen(h) ensures Live(r, r.files[h].inum) && r.files[h].offset <= r.inodes[r.files[h].inum].size {
        assert fs.IsOpen(h) && Live(fs, fs.files[h].inum);
      }
    }
    forall b | 0 <= b < |r.blockTaken| && r.blockTaken[b] && b != r.inodes[ROOT].block ensures HasOwner(r, b) {
      assert HasOwner(fs, b);
      var k :| NonEmpty(fs, k) && fs.inodes[k].block == b;
      assert NonEmpty(r, k);
    }
  }

  // ---------- Opening a handle, closing one, moving an offset ----------

  /** States that differ in the open-file table only. */
  predicate SameFiles(fs: Fs, r: Fs) {
    r == fs.(files := r.files, handleTaken := r.handleTaken)
  }

  lemma HandleTableSound(fs: Fs, r: Fs)
    requires Sound(fs) && SameFiles(fs, r) && Handles(r)
    ensures Sound(r) && Dir(r) == Dir(fs)
  {
    assert forall k :: Live(r, k) <==> Live(fs, k);
    assert Nodes(r) by {
      forall k | Live(r, k) ensures NodeOk(r, k) { assert NodeOk(fs, k); }
    }
    assert forall k :: NonEmpty(r, k) <==> NonEmpty(fs, k);
  }

  lemma HandleTableConsistent(fs: Fs, r: Fs)
    requires Consistent(fs) && SameFiles(fs, r) && Sound(r) && HandlesLive(r)
    ensures Consistent(r)
  {
  }

  lemma AddHandleSound(fs: Fs, i: int, offset: nat)
    requires Sound(fs) && Live(fs, i) && offset <= fs.p.blockSize
    ensures AddToOpenFileTable(fs, i, offset).Done?
    ensures var r := AddToOpenFileTable(fs, i, offset).fs;
      Sound(r) && Dir(r) == Dir(fs) && SameFiles(fs, r)
  {
    var r := AddToOpenFileTable(fs, i, offset).fs;
    assert NodeOk(fs, i);
    forall h | r.IsOpen(h)
      ensures 0 < r.files[h].inum < |r.inodes| && NodeOk(r, r.files[h].inum) && r.files[h].offset <= r.p.blockSize
    {
      if r.files[h] != OpenFile(i, offset) { assert fs.IsOpen(h); }
    }
    HandleTableSound(fs, r);
  }

  lemma AddHandleConsistent(fs: Fs, i: int, offset: nat)
    requires Consistent(fs) && Live(fs, i) && offset <= fs.inodes[i].size
    ensures AddToOpenFileTable(fs, i, offset).Done? && Consistent(AddToOpenFileTable(fs, i, offset).fs)
  {
    var r := AddToOpenFileTable(fs, i, offset).fs;
    assert NodeOk(fs, i);
    AddHandleSound(fs, i, offset);
    forall h | r.IsOpen(h) ensures Live(r, r.files[h].inum) && r.files[h].offset <= r.inodes[r.files[h].inum].size {
      if r.files[h] != OpenFile(i, offset) { assert fs.IsOpen(h); }
    }
    HandleTableConsistent(fs, r);
  }

  lemma CloseKeeps(fs: Fs, h: int)
    requires Sound(fs)
    ensures CloseOp(fs, h).Done?
    ensures var r := CloseOp(fs, h).fs; Sound(r) && Dir(r) == Dir(fs) && SameFiles(fs, r)
    ensures Consistent(fs) ==> Consistent(CloseOp(fs, h).fs)
  {
    var r := CloseOp(fs, h).fs;
    assert forall g :: r.IsOpen(g) ==> fs.IsOpen(g) && r.files[g] == fs.files[g];
    assert Handles(r) by {
      forall g | r.IsOpen(g) ensures NodeOk(r, r.files[g].inum) { assert fs.IsOpen(g); }
    }
    HandleTableSound(fs, r);
    if Consistent(fs) {
      HandleTableConsistent(fs, r);
    }
  }

  /** A read that does not start past the end of the file. */
  predicate ReadsWithin(fs: Fs, h: int) {
    fs.IsOpen(h) && fs.ValidInum(fs.files[h].inum) ==> fs.files[h].offset <= fs.inodes[fs.files[h].inum].size
  }

  function MoveOffset(fs: Fs, h: int, offset: nat): Fs
    requires fs.IsOpen(h)
  {
    fs.(files := fs.files[h := fs.files[h].(offset := offset)])
  }

  lemma MoveOffsetSound(fs: Fs, h: int, offset: nat)
    requires Sound(fs) && fs.IsOpen(h) && offset <= fs.p.blockSize
    ensures Sound(MoveOffset(fs, h, offset)) && Dir(MoveOffset(fs, h, offset)) == Dir(fs)
  {
    var r := MoveOffset(fs, h, offset);
    assert Handles(r) by {
      forall g | r.IsOpen(g)
        ensures 0 < r.files[g].inum < |r.inodes| && NodeOk(r, r.files[g].inum) && r.files[g].offset <= r.p.blockSize
      {
        assert fs.IsOpen(g) && NodeOk(fs, fs.files[g].inum);
      }
    }
    HandleTableSound(fs, r);
  }

  lemma MoveOffsetConsistent(fs: Fs, h: int, offset: nat)
    requires Consistent(fs) && fs.IsOpen(h) && offset <= fs.inodes[fs.files[h].inum].size
    ensures Consistent(MoveOffset(fs, h, offset))
  {
    var r := MoveOffset(fs, h, offset);
    assert NodeOk(fs, fs.files[h].inum);
    MoveOffsetSound(fs, h, offset);
    assert HandlesLive(r) by {
      forall g | r.IsOpen(g) ensures Live(r, r.files[g].inum) && r.files[g].offset <= r.inodes[r.files[g].inum].size {
        assert fs.IsOpen(g) && Live(fs, fs.files[g].inum);
      }
    }
    HandleTableConsistent(fs, r);
  }

  /** What a read that does not start past the end does: it moves its own offset, not past
      the end, and returns the bytes in between. */
  lemma ReadMovesOffset(fs: Fs, h: int, len: nat)
    requires Sound(fs) && ReadsWithin(fs, h) && fs.IsOpen(h)
    ensures
      var f := fs.files[h]; var node := fs.inodes[f.inum]; var r := ReadOp(fs, h, len);
      var n := if len <= node.size - f.offset then len else node.size - f.offset;
      && f.offset <= node.size && f.offset + n <= fs.p.blockSize && ReadClip(node.size, f.offset, len) == n
      && (n > 0 ==> fs.ValidBlock(node.block))
      && r.Done? && r.ret == n && r.fs == MoveOffset(fs, h, f.offset + n)
      && r.out == if n == 0 then [] else
           var p := BlockStart(fs, node.block) + f.offset; fs.data[p..p + n]
  {
    hide DirOk, Entries, Nodes, Ownership, Dir;
    var f := fs.files[h];
    assert NodeOk(fs, f.inum);
    if ReadClip(fs.inodes[f.inum].size, f.offset, len) == 0 {
      assert fs.files[h := f] == fs.files;
    }
  }

  lemma ReadKeeps(fs: Fs, h: int, len: nat)
    requires Sound(fs) && ReadsWithin(fs, h)
    ensures ReadOp(fs, h, len).Done?
    ensures var r := ReadOp(fs, h, len).fs; Sound(r) && Dir(r) == Dir(fs) && SameFiles(fs, r)
    ensures Consistent(fs) ==> Consistent(ReadOp(fs, h, len).fs)
  {
    if fs.IsOpen(h) {
      var f := fs.files[h];
      assert NodeOk(fs, f.inum);
      ReadMovesOffset(fs, h, len);
      var offset := ReadOp(fs, h, len).fs.files[h].offset;
      MoveOffsetSound(fs, h, offset);
      if Consistent(fs) {
        MoveOffsetConsistent(fs, h, offset);
      }
    }
  }

  // ---------- Creating ----------

  function CreateFile(fs: Fs, name: cstring, i: nat, slot: nat): Fs
    requires i < |fs.inodes|
    requires fs.ValidBlock(TakeInode(fs, i).inodes[ROOT].block) && slot < fs.p.DirCapacity()
  {
    WriteSlot(TakeInode(fs, i), slot, EntryBytes(name, i))
  }

  lemma CreateDir(fs: Fs, name: cstring, i: nat, slot: nat)
    requires Sound(fs) && 1 <= |name| < MAX_FILE_NAME && FindSlot(Dir(fs), name) == -1
    requires i == FirstFree(fs.inodeTaken) && slot == FirstUnused(Dir(fs))
    ensures var r := CreateFile(fs, name, i, slot);
      && RootOk(r) && r.inodes[ROOT] == fs.inodes[ROOT]
      && Dir(r) == Dir(fs)[slot := SlotAt(EntryBytes(name, i), 0)]
      && DirOk(Dir(r))
      && Dir(r)[slot].inum == i && Dir(r)[slot].Name() == name
  {
    EntryReadsBack(name, i);
    DirAfterWriteSlot(TakeInode(fs, i), slot, EntryBytes(name, i));
    assert Dir(TakeInode(fs, i)) == Dir(fs);
    FindSlotIsLookup(Dir(fs), name);
    DirOkAdd(Dir(fs), slot, SlotAt(EntryBytes(name, i), 0));
  }

  lemma EntriesAdd(d: seq<Slot>, slot: nat, s: Slot, fs: Fs, r: Fs)
    requires Entries(d, fs) && slot < |d| && !d[slot].Used()
    requires forall k :: Live(r, k) <==> Live(fs, k) || k == s.inum
    ensures Entries(d[slot := s], r)
  {
    var e := d[slot := s];
    forall k | Live(r, k) ensures HasEntry(e, k) {
      if k == s.inum {
        assert e[slot].inum == k;
      } else {
        assert HasEntry(d, k);
        var j :| 0 <= j < |d| && d[j].inum == k;
        assert Live(fs, k) && j != slot && e[j].inum == k;
      }
    }
  }

  lemma CreateSound(fs: Fs, name: cstring, i: nat, slot: nat)
    requires Sound(fs) && 1 <= |name| < MAX_FILE_NAME && FindSlot(Dir(fs), name) == -1
    requires i == FirstFree(fs.inodeTaken) && slot == FirstUnused(Dir(fs))
    ensures var r := CreateFile(fs, name, i, slot); Sound(r) && Live(r, i)
  {
    CreateDir(fs, name, i, slot);
    var r := CreateFile(fs, name, i, slot);
    assert forall k :: Live(r, k) <==> Live(fs, k) || k == i;
    var s := SlotAt(EntryBytes(name, i), 0);
    assert Dir(r)[slot] == s;
    assert Entries(Dir(r), r) by { EntriesAdd(Dir(fs), slot, s, fs, r); }
    assert Nodes(r) && Handles(r) && Ownership(r) by { CreateTables(fs, name, i, slot); }
  }

  lemma CreateTables(fs: Fs, name: cstring, i: nat, slot: nat)
    requires RootOk(fs) && Nodes(fs) && Handles(fs) && Ownership(fs)
    requires i == FirstFree(fs.inodeTaken) && i > 0 && slot < fs.p.DirCapacity()
    ensures var r := CreateFile(fs, name, i, slot); Nodes(r) && Handles(r) && Ownership(r)
  {
    var r := CreateFile(fs, name, i, slot);
    assert forall k :: Live(r, k) <==> Live(fs, k) || k == i;
    assert Nodes(r) by {
      forall k | Live(r, k) ensures NodeOk(r, k) { if k != i { assert NodeOk(fs, k); } }
    }
    assert Handles(r) by {
      forall h | r.IsOpen(h) ensures NodeOk(r, r.files[h].inum) { assert fs.IsOpen(h); }
    }
    assert forall k :: NonEmpty(r, k) <==> NonEmpty(fs, k);
  }

  lemma CreateConsistent(fs: Fs, name: cstring, i: nat, slot: nat)
    requires Consistent(fs) && i == FirstFree(fs.inodeTaken) && slot == FirstUnused(Dir(fs))
    requires Sound(CreateFile(fs, name, i, slot))
    ensures Consistent(CreateFile(fs, name, i, slot))
  {
    var r := CreateFile(fs, name, i, slot);
    assert HandlesLive(r) by {
      forall h | r.IsOpen(h) ensures Live(r, r.files[h].inum) && r.files[h].offset <= r.inodes[r.files[h].inum].size {
        assert fs.IsOpen(h);
      }
    }
    forall b | 0 <= b < |r.blockTaken| && r.blockTaken[b] && b != r.inodes[ROOT].block ensures HasOwner(r, b) {
      assert HasOwner(fs, b);
      var k :| NonEmpty(fs, k) && fs.inodes[k].block == b;
      assert NonEmpty(r, k);
    }
  }

  // ---------- Unlinking ----------

  /** The two halves of an unlink together: inode and block freed, record cleared. */
  function RemoveFile(fs: Fs, i: nat, slot: nat): Fs
    requires i < |fs.inodes| && InodeDelete(fs, i).Done?
    requires fs.ValidBlock(fs.inodes[ROOT].block) && slot < fs.p.DirCapacity()
  {
    WriteSlot(InodeDelete(fs, i).fs, slot, ClearedBytes())
  }

  lemma RemoveDir(fs: Fs, name: cstring)
    requires Sound(fs) && FindSlot(Dir(fs), name) != -1
    ensures var slot := FindSlot(Dir(fs), name); var i := Dir(fs)[slot].inum;
      && Live(fs, i) && InodeDelete(fs, i).Done?
      && ClearDirEntry(InodeDelete(fs, i).fs, name) == Done(RemoveFile(fs, i, slot), 0, [])
      && var r := RemoveFile(fs, i, slot);
         RootOk(r) && r.inodes == fs.inodes && DirOk(Dir(r)) && Dir(r) == Dir(fs)[slot := SlotAt(ClearedBytes(), 0)]
         && !Dir(r)[slot].Used()
  {
    var d, slot := Dir(fs), FindSlot(Dir(fs), name);
    FindSlotIsLookup(d, name);
    var i := d[slot].inum;
    assert NodeOk(fs, i);
    var deleted := InodeDelete(fs, i).fs;
    assert Dir(deleted) == d && RootOk(deleted);
    ClearFindsSameSlot(deleted, name);
    DirAfterWriteSlot(deleted, slot, ClearedBytes());
    ClearedReadsBack();
    DirOkClear(d, slot, SlotAt(ClearedBytes(), 0));
  }

  lemma EntriesRemove(d: seq<Slot>, slot: nat, s: Slot, fs: Fs, r: Fs)
    requires DirOk(d) && Entries(d, fs) && slot < |d| && d[slot].Used() && !s.Used()
    requires forall k :: Live(r, k) <==> Live(fs, k) && k != d[slot].inum
    ensures Entries(d[slot := s], r)
  {
    var e := d[slot := s];
    forall k | Live(r, k) ensures HasEntry(e, k) {
      assert HasEntry(d, k);
      var j :| 0 <= j < |d| && d[j].inum == k;
      assert e[j].inum == k;
    }
  }

  lemma RemoveTables(fs: Fs, i: nat, slot: nat)
    requires RootOk(fs) && Nodes(fs) && Handles(fs) && Ownership(fs)
    requires Live(fs, i) && slot < fs.p.DirCapacity() && InodeDelete(fs, i).Done?
    ensures var r := RemoveFile(fs, i, slot); Nodes(r) && Handles(r) && Ownership(r)
  {
    var r := RemoveFile(fs, i, slot);
    assert forall k :: Live(r, k) <==> Live(fs, k) && k != i;
    assert Nodes(r) by {
      forall k | Live(r, k) ensures NodeOk(r, k) { assert NodeOk(fs, k); }
    }
    assert Handles(r) by {
      forall h | r.IsOpen(h) ensures NodeOk(r, r.files[h].inum) { assert fs.IsOpen(h); }
    }
    assert forall k :: NonEmpty(r, k) <==> NonEmpty(fs, k) && k != i;
  }

  lemma RemoveSound(fs: Fs, name: cstring)
    requires Sound(fs) && FindSlot(Dir(fs), name) != -1
    ensures var slot := FindSlot(Dir(fs), name); var i := Dir(fs)[slot].inum;
      Live(fs, i) && InodeDelete(fs, i).Done? && Sound(RemoveFile(fs, i, slot))
  {
    hide Nodes, Handles, Ownership, Dir, Splice, ClearedBytes, ClearDirEntry;
    RemoveDir(fs, name);
    FindSlotIsLookup(Dir(fs), name);
    var slot := FindSlot(Dir(fs), name);
    var i := Dir(fs)[slot].inum;
    var r := RemoveFile(fs, i, slot);
    assert forall k :: Live(r, k) <==> Live(fs, k) && k != i;
    EntriesRemove(Dir(fs), slot, SlotAt(ClearedBytes(), 0), fs, r);
    RemoveTables(fs, i, slot);
  }

  ghost predicate NoHandles(fs: Fs, i: int) {
    forall h :: fs.IsOpen(h) ==> fs.files[h].inum != i
  }

  lemma RemoveConsistent(fs: Fs, name: cstring)
    requires Consistent(fs) && FindSlot(Dir(fs), name) != -1
    requires NoHandles(fs, Dir(fs)[FindSlot(Dir(fs), name)].inum)
    ensures var slot := FindSlot(Dir(fs), name); var i := Dir(fs)[slot].inum;
      Live(fs, i) && InodeDelete(fs, i).Done? && Consistent(RemoveFile(fs, i, slot))
  {
    RemoveSound(fs, name);
    var slot := FindSlot(Dir(fs), name);
    var i := Dir(fs)[slot].inum;
    var r := RemoveFile(fs, i, slot);
    assert HandlesLive(r) by {
      forall h | r.IsOpen(h) ensures Live(r, r.files[h].inum) && r.files[h].offset <= r.inodes[r.files[h].inum].size {
        assert fs.IsOpen(h);
      }
    }
    forall b | 0 <= b < |r.blockTaken| && r.blockTaken[b] && b != r.inodes[ROOT].block ensures HasOwner(r, b) {
      assert HasOwner(fs, b);
      var k :| NonEmpty(fs, k) && fs.inodes[k].block == b;
      assert NonEmpty(r, k);
    }
  }

  // ---------- Writing ----------

  /** The block that a copy through handle h goes to: valid, not the root's, and, when the
      file is live, its own. */
  ghost predicate CopyTarget(fs: Fs, h: int, n: nat) {
    && fs.IsOpen(h) && 0 < fs.files[h].inum < |fs.inodes|
    && var i := fs.files[h].inum; var b := fs.inodes[i].block;
    && fs.ValidBlock(b) && b != fs.inodes[ROOT].block
    && 0 < n && fs.files[h].offset + n <= fs.p.blockSize
    && (Live(fs, i) ==> fs.blockTaken[b] && forall k :: NonEmpty(fs, k) && k != i ==> fs.inodes[k].block != b)
  }

  /** The copy stays inside that block, so it never reaches the directory. */
  lemma CopyKeepsDir(fs: Fs, h: int, buffer: seq<byte>, n: nat)
    requires RootOk(fs) && CopyTarget(fs, h, n) && n <= |buffer|
    ensures WriteCopy(fs, h, buffer, n).Done?
    ensures var r := WriteCopy(fs, h, buffer, n).fs;
      r.inodes[ROOT] == fs.inodes[ROOT] && Dir(r) == Dir(fs) && RootOk(r)
  {
    var r := WriteCopy(fs, h, buffer, n).fs;
    var f := fs.files[h];
    CopyStaysInBlock(fs, fs.inodes[f.inum].block, f.offset, buffer[..n], fs.inodes[ROOT].block);
    DirFromBlock(fs, r);
  }

  lemma CopyTables(fs: Fs, h: int, buffer: seq<byte>, n: nat)
    requires RootOk(fs) && Nodes(fs) && Handles(fs) && Ownership(fs)
    requires CopyTarget(fs, h, n) && n <= |buffer| && WriteCopy(fs, h, buffer, n).Done?
    ensures var r := WriteCopy(fs, h, buffer, n).fs; Nodes(r) && Handles(r) && Ownership(r)
  {
    var r := WriteCopy(fs, h, buffer, n).fs;
    var i := fs.files[h].inum;
    assert forall k :: Live(r, k) <==> Live(fs, k);
    assert NodeOk(fs, i);
    assert Nodes(r) by {
      forall k | Live(r, k) ensures NodeOk(r, k) { assert NodeOk(fs, k); }
    }
    assert Handles(r) by {
      forall g | r.IsOpen(g)
        ensures 0 < r.files[g].inum < |r.inodes| && NodeOk(r, r.files[g].inum) && r.files[g].offset <= r.p.blockSize
      {
        assert fs.IsOpen(g) && NodeOk(fs, fs.files[g].inum);
      }
    }
    assert forall k :: k != i ==> (NonEmpty(r, k) <==> NonEmpty(fs, k));
  }

  lemma CopySound(fs: Fs, h: int, buffer: seq<byte>, n: nat)
    requires Sound(fs) && CopyTarget(fs, h, n) && n <= |buffer|
    ensures WriteCopy(fs, h, buffer, n).Done? && Sound(WriteCopy(fs, h, buffer, n).fs)
  {
    CopyKeepsDir(fs, h, buffer, n);
    CopyTables(fs, h, buffer, n);
    var r := WriteCopy(fs, h, buffer, n).fs;
    assert forall k :: Live(r, k) <==> Live(fs, k);
  }

  ghost predicate NoOrphansExcept(fs: Fs, b: int) {
    forall c :: 0 <= c < |fs.blockTaken| && fs.blockTaken[c] && c != fs.inodes[ROOT].block && c != b ==> HasOwner(fs, c)
  }

  lemma CopyConsistent(fs: Fs, h: int, buffer: seq<byte>, n: nat)
    requires HandlesLive(fs) && CopyTarget(fs, h, n) && n <= |buffer|
    requires NoOrphansExcept(fs, fs.inodes[fs.files[h].inum].block)
    requires WriteCopy(fs, h, buffer, n).Done? && Sound(WriteCopy(fs, h, buffer, n).fs)
    ensures Consistent(WriteCopy(fs, h, buffer, n).fs)
  {
    var r := WriteCopy(fs, h, buffer, n).fs;
    var i := fs.files[h].inum;
    assert HandlesLive(r) by {
      forall g | r.IsOpen(g) ensures Live(r, r.files[g].inum) && r.files[g].offset <= r.inodes[r.files[g].inum].size {
        assert fs.IsOpen(g) && Live(fs, fs.files[g].inum);
      }
    }
    assert NonEmpty(r, i);
    forall c | 0 <= c < |r.blockTaken| && r.blockTaken[c] && c != r.inodes[ROOT].block ensures HasOwner(r, c) {
      if c != r.inodes[i].block {
        assert HasOwner(fs, c);
        var k :| NonEmpty(fs, k) && fs.inodes[k].block == c;
        assert NonEmpty(r, k);
      }
    }
  }

  /** Giving a free block to an empty file is invisible until its size grows. */
  lemma GiveBlockSound(fs: Fs, i: nat)
    requires Sound(fs) && 0 < i < |fs.inodes| && fs.inodes[i].size == 0 && NodeOk(fs, i)
    requires FirstFree(fs.blockTaken) != -1
    ensures var b := FirstFree(fs.blockTaken); var r := GiveBlock(fs, i, b);
      Sound(r) && Dir(r) == Dir(fs) && b != fs.inodes[ROOT].block
      && forall k :: NonEmpty(r, k) ==> k != i && r.inodes[k].block != b
  {
    var b := FirstFree(fs.blockTaken);
    var r := GiveBlock(fs, i, b);
    assert Dir(r) == Dir(fs);
    assert forall k :: Live(r, k) <==> Live(fs, k);
    assert Nodes(r) by {
      forall k | Live(r, k) ensures NodeOk(r, k) { assert NodeOk(fs, k); }
    }
    assert Handles(r) by {
      forall h | r.IsOpen(h) ensures NodeOk(r, r.files[h].inum) { assert fs.IsOpen(h); }
    }
    assert forall k :: NonEmpty(r, k) <==> NonEmpty(fs, k);
  }

  lemma GiveBlockConsistent(fs: Fs, i: nat)
    requires Consistent(fs) && i < |fs.inodes| && fs.inodes[i].size == 0 && FirstFree(fs.blockTaken) != -1 && i != ROOT
    ensures var b := FirstFree(fs.blockTaken); var r := GiveBlock(fs, i, b); HandlesLive(r) && NoOrphansExcept(r, b)
  {
    var b := FirstFree(fs.blockTaken);
    var r := GiveBlock(fs, i, b);
    assert HandlesLive(r) by {
      forall g | r.IsOpen(g) ensures Live(r, r.files[g].inum) && r.files[g].offset <= r.inodes[r.files[g].inum].size {
        assert fs.IsOpen(g) && Live(fs, fs.files[g].inum);
      }
    }
    forall c | 0 <= c < |r.blockTaken| && r.blockTaken[c] && c != r.inodes[ROOT].block && c != b ensures HasOwner(r, c) {
      assert HasOwner(fs, c);
      var k :| NonEmpty(fs, k) && fs.inodes[k].block == c;
      assert NonEmpty(r, k);
    }
  }
}
