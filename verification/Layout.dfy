/**
 What the primitives of state.c store, byte by byte and field by field.
 */
module Layout {
  import opened CMemory
  import opened TfsState
  import opened Invariants

  // ---------- inode_create ----------

  /** The bytes at d_inumber of the first n records. */
  predicate InumberByte(base: nat, n: nat, k: nat) {
    base <= k < base + 44 * n && (k - base) % 44 >= 40
  }

  lemma OneMoreRecord(base: nat, n: nat, k: nat)
    requires n > 0
    ensures var last := base + 44 * (n - 1);
      InumberByte(base, n, k) <==> InumberByte(base, n - 1, k) || last + 40 <= k < last + 44
  {
    var last := base + 44 * (n - 1);
    if last <= k < last + 44 {
      assert k - base == 44 * (n - 1) + (k - last);
    }
  }

  lemma LabelStep(data: seq<byte>, base: nat, n: nat)
    requires n > 0 && base + 44 * n <= |data|
    ensures var last := base + 44 * (n - 1); var before, r := LabelUnused(data, base, n - 1), LabelUnused(data, base, n);
      forall k :: 0 <= k < |data| ==> r[k] == if last + 40 <= k < last + 44 then 255 else before[k]
  {
    assert EncodeInt(NO_INODE) == [255, 255, 255, 255];
  }

  lemma {:induction false} LabelStores(data: seq<byte>, base: nat, n: nat)
    requires base + 44 * n <= |data|
    ensures var r := LabelUnused(data, base, n);
      forall k :: 0 <= k < |data| ==> r[k] == if InumberByte(base, n, k) then 255 else data[k]
  {
    if n == 0 {
      assert LabelUnused(data, base, 0) == data;
    } else {
      hide *;
      LabelStores(data, base, n - 1);
      LabelStep(data, base, n);
      forall k | 0 <= k < |data| ensures LabelUnused(data, base, n)[k] == if InumberByte(base, n, k) then 255 else data[k] {
        OneMoreRecord(base, n, k);
      }
    }
  }

  /** inode_create fails exactly when no inode is FREE or, for a directory, no block is; then all
      tables but the record of a FREE inode are as they were. */
  lemma InodeCreateFails(fs: Fs, kind: NodeKind)
    ensures var (r, i) := InodeCreate(fs, kind);
      && (i == -1 <==> (forall k :: 0 <= k < |fs.inodeTaken| ==> fs.inodeTaken[k])
                       || (kind == Directory && forall b :: 0 <= b < |fs.blockTaken| ==> fs.blockTaken[b]))
      && (i == -1 ==>
            && r.inodeTaken == fs.inodeTaken && r.blockTaken == fs.blockTaken && r.handleTaken == fs.handleTaken
            && r.data == fs.data && r.files == fs.files
            && forall k :: 0 <= k < |fs.inodes| && fs.inodeTaken[k] ==> r.inodes[k] == fs.inodes[k])
  {
  }

  /** A new regular file: the least FREE inode is TAKEN, and its record says empty and no block. */
  lemma FileCreated(fs: Fs)
    ensures var (r, i) := InodeCreate(fs, File);
      i != -1 ==>
        && 0 <= i < |fs.inodes| && !fs.inodeTaken[i] && (forall k :: 0 <= k < i ==> fs.inodeTaken[k])
        && r == fs.(inodes := fs.inodes[i := Inode(File, 0, -1)], inodeTaken := fs.inodeTaken[i := true])
  {
  }

  /** A new directory: the least FREE inode and the least FREE block are TAKEN; the bytes 255 at
      the inumber of every record that fits say -1, and no other byte is stored. */
  lemma DirectoryCreated(fs: Fs)
    ensures var (r, i) := InodeCreate(fs, Directory);
      i != -1 ==>
        && 0 <= i < |fs.inodes| && !fs.inodeTaken[i] && (forall k :: 0 <= k < i ==> fs.inodeTaken[k])
        && var b := r.inodes[i].block;
           && 0 <= b < |fs.blockTaken| && !fs.blockTaken[b] && (forall k :: 0 <= k < b ==> fs.blockTaken[k])
           && r.inodes == fs.inodes[i := Inode(Directory, fs.p.blockSize, b)] && r.inodeTaken == fs.inodeTaken[i := true]
           && r.blockTaken == fs.blockTaken[b := true] && r.files == fs.files && r.handleTaken == fs.handleTaken
           && |r.data| == |fs.data|
           && forall k :: 0 <= k < |fs.data| ==>
                r.data[k] == if InumberByte(Times(b, fs.p.blockSize), fs.p.blockSize / 44, k) then 255 else fs.data[k]
  {
    hide LabelUnused, InumberByte;
    var b := FirstFree(fs.blockTaken);
    if b != -1 {
      DirectoryInBlock(fs.p);
      LabelStores(fs.data, BlockStart(fs, b), fs.p.DirCapacity());
    }
  }

  // ---------- Directory records ----------

  /** The 44 bytes of a record: the name, zeros up to byte 40, the inumber, low byte first. */
  predicate IsRecord(b: seq<byte>, name: cstring, inum: int) {
    && |b| == 44 && |name| < 40 && b[..|name|] == name && (forall k :: |name| <= k < 40 ==> b[k] == 0)
    && b[40] == inum % 256 && b[41] == inum / 256 % 256 && b[42] == inum / 65536 % 256 && b[43] == inum / 16777216 % 256
  }

  lemma IntLayout(n: int)
    requires 0 <= n <= INT_MAX
    ensures EncodeInt(n) == [n % 256, n / 256 % 256, n / 65536 % 256, n / 16777216 % 256]
  {
  }

  lemma EntryLayout(name: cstring, inum: int)
    requires |name| < 40 && 0 <= inum <= INT_MAX
    ensures IsRecord(EntryBytes(name, inum), name, inum)
  {
    hide EncodeInt;
    var field, tail := StrnCpy(name, 39) + [0], EncodeInt(inum);
    var b := EntryBytes(name, inum);
    assert b == field + tail;
    IntLayout(inum);
    assert field[..|name|] == name;
    assert b[..|name|] == field[..|name|];
  }

  lemma ClearedLayout()
    ensures ClearedBytes() == Zeros(40) + [255, 255, 255, 255]
  {
  }

  /** Between the two states the 44 bytes of record i of the root's block, and nothing else, have
      been stored. */
  predicate StoresRecord(fs: Fs, r: Fs, i: nat, bytes: seq<byte>)
    requires RootOk(fs) && |bytes| == 44
  {
    var at := Times(fs.inodes[ROOT].block, fs.p.blockSize) + 44 * i;
    && 44 * (i + 1) <= fs.p.blockSize && at + 44 <= |fs.data| == |r.data| && r == fs.(data := r.data)
    && forall k :: 0 <= k < |fs.data| ==> r.data[k] == if at <= k < at + 44 then bytes[k - at] else fs.data[k]
  }

  lemma WriteSlotStores(fs: Fs, i: nat, bytes: seq<byte>)
    requires RootOk(fs) && i < fs.p.DirCapacity() && |bytes| == ENTRY_SIZE
    ensures StoresRecord(fs, WriteSlot(fs, i, bytes), i, bytes)
  {
    DirectoryInBlock(fs.p);
    var b := BlockStart(fs, fs.inodes[ROOT].block);
  }

  /** add_dir_entry, when it succeeds, stores the record of that name and inumber in the first
      unused place. */
  lemma AddStores(fs: Fs, name: cstring, inum: int)
    requires RootOk(fs) && 0 <= inum <= INT_MAX && AddDirEntry(fs, name, inum).Done? && AddDirEntry(fs, name, inum).ret == 0
    ensures var i := FirstUnused(Dir(fs)); var b := EntryBytes(name, inum);
      i != -1 && IsRecord(b, name, inum) && StoresRecord(fs, AddDirEntry(fs, name, inum).fs, i, b)
  {
    hide Dir, WriteSlot, StoresRecord, EntryBytes, IsRecord;
    WriteSlotStores(fs, FirstUnused(Dir(fs)), EntryBytes(name, inum));
    EntryLayout(name, inum);
  }

  /** clear_dir_entry, when it succeeds, stores 40 zeros and -1 in one record that held the name. */
  lemma ClearStores(fs: Fs, name: cstring) returns (i: nat)
    requires RootOk(fs) && ClearDirEntry(fs, name).Done? && ClearDirEntry(fs, name).ret == 0
    ensures i < fs.p.DirCapacity() && StoresRecord(fs, ClearDirEntry(fs, name).fs, i, Zeros(40) + [255, 255, 255, 255])
    ensures Holds(fs.data[Times(fs.inodes[ROOT].block, fs.p.blockSize) + 44 * i..], name)
  {
    hide FindString, WriteSlot, StoresRecord, ClearedBytes, StrnCmp;
    DirectoryInBlock(fs.p);
    var start := BlockStart(fs, fs.inodes[ROOT].block);
    i := FindString(fs.data, start, fs.p.DirCapacity(), name, 0);
    WriteSlotStores(fs, i, ClearedBytes());
    ClearedLayout();
    var memory := fs.data[start + ENTRY_SIZE * i..];
    CompareIsHolding(memory, name, |memory| + 1);
  }

  /** The directory functions refuse an inode that is not a directory. */
  lemma NotADirectory(fs: Fs, name: cstring, inum: int)
    requires fs.inodes[ROOT].kind != Directory && IsInt(inum)
    ensures FindInDir(fs, name) == AddDirEntry(fs, name, inum) == ClearDirEntry(fs, name) == Done(fs, -1, [])
  {
  }
}
