/**
 The invariants that tie the tables together, and how each change of the state keeps them.

 `Sound` is what every run keeps, even when files are unlinked or truncated under open
 handles.  `Consistent` adds what only disciplined runs keep.
 */
module Invariants {
  import opened CMemory
  import opened TfsState

  // ---------- Sound ----------

  /** A regular file that exists: a TAKEN inode other than the root. */
  predicate Live(fs: Fs, i: int) {
    0 < i < |fs.inodes| && fs.inodeTaken[i]
  }

  predicate RootOk(fs: Fs) {
    var root := fs.inodes[ROOT];
    fs.inodeTaken[ROOT] && root.kind == Directory && root.size == fs.p.blockSize
    && fs.ValidBlock(root.block) && fs.blockTaken[root.block]
  }

  /** A file's record: its bytes, if any, are in one valid block that is not the root's. */
  predicate NodeOk(fs: Fs, i: int)
    requires fs.ValidInum(i)
  {
    var node := fs.inodes[i];
    node.kind == File && node.size <= fs.p.blockSize
    && (node.size > 0 ==> fs.ValidBlock(node.block) && node.block != fs.inodes[ROOT].block)
  }

  ghost predicate Nodes(fs: Fs) {
    forall i :: Live(fs, i) ==> NodeOk(fs, i)
  }

  /** An open handle may be stale, but it never names the root, nor a record with a bad block. */
  ghost predicate Handles(fs: Fs) {
    forall h :: fs.IsOpen(h) ==>
      0 < fs.files[h].inum < |fs.inodes| && NodeOk(fs, fs.files[h].inum) && fs.files[h].offset <= fs.p.blockSize
  }

  predicate NonEmpty(fs: Fs, i: int) {
    Live(fs, i) && fs.inodes[i].size > 0
  }

  /** Live non-empty files own pairwise distinct TAKEN blocks. */
  ghost predicate Ownership(fs: Fs) {
    && (forall i :: NonEmpty(fs, i) ==> fs.ValidBlock(fs.inodes[i].block) && fs.blockTaken[fs.inodes[i].block])
    && (forall i, j :: NonEmpty(fs, i) && NonEmpty(fs, j) && i != j ==> fs.inodes[i].block != fs.inodes[j].block)
  }

  predicate GoodName(s: Slot) {
    |s.field| == MAX_FILE_NAME && 1 <= Strlen(s.field) < MAX_FILE_NAME
  }

  /** Used records hold terminated, pairwise distinct names and inumbers; an unused record
      before a used one has an empty name.  Unused records after the last used one may hold
      anything: their name fields were never written. */
  ghost predicate DirOk(d: seq<Slot>) {
    && (forall i :: 0 <= i < |d| && d[i].Used() ==> GoodName(d[i]))
    && (forall i, j :: 0 <= i < j < |d| && d[j].Used() && !d[i].Used() ==> |d[i].field| > 0 && d[i].field[0] == 0)
    && (forall i, j :: 0 <= i < |d| && 0 <= j < |d| && i != j && d[i].Used() && d[j].Used() ==>
          d[i].Name() != d[j].Name() && d[i].inum != d[j].inum)
  }

  ghost predicate HasEntry(d: seq<Slot>, k: int) {
    exists i :: 0 <= i < |d| && d[i].inum == k
  }

  /** Directory records and live files match one to one. */
  ghost predicate Entries(d: seq<Slot>, fs: Fs) {
    && (forall i :: 0 <= i < |d| && d[i].Used() ==> Live(fs, d[i].inum))
    && (forall k :: Live(fs, k) ==> HasEntry(d, k))
  }

  ghost predicate Sound(fs: Fs) {
    RootOk(fs) && DirOk(Dir(fs)) && Entries(Dir(fs), fs) && Nodes(fs) && Handles(fs) && Ownership(fs)
  }

  // ---------- Consistent ----------

  ghost predicate HandlesLive(fs: Fs) {
    forall h :: fs.IsOpen(h) ==>
      Live(fs, fs.files[h].inum) && fs.files[h].offset <= fs.inodes[fs.files[h].inum].size
  }

  ghost predicate HasOwner(fs: Fs, b: int) {
    exists i :: NonEmpty(fs, i) && fs.inodes[i].block == b
  }

  ghost predicate NoOrphans(fs: Fs) {
    forall b :: 0 <= b < |fs.blockTaken| && fs.blockTaken[b] && b != fs.inodes[ROOT].block ==> HasOwner(fs, b)
  }

  ghost predicate Consistent(fs: Fs) {
    Sound(fs) && HandlesLive(fs) && NoOrphans(fs)
  }

  lemma ConsistentRoot(fs: Fs)
    requires Consistent(fs)
    ensures RootOk(fs)
  {
  }

  // ---------- The directory seen through its bytes ----------

  /** find_in_dir looks a name up; a name of 40 bytes or more matches no record. */
  lemma FindSlotIsLookup(d: seq<Slot>, s: cstring)
    requires DirOk(d)
    ensures var r := FindSlot(d, s);
      && (r != -1 ==> d[r].Used() && d[r].Name() == s && 1 <= |s| < MAX_FILE_NAME)
      && (r == -1 ==> forall i :: 0 <= i < |d| && d[i].Used() ==> d[i].Name() != s)
  {
    forall i | 0 <= i < |d| && d[i].Used()
      ensures d[i].Matches(s) <==> d[i].Name() == s
    {
      CompareIsEquality(d[i].field, s, MAX_FILE_NAME);
    }
  }

  /** strcmp on the memory at a record whose name is terminated compares that name. */
  lemma StrCmpAtSlot(fs: Fs, i: nat, s: cstring)
    requires RootOk(fs) && i < fs.p.DirCapacity()
    requires Strlen(Dir(fs)[i].field) < MAX_FILE_NAME
    ensures
      var at := BlockStart(fs, fs.inodes[ROOT].block) + ENTRY_SIZE * i;
      at + ENTRY_SIZE <= |fs.data| && (StrCmp(fs.data[at..], s + [0]) == 0 <==> Dir(fs)[i].Name() == s)
  {
    DirectoryInBlock(fs.p);
    var at := BlockStart(fs, fs.inodes[ROOT].block) + ENTRY_SIZE * i;
    var field := Dir(fs)[i].field;
    var memory := fs.data[at..];
    var n := Strlen(field);
    assert field == memory[..40];
    assert memory[..n] == field[..n];
    StrlenIs(memory, n);
    CompareIsEquality(memory, s, |memory| + 1);
  }

  /** clear_dir_entry's unguarded strcmp stops at the very record that find_in_dir found. */
  lemma ClearFindsSameSlot(fs: Fs, s: cstring)
    requires RootOk(fs) && DirOk(Dir(fs))
    requires FindSlot(Dir(fs), s) != -1
    ensures ENTRY_SIZE * fs.p.DirCapacity() <= fs.p.blockSize
    ensures FindString(fs.data, BlockStart(fs, fs.inodes[ROOT].block), fs.p.DirCapacity(), s, 0) == FindSlot(Dir(fs), s)
  {
    DirectoryInBlock(fs.p);
    var d, r := Dir(fs), FindSlot(Dir(fs), s);
    FindSlotIsLookup(d, s);
    forall i | 0 <= i <= r
      ensures StrCmp(fs.data[BlockStart(fs, fs.inodes[ROOT].block) + ENTRY_SIZE * i..], s + [0]) == 0 <==> i == r
    {
      if !d[i].Used() {
        assert d[i].field[0] == 0 && d[i].Name() == [];
      }
      StrCmpAtSlot(fs, i, s);
    }
  }

  /** Bytes copied into a block leave every other block as it was. */
  lemma CopyStaysInBlock(fs: Fs, b: int, offset: nat, bytes: seq<byte>, c: int)
    requires fs.ValidBlock(b) && fs.ValidBlock(c) && b != c
    requires offset + |bytes| <= fs.p.blockSize
    ensures var start := BlockStart(fs, c);
      Splice(fs.data, BlockStart(fs, b) + offset, bytes)[start..start + fs.p.blockSize]
      == fs.data[start..start + fs.p.blockSize]
  {
    if b < c { TimesMonotone(b, c, fs.p.blockSize); } else { TimesMonotone(c, b, fs.p.blockSize); }
  }

  lemma SlotInWindow(data: seq<byte>, start: nat, size: nat, k: nat)
    requires start + size <= |data| && k + ENTRY_SIZE <= size
    ensures SlotAt(data, start + k) == SlotAt(data[start..start + size], k)
  {
    SliceOfSlice(data, start, start + size, k, k + 40);
    SliceOfSlice(data, start, start + size, k + 40, k + 44);
  }

  lemma SlotsInWindow(data: seq<byte>, other: seq<byte>, start: nat, size: nat, count: nat)
    requires start + size <= |data| && |other| == |data| && ENTRY_SIZE * count <= size
    requires data[start..start + size] == other[start..start + size]
    ensures Slots(data, start, count) == Slots(other, start, count)
  {
    forall i | 0 <= i < count
      ensures SlotAt(data, start + ENTRY_SIZE * i) == SlotAt(other, start + ENTRY_SIZE * i)
    {
      SlotInWindow(data, start, size, ENTRY_SIZE * i);
      SlotInWindow(other, start, size, ENTRY_SIZE * i);
    }
  }

  /** The directory is decoded from the root's block alone. */
  lemma DirFromBlock(fs: Fs, other: Fs)
    requires RootOk(fs) && other.p == fs.p && other.inodes[ROOT].block == fs.inodes[ROOT].block
    requires var start := BlockStart(fs, fs.inodes[ROOT].block);
      fs.data[start..start + fs.p.blockSize] == other.data[start..start + fs.p.blockSize]
    ensures Dir(other) == Dir(fs)
  {
    DirectoryInBlock(fs.p);
    SlotsInWindow(fs.data, other.data, BlockStart(fs, fs.inodes[ROOT].block), fs.p.blockSize, fs.p.DirCapacity());
  }

  /** A record reads as the bytes just stored there, and as before when they were stored elsewhere. */
  lemma SlotAfterSplice(data: seq<byte>, at: nat, bytes: seq<byte>, k: nat)
    requires |bytes| == ENTRY_SIZE && at + ENTRY_SIZE <= |data| && k + ENTRY_SIZE <= |data|
    ensures k == at ==> SlotAt(Splice(data, at, bytes), k) == SlotAt(bytes, 0)
    ensures k + ENTRY_SIZE <= at || at + ENTRY_SIZE <= k ==> SlotAt(Splice(data, at, bytes), k) == SlotAt(data, k)
  {
  }

  lemma SlotsAfterSplice(data: seq<byte>, base: nat, count: nat, i: nat, bytes: seq<byte>)
    requires base + ENTRY_SIZE * count <= |data| && i < count && |bytes| == ENTRY_SIZE
    ensures Slots(Splice(data, base + ENTRY_SIZE * i, bytes), base, count) == Slots(data, base, count)[i := SlotAt(bytes, 0)]
  {
    var at := base + ENTRY_SIZE * i;
    forall j | 0 <= j < count
      ensures SlotAt(Splice(data, at, bytes), base + ENTRY_SIZE * j)
           == if j == i then SlotAt(bytes, 0) else SlotAt(data, base + ENTRY_SIZE * j)
    {
      SlotAfterSplice(data, at, bytes, base + ENTRY_SIZE * j);
    }
  }

  /** Overwriting one record changes that record of the directory and no other. */
  lemma DirAfterWriteSlot(fs: Fs, i: nat, bytes: seq<byte>)
    requires fs.ValidBlock(fs.inodes[ROOT].block) && i < fs.p.DirCapacity() && |bytes| == ENTRY_SIZE
    ensures Dir(WriteSlot(fs, i, bytes)) == Dir(fs)[i := SlotAt(bytes, 0)]
  {
    DirectoryInBlock(fs.p);
    SlotsAfterSplice(fs.data, BlockStart(fs, fs.inodes[ROOT].block), fs.p.DirCapacity(), i, bytes);
  }

  /** Names of 1 to 39 bytes and inumbers round-trip through a record. */
  lemma EntryReadsBack(name: cstring, inum: int)
    requires 1 <= |name| < MAX_FILE_NAME && IsInt(inum)
    ensures var s := SlotAt(EntryBytes(name, inum), 0);
      s.inum == inum && s.Name() == name && GoodName(s)
  {
    var bytes := EntryBytes(name, inum);
    var field := StrnCpy(name, MAX_FILE_NAME - 1) + [0];
    assert bytes[0..40] == field;
    assert bytes[40..44] == EncodeInt(inum);
    DecodeEncodeInt(inum);
    StoredNameReadsBack(name, field);
  }

  lemma ClearedReadsBack()
    ensures var s := SlotAt(ClearedBytes(), 0); !s.Used() && |s.field| == MAX_FILE_NAME && s.field[0] == 0
  {
  }

  /** Adding an absent name in the first unused record keeps the directory well formed. */
  lemma DirOkAdd(d: seq<Slot>, i: nat, s: Slot)
    requires DirOk(d) && i == FirstUnused(d)
    requires s.Used() && GoodName(s)
    requires forall j :: 0 <= j < |d| && d[j].Used() ==> d[j].Name() != s.Name() && d[j].inum != s.inum
    ensures DirOk(d[i := s])
  {
  }

  lemma DirOkClear(d: seq<Slot>, i: nat, s: Slot)
    requires DirOk(d) && i < |d|
    requires !s.Used() && |s.field| == MAX_FILE_NAME && s.field[0] == 0
    ensures DirOk(d[i := s])
  {
  }
}
