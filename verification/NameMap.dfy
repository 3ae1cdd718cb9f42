/**
 The directory in the root's block is a map from names to inumbers: find_in_dir, add_dir_entry
 and clear_dir_entry, on the bytes of the block, are lookup, update and removal.
 */
module NameMap {
  import opened CMemory
  import opened TfsState
  import opened Invariants
  import opened Refinement
  import opened Counting

  lemma WriteSlotKeepsRoot(fs: Fs, slot: nat, bytes: seq<byte>)
    requires RootOk(fs) && slot < fs.p.DirCapacity() && |bytes| == ENTRY_SIZE
    ensures RootOk(WriteSlot(fs, slot, bytes))
  {
  }

  lemma InumInUse(d: seq<Slot>, inum: int)
    requires DirOk(d)
    ensures inum in DirMap(d).Values <==> exists j :: 0 <= j < |d| && d[j].Used() && d[j].inum == inum
  {
    var m := DirMap(d);
    if inum in m.Values {
      var n :| n in m && m[n] == inum;
      var j := NameHasRecord(d, n);
    }
    forall j | 0 <= j < |d| && d[j].Used() && d[j].inum == inum ensures inum in m.Values {
      RecordIsUnique(d, j);
      assert d[j].Name() in m;
    }
  }

  // ---------- Lookup ----------

  /** find_in_dir returns the inumber of a name that is there and -1 for any other. */
  lemma FindIsLookup(fs: Fs, name: cstring)
    requires RootOk(fs) && DirOk(Dir(fs))
    ensures var m := DirMap(Dir(fs)); FindInDir(fs, name) == Done(fs, if name in m then m[name] else -1, [])
  {
    FoundIffNamed(Dir(fs), name);
  }

  // ---------- Update ----------

  /** A record in an unused place keeps the directory well formed if and only if neither its
      name nor its inumber is in use. */
  lemma AddedOkIff(d: seq<Slot>, s: Slot)
    requires DirOk(d) && FirstUnused(d) != -1 && s.Used() && GoodName(s)
    ensures DirOk(d[FirstUnused(d) := s]) <==> s.Name() !in DirMap(d) && s.inum !in DirMap(d).Values
  {
    hide DirMap, FindSlot;
    var slot := FirstUnused(d);
    var e := d[slot := s];
    InumInUse(d, s.inum);
    DirMapKeys(d);
    if s.Name() in DirMap(d) {
      var j := NameHasRecord(d, s.Name());
      assert e[j] == d[j] && e[slot] == s;
    } else if s.inum in DirMap(d).Values {
      var j :| 0 <= j < |d| && d[j].Used() && d[j].inum == s.inum;
      assert e[j] == d[j] && e[slot] == s;
    } else {
      forall j | 0 <= j < |d| && d[j].Used() ensures d[j].Name() != s.Name() && d[j].inum != s.inum {
        assert d[j].Name() in DirNames(d);
      }
      DirOkAdd(d, slot, s);
    }
  }

  lemma DirMapKeys(d: seq<Slot>)
    ensures DirMap(d).Keys == DirNames(d)
  {
  }

  lemma AddedMap(d: seq<Slot>, slot: nat, s: Slot)
    requires slot < |d| && DirOk(d) && DirOk(d[slot := s]) && !d[slot].Used() && s.Used()
    ensures DirMap(d[slot := s]) == DirMap(d)[s.Name() := s.inum]
  {
    hide DirNames, InumOf, SlotOfInum;
    NamesAfterAdd(d, slot, s);
  }

  lemma DirFullIff(d: seq<Slot>)
    requires DirOk(d)
    ensures |DirMap(d)| <= |d| && (FirstUnused(d) == -1 <==> |DirMap(d)| == |d|)
  {
    hide DirNames;
    SlotsCount(d);
    DirFullIffCount(d);
    DirMapKeys(d);
    assert |DirMap(d)| == |DirMap(d).Keys|;
  }

  /** add_dir_entry fails if and only if the name is empty or too long or one more record
      does not fit the block, and then it changes nothing.  Otherwise the directory stays well formed if and only
      if the name and the inumber were not in use, and then it is the map with the name added. */
  lemma AddIsUpdate(fs: Fs, name: cstring, inum: int)
    requires RootOk(fs) && DirOk(Dir(fs)) && 0 <= inum <= INT_MAX
    ensures var m := DirMap(Dir(fs)); var r := AddDirEntry(fs, name, inum);
      && r.Done? && RootOk(r.fs)
      && if |name| == 0 || |name| >= MAX_FILE_NAME || ENTRY_SIZE * (|m| + 1) > fs.p.blockSize then r == Done(fs, -1, [])
         else
           && r.ret == 0
           && (DirOk(Dir(r.fs)) <==> name !in m && inum !in m.Values)
           && (DirOk(Dir(r.fs)) ==> DirMap(Dir(r.fs)) == m[name := inum])
  {
    hide DirOk, DirMap, Dir, WriteSlot, EntryBytes, DirNames;
    var d, slot := Dir(fs), FirstUnused(Dir(fs));
    DirFullIff(d);
    if 1 <= |name| < MAX_FILE_NAME && slot != -1 {
      var s := SlotAt(EntryBytes(name, inum), 0);
      EntryReadsBack(name, inum);
      WriteSlotKeepsRoot(fs, slot, EntryBytes(name, inum));
      DirAfterWriteSlot(fs, slot, EntryBytes(name, inum));
      AddedOkIff(d, s);
      if DirOk(d[slot := s]) {
        AddedMap(d, slot, s);
      }
    }
  }

  // ---------- When exactly clearing fails ----------

  /** What strcmp is given for a record: the memory from there on. */
  function RecordMemory(fs: Fs, i: nat): seq<byte>
    requires RootOk(fs) && i < fs.p.DirCapacity()
  {
    DirectoryInBlock(fs.p);
    fs.data[BlockStart(fs, fs.inodes[ROOT].block) + ENTRY_SIZE * i..]
  }

  lemma ScanIsSearch(data: seq<byte>, base: nat, count: nat, name: cstring)
    requires base + ENTRY_SIZE * count <= |data|
    ensures var r := FindString(data, base, count, name, 0);
      if r == -1 then forall i :: 0 <= i < count ==> !Holds(data[base + ENTRY_SIZE * i..], name)
      else Holds(data[base + ENTRY_SIZE * r..], name)
  {
    hide StrnCmp, Holds;
    forall i | 0 <= i < count
      ensures StrCmp(data[base + ENTRY_SIZE * i..], name + [0]) == 0 <==> Holds(data[base + ENTRY_SIZE * i..], name)
    {
      var memory := data[base + ENTRY_SIZE * i..];
      CompareIsHolding(memory, name, |memory| + 1);
    }
  }

  lemma ClearIsScan(fs: Fs, name: cstring)
    requires RootOk(fs)
    ensures ROOT < |fs.inodes| && fs.ValidBlock(fs.inodes[ROOT].block)
    ensures BlockStart(fs, fs.inodes[ROOT].block) + ENTRY_SIZE * fs.p.DirCapacity() <= |fs.data|
    ensures ClearDirEntry(fs, name) == Done(fs, -1, []) <==>
      FindString(fs.data, BlockStart(fs, fs.inodes[ROOT].block), fs.p.DirCapacity(), name, 0) == -1
  {
    hide FindString, WriteSlot, ClearedBytes;
    DirectoryInBlock(fs.p);
  }

  lemma RecordMemoryIs(fs: Fs, i: nat)
    requires RootOk(fs) && i < fs.p.DirCapacity()
    ensures var at := BlockStart(fs, fs.inodes[ROOT].block) + ENTRY_SIZE * i;
      at <= |fs.data| && RecordMemory(fs, i) == fs.data[at..]
  {
  }

  /** clear_dir_entry fails if and only if the memory of no record, used or not, holds the name. */
  lemma ClearFailsIff(fs: Fs, name: cstring)
    requires RootOk(fs)
    ensures ClearDirEntry(fs, name) == Done(fs, -1, []) <==>
      forall i :: 0 <= i < fs.p.DirCapacity() ==> !Holds(RecordMemory(fs, i), name)
  {
    hide *;
    ClearIsScan(fs, name);
    var start, count := BlockStart(fs, fs.inodes[ROOT].block), fs.p.DirCapacity();
    ScanIsSearch(fs.data, start, count, name);
    var stop := FindString(fs.data, start, count, name, 0);
    if stop != -1 {
      RecordMemoryIs(fs, stop);
    } else {
      forall i | 0 <= i < count ensures !Holds(RecordMemory(fs, i), name) {
        RecordMemoryIs(fs, i);
      }
    }
  }

  lemma HoldsIffNamed(fs: Fs, i: nat, name: cstring)
    requires RootOk(fs) && i < fs.p.DirCapacity() && |name| < MAX_FILE_NAME
    ensures Holds(RecordMemory(fs, i), name) <==> Dir(fs)[i].Name() == name
  {
    DirectoryInBlock(fs.p);
    var memory, field := RecordMemory(fs, i), Dir(fs)[i].field;
    assert field == memory[..40];
    var n := |name|;
    assert memory[..n] == field[..n];
    if Holds(memory, name) {
      StrlenIs(field, n);
    }
  }

  /** For a name that a record can hold, this can be read off the directory: it fails if and
      only if no record, used or not, has the name in its field. */
  lemma ClearFailsIffUnnamed(fs: Fs, name: cstring)
    requires RootOk(fs) && |name| < MAX_FILE_NAME
    ensures ClearDirEntry(fs, name) == Done(fs, -1, []) <==> forall i :: 0 <= i < |Dir(fs)| ==> Dir(fs)[i].Name() != name
  {
    hide ClearDirEntry, Dir, Holds, RecordMemory;
    ClearFailsIff(fs, name);
    forall i | 0 <= i < fs.p.DirCapacity() ensures Holds(RecordMemory(fs, i), name) <==> Dir(fs)[i].Name() == name {
      HoldsIffNamed(fs, i, name);
    }
  }

  // ---------- Removal ----------

  lemma ClearedMap(d: seq<Slot>, slot: nat, s: Slot)
    requires slot < |d| && DirOk(d) && DirOk(d[slot := s]) && d[slot].Used() && !s.Used()
    ensures DirMap(d[slot := s]) == DirMap(d) - {d[slot].Name()}
  {
    hide DirNames, InumOf, SlotOfInum;
    NamesAfterClear(d, slot, s);
  }

  /** Clearing a record that is not used does not change the map. */
  lemma ClearedUnused(d: seq<Slot>, slot: nat, s: Slot)
    requires slot < |d| && DirOk(d) && DirOk(d[slot := s]) && !d[slot].Used() && !s.Used()
    ensures DirMap(d[slot := s]) == DirMap(d)
  {
    var e := d[slot := s];
    assert forall j :: 0 <= j < |d| && d[j].Used() ==> e[j] == d[j];
    assert forall j :: 0 <= j < |d| && e[j].Used() ==> e[j] == d[j];
    forall n | n in DirNames(d) ensures n in DirNames(e) && InumOf(e, n) == InumOf(d, n) {
      var j := NameHasRecord(d, n);
      assert e[j] == d[j];
      RecordIsUnique(e, j);
    }
    forall n | n in DirNames(e) ensures n in DirNames(d) {
      var j := NameHasRecord(e, n);
      assert e[j] == d[j];
    }
  }

  /** The record at which the unguarded strcmp scan stops, if any: the one with the name when
      the name is there, and otherwise one that is not used. */
  lemma ScanStops(fs: Fs, name: cstring)
    requires RootOk(fs) && DirOk(Dir(fs))
    ensures ENTRY_SIZE * fs.p.DirCapacity() <= fs.p.blockSize
    ensures var i := FindString(fs.data, BlockStart(fs, fs.inodes[ROOT].block), fs.p.DirCapacity(), name, 0);
      if name in DirMap(Dir(fs)) then i != -1 && Dir(fs)[i].Used() && Dir(fs)[i].Name() == name
      else i == -1 || !Dir(fs)[i].Used()
  {
    hide DirNames, StrCmp, Dir;
    DirectoryInBlock(fs.p);
    FoundIffNamed(Dir(fs), name);
    DirMapKeys(Dir(fs));
    FindSlotIsLookup(Dir(fs), name);
    if name in DirMap(Dir(fs)) {
      ClearFindsSameSlot(fs, name);
    } else {
      var i := FindString(fs.data, BlockStart(fs, fs.inodes[ROOT].block), fs.p.DirCapacity(), name, 0);
      if i != -1 && Dir(fs)[i].Used() {
        StrCmpAtSlot(fs, i, name);
      }
    }
  }

  /** clear_dir_entry of any name is map removal.  A name that is there is always found.  The
      call returns -1 and changes nothing if and only if the memory of no record holds the name;
      otherwise it returns 0, and when the name was not there the map is the same. */
  lemma ClearIsRemoval(fs: Fs, name: cstring)
    requires RootOk(fs) && DirOk(Dir(fs))
    ensures var m := DirMap(Dir(fs)); var r := ClearDirEntry(fs, name);
      && r.Done? && RootOk(r.fs) && DirOk(Dir(r.fs)) && DirMap(Dir(r.fs)) == m - {name}
      && (name in m ==> r.ret == 0)
      && (r.ret == 0 || r == Done(fs, -1, []))
      && (r.ret == -1 <==> forall i :: 0 <= i < fs.p.DirCapacity() ==> !Holds(RecordMemory(fs, i), name))
  {
    hide DirOk, DirMap, Dir, WriteSlot, ClearedBytes, FindString, Holds, RecordMemory;
    ClearFailsIff(fs, name);
    ScanStops(fs, name);
    var d := Dir(fs);
    var slot := FindString(fs.data, BlockStart(fs, fs.inodes[ROOT].block), fs.p.DirCapacity(), name, 0);
    if slot != -1 {
      var s := SlotAt(ClearedBytes(), 0);
      ClearedReadsBack();
      WriteSlotKeepsRoot(fs, slot, ClearedBytes());
      DirAfterWriteSlot(fs, slot, ClearedBytes());
      DirOkClear(d, slot, s);
      if d[slot].Used() {
        ClearedMap(d, slot, s);
      } else {
        ClearedUnused(d, slot, s);
      }
    }
  }

  // ---------- Memory left over in a record that was never used ----------

  const LEFTOVER: cstring := [97]
  const TINY: Params := Params(1, 1, 0, ENTRY_SIZE)

  function LeftoverMemory(): (m: seq<byte>)
    ensures |m| == ENTRY_SIZE && m[..1] == LEFTOVER && m[1] == 0
  {
    LEFTOVER + Zeros(ENTRY_SIZE - 1)
  }

  lemma LeftoverState(inode: Inode)
    ensures |LeftoverMemory()| == Times(1, ENTRY_SIZE) && TINY.Valid()
    ensures var (s, r) := Init(TINY, [inode], LeftoverMemory(), []);
      r == 0 && s.Shape() && RootOk(s) && s.inodes[ROOT].block == 0 && s.data == LabelUnused(LeftoverMemory(), 0, 1)
  {
    TimesIsProduct(1, ENTRY_SIZE);
  }

  lemma LabelledLeftover()
    ensures var data := LabelUnused(LeftoverMemory(), 0, 1); |data| == ENTRY_SIZE && SlotAt(data, 0) == Slot(data[..40], NO_INODE)
    ensures StringOf(LabelUnused(LeftoverMemory(), 0, 1)[..40]) == LEFTOVER
  {
    var m := LeftoverMemory();
    var data := LabelUnused(m, 0, 1);
    assert data == Splice(m, 40, EncodeInt(NO_INODE));
    DecodeEncodeInt(NO_INODE);
    assert data[40..44] == EncodeInt(NO_INODE);
    assert data[..40][..1] == LEFTOVER && data[..40][1] == 0;
    StrlenIs(data[..40], 1);
  }

  /** The condition can fail: right after tfs_init on memory that starts with a name, clearing
      that name returns 0 although the directory is empty. */
  lemma LeftoverMatches(inode: Inode)
    ensures |LeftoverMemory()| == Times(1, ENTRY_SIZE) && TINY.Valid()
    ensures var (s, r) := Init(TINY, [inode], LeftoverMemory(), []);
      && r == 0 && s.Shape() && RootOk(s) && DirMap(Dir(s)) == map[]
      && ClearDirEntry(s, LEFTOVER).Done? && ClearDirEntry(s, LEFTOVER).ret == 0
  {
    hide LabelUnused, LeftoverMemory, ClearDirEntry, SlotAt, Strlen;
    LeftoverState(inode);
    LabelledLeftover();
    var s: Fs := Init(TINY, [inode], LeftoverMemory(), []).0;
    assert s.p.DirCapacity() == 1;
    assert !Dir(s)[0].Used() && Dir(s)[0].Name() == LEFTOVER;
    assert DirNames(Dir(s)) == {};
    ClearFailsIffUnnamed(s, LEFTOVER);
    ClearIsRemoval(s, LEFTOVER);
  }
}
