/**
 Conservation: each allocation table holds exactly as many TAKEN entries as the abstract
 state has things to keep there.
 */
module Counting {
  import opened CMemory
  import opened TfsState
  import opened Invariants
  import opened AbstractFs
  import opened Refinement

  function TakenSet(t: seq<bool>): set<int> {
    set i | 0 <= i < |t| && t[i]
  }

  function UsedSlots(d: seq<Slot>): set<int> {
    set j | 0 <= j < |d| && d[j].Used()
  }

  ghost predicate Injective<K, V>(m: map<K, V>) {
    forall x, y :: x in m && y in m && m[x] == m[y] ==> x == y
  }

  lemma {:induction false} InjectiveMapCount<K, V>(m: map<K, V>)
    requires Injective(m)
    ensures |m.Keys| == |m.Values|
    decreases |m.Keys|
  {
    if m.Keys == {} {
      assert m.Values == {};
    } else {
      var k :| k in m;
      var rest := m - {k};
      assert forall x :: x in rest ==> x in m && rest[x] == m[x];
      InjectiveMapCount(rest);
      assert rest.Keys == m.Keys - {k};
      assert rest.Values == m.Values - {m[k]} by {
        forall v | v in m.Values && v != m[k] ensures v in rest.Values {
          var x :| x in m && m[x] == v;
          assert x in rest && rest[x] == v;
        }
      }
    }
  }

  function Range(n: nat): (s: set<int>)
    ensures forall i :: i in s <==> 0 <= i < n
    ensures |s| == n
  {
    if n == 0 then {} else Range(n - 1) + {n - 1}
  }

  lemma SubsetCount(s: set<int>, n: nat)
    requires s <= Range(n)
    ensures |s| <= n && (|s| == n <==> s == Range(n))
  {
    assert |Range(n)| == |s| + |Range(n) - s| by {
      assert Range(n) == s + (Range(n) - s);
    }
  }

  /** An allocation scan fails exactly when as many entries are TAKEN as there are. */
  lemma FullIffCount(t: seq<bool>)
    ensures |TakenSet(t)| <= |t| && (FirstFree(t) == -1 <==> |TakenSet(t)| == |t|)
  {
    SubsetCount(TakenSet(t), |t|);
    if FirstFree(t) != -1 {
      assert FirstFree(t) in Range(|t|) && FirstFree(t) !in TakenSet(t);
    } else {
      assert TakenSet(t) == Range(|t|);
    }
  }

  lemma DirFullIffCount(d: seq<Slot>)
    ensures |UsedSlots(d)| <= |d| && (FirstUnused(d) == -1 <==> |UsedSlots(d)| == |d|)
  {
    SubsetCount(UsedSlots(d), |d|);
    if FirstUnused(d) != -1 {
      assert FirstUnused(d) in Range(|d|) && FirstUnused(d) !in UsedSlots(d);
    } else {
      assert UsedSlots(d) == Range(|d|);
    }
  }

  /** As many used records as names. */
  lemma SlotsCount(d: seq<Slot>)
    requires DirOk(d)
    ensures |UsedSlots(d)| == |DirNames(d)|
  {
    var m := map j | j in UsedSlots(d) :: d[j].Name();
    assert m.Keys == UsedSlots(d);
    assert m.Values == DirNames(d) by {
      forall n | n in DirNames(d) ensures n in m.Values {
        var j :| 0 <= j < |d| && d[j].Used() && d[j].Name() == n;
        assert j in m && m[j] == n;
      }
    }
    InjectiveMapCount(m);
  }

  lemma DirMapInjective(d: seq<Slot>)
    requires DirOk(d)
    ensures Injective(DirMap(d)) && DirMap(d).Keys == DirNames(d)
  {
    var m := DirMap(d);
    forall n, k | n in m && k in m && m[n] == m[k] ensures n == k {
      var i := NameHasRecord(d, n);
      var j := NameHasRecord(d, k);
    }
  }

  lemma DirMapCovers(d: seq<Slot>, fs: Fs)
    requires DirOk(d) && Entries(d, fs)
    ensures DirMap(d).Values == set k | 0 < k < |fs.inodes| && Live(fs, k)
  {
    var m := DirMap(d);
    forall k | k in m.Values ensures Live(fs, k) {
      var n :| n in m && m[n] == k;
      var j := NameHasRecord(d, n);
    }
    forall k | Live(fs, k) ensures k in m.Values {
      var j := InumHasRecord(d, fs, k);
      assert d[j].Name() in m && m[d[j].Name()] == k;
    }
  }

  /** One TAKEN inode for each name, and one for the root. */
  lemma InodesCount(d: seq<Slot>, fs: Fs)
    requires RootOk(fs) && DirOk(d) && Entries(d, fs)
    ensures |TakenSet(fs.inodeTaken)| == 1 + |DirNames(d)|
  {
    hide DirNames, DirOk, Entries, DirMap, Dir;
    DirMapInjective(d);
    DirMapCovers(d, fs);
    InjectiveMapCount(DirMap(d));
    assert TakenSet(fs.inodeTaken) == (set k | 0 < k < |fs.inodes| && Live(fs, k)) + {ROOT};
  }

  /** The names of the files that own a block. */
  function Owners(d: seq<Slot>, fs: Fs): set<cstring> {
    set n | n in DirNames(d) && NonEmpty(fs, InumOf(d, n))
  }

  lemma OwnersAreNonEmpty(fs: Fs)
    requires Sound(fs)
    ensures Owners(Dir(fs), fs) == NonEmptyNames(Alpha(fs))
  {
    forall n | n in DirNames(Dir(fs))
      ensures n in Owners(Dir(fs), fs) <==> n in NonEmptyNames(Alpha(fs))
    {
      var j := NameHasRecord(Dir(fs), n);
      var k := Dir(fs)[j].inum;
      assert Live(fs, k) && NodeOk(fs, k);
      ContentLength(fs, k);
      assert Alpha(fs).files[n] == Content(fs, k);
    }
  }

  function BlockMap(d: seq<Slot>, fs: Fs): map<cstring, int> {
    map n | n in Owners(d, fs) :: fs.inodes[InumOf(d, n)].block
  }

  lemma BlockMapInjective(d: seq<Slot>, fs: Fs)
    requires DirOk(d) && Ownership(fs)
    ensures Injective(BlockMap(d, fs)) && BlockMap(d, fs).Keys == Owners(d, fs)
  {
    var m := BlockMap(d, fs);
    forall n, k | n in m && k in m && m[n] == m[k] ensures n == k {
      var i := NameHasRecord(d, n);
      var j := NameHasRecord(d, k);
      assert NonEmpty(fs, d[i].inum) && NonEmpty(fs, d[j].inum);
    }
  }

  lemma BlockMapCovers(d: seq<Slot>, fs: Fs)
    requires RootOk(fs) && DirOk(d) && Entries(d, fs) && Nodes(fs) && Ownership(fs) && NoOrphans(fs)
    ensures BlockMap(d, fs).Values == TakenSet(fs.blockTaken) - {fs.inodes[ROOT].block}
  {
    var m, root := BlockMap(d, fs), fs.inodes[ROOT].block;
    forall b | b in m.Values ensures b in TakenSet(fs.blockTaken) - {root} {
      var n :| n in m && m[n] == b;
      OwnerTaken(d, fs, n);
    }
    forall b | b in TakenSet(fs.blockTaken) - {root} ensures b in m.Values {
      assert HasOwner(fs, b);
      var k :| NonEmpty(fs, k) && fs.inodes[k].block == b;
      var j := InumHasRecord(d, fs, k);
      assert d[j].Name() in m && m[d[j].Name()] == b;
    }
  }

  lemma OwnerTaken(d: seq<Slot>, fs: Fs, n: cstring)
    requires RootOk(fs) && Nodes(fs) && Ownership(fs) && n in Owners(d, fs)
    ensures fs.inodes[InumOf(d, n)].block in TakenSet(fs.blockTaken) - {fs.inodes[ROOT].block}
  {
  }

  /** One TAKEN block for each non-empty file, and one for the root directory. */
  lemma BlocksCount(fs: Fs)
    requires Consistent(fs)
    ensures |TakenSet(fs.blockTaken)| == 1 + |NonEmptyNames(Alpha(fs))|
  {
    hide Dir, Alpha, Owners, BlockMap, DirOk, Entries, Nodes, Handles, Ownership, NoOrphans, HandlesLive,
      NonEmptyNames;
    OwnersAreNonEmpty(fs);
    BlockMapInjective(Dir(fs), fs);
    BlockMapCovers(Dir(fs), fs);
    InjectiveMapCount(BlockMap(Dir(fs), fs));
    var root := fs.inodes[ROOT].block;
    assert TakenSet(fs.blockTaken) == (TakenSet(fs.blockTaken) - {root}) + {root};
  }

  /** Conservation: TAKEN blocks are the root's and one per non-empty file, TAKEN inodes are
      the root and one per file, used records are one per file, TAKEN handles are the open ones. */
  lemma Conservation(fs: Fs)
    requires Consistent(fs)
    ensures |TakenSet(fs.blockTaken)| == 1 + |NonEmptyNames(Alpha(fs))|
    ensures |TakenSet(fs.inodeTaken)| == 1 + |Alpha(fs).files|
    ensures |UsedSlots(Dir(fs))| == |Alpha(fs).files|
    ensures |TakenSet(fs.handleTaken)| == |Alpha(fs).handles|
  {
    hide DirOk, Entries, Nodes, Handles, Ownership, NoOrphans, HandlesLive, Dir, DirNames;
    BlocksCount(fs);
    InodesCount(Dir(fs), fs);
    SlotsCount(Dir(fs));
    assert Alpha(fs).files.Keys == DirNames(Dir(fs));
    assert Alpha(fs).handles.Keys == TakenSet(fs.handleTaken);
  }

  /** Each scan fails exactly when the abstract counts say that its table is full. */
  lemma ScansFailByCount(fs: Fs)
    requires Consistent(fs)
    ensures FirstFree(fs.blockTaken) == -1 <==> |NonEmptyNames(Alpha(fs))| + 1 == fs.p.blockCount
    ensures FirstFree(fs.inodeTaken) == -1 <==> |Alpha(fs).files| + 1 == fs.p.inodeCount
    ensures FirstUnused(Dir(fs)) == -1 <==> ENTRY_SIZE * (|Alpha(fs).files| + 1) > fs.p.blockSize
    ensures FirstFree(fs.handleTaken) == -1 <==> |Alpha(fs).handles| == fs.p.handleCount
    ensures |NonEmptyNames(Alpha(fs))| + 1 <= fs.p.blockCount && |Alpha(fs).files| + 1 <= fs.p.inodeCount
    ensures ENTRY_SIZE * |Alpha(fs).files| <= fs.p.blockSize
  {
    Conservation(fs);
    FullIffCount(fs.blockTaken);
    FullIffCount(fs.inodeTaken);
    DirFullIffCount(Dir(fs));
    HandlesFullIffCount(fs);
  }

  /** The open-file table, on any state with a root. */
  lemma HandlesFullIffCount(fs: Fs)
    requires RootOk(fs)
    ensures |Alpha(fs).handles| == |TakenSet(fs.handleTaken)|
    ensures FirstFree(fs.handleTaken) == -1 <==> |Alpha(fs).handles| == fs.p.handleCount
  {
    hide Files, Dir, NameOfInum;
    FullIffCount(fs.handleTaken);
    assert Alpha(fs).handles.Keys == TakenSet(fs.handleTaken);
  }
}
