/**
 The broker's list of boxes (utils/utility_funcs.c): insertion_sort relinks the heap so that
 the new box comes before the first box whose name is not smaller in strcmp order.
 */
module BoxList {
  import opened CMemory

  const MAX_BOX_NAME: nat := 33

  // ---------- The strcmp order on names ----------

  function Compare(a: cstring, b: cstring): int {
    StrCmp(a + [0], b + [0])
  }

  function Rest(a: cstring): cstring
    requires a != []
  {
    assert forall i :: 0 <= i < |a| - 1 ==> a[1..][i] == a[i + 1];
    a[1..]
  }

  lemma CompareUnfolds(a: cstring, b: cstring)
    ensures Compare(a, b) ==
      if a == [] then (if b == [] then 0 else -b[0])
      else if b == [] then a[0]
      else if a[0] != b[0] then a[0] - b[0]
      else Compare(Rest(a), Rest(b))
  {
    if a != [] && b != [] && a[0] == b[0] {
      assert (a + [0])[1..] == Rest(a) + [0] && (b + [0])[1..] == Rest(b) + [0];
    }
  }

  /** strcmp is zero on equal names only, and changes sign when its arguments are swapped. */
  lemma {:induction false} CompareAntisymmetric(a: cstring, b: cstring)
    ensures Compare(a, b) == 0 <==> a == b
    ensures Compare(a, b) < 0 <==> Compare(b, a) > 0
    decreases |a|
  {
    CompareUnfolds(a, b);
    CompareUnfolds(b, a);
    if a != [] && b != [] && a[0] == b[0] {
      CompareAntisymmetric(Rest(a), Rest(b));
      assert a == [a[0]] + Rest(a) && b == [b[0]] + Rest(b);
    }
  }

  lemma {:induction false} CompareTransitive(a: cstring, b: cstring, c: cstring)
    requires Compare(a, b) <= 0 && Compare(b, c) <= 0
    ensures Compare(a, c) <= 0 && (Compare(a, b) < 0 || Compare(b, c) < 0 ==> Compare(a, c) < 0)
    decreases |a|
  {
    CompareUnfolds(a, b);
    CompareUnfolds(b, c);
    CompareUnfolds(a, c);
    if a != [] && b != [] && c != [] && a[0] == b[0] == c[0] {
      CompareTransitive(Rest(a), Rest(b), Rest(c));
    }
  }

  /** The order that strcmp gives: a differs from b first at a smaller byte, or ends first. */
  lemma {:induction false} CompareIsLexicographic(a: cstring, b: cstring)
    ensures Compare(a, b) < 0 <==>
      exists k: nat :: k <= |a| && k < |b| && a[..k] == b[..k] && (k == |a| || a[k] < b[k])
    decreases |a|
  {
    CompareUnfolds(a, b);
    if a == [] || b == [] || a[0] != b[0] {
      if Compare(a, b) < 0 { assert a[..0] == b[..0]; }
    } else {
      CompareIsLexicographic(Rest(a), Rest(b));
      if Compare(Rest(a), Rest(b)) < 0 {
        var k: nat :| k <= |Rest(a)| && k < |Rest(b)| && Rest(a)[..k] == Rest(b)[..k] && (k == |Rest(a)| || Rest(a)[k] < Rest(b)[k]);
        assert a[..k + 1] == [a[0]] + Rest(a)[..k] && b[..k + 1] == [b[0]] + Rest(b)[..k];
      }
      if k: nat :| k <= |a| && k < |b| && a[..k] == b[..k] && (k == |a| || a[k] < b[k]) {
        assert k > 0 && Rest(a)[..k - 1] == a[..k][1..] && Rest(b)[..k - 1] == b[..k][1..];
      }
    }
  }

  // ---------- Lists as sequences of boxes ----------

  ghost predicate Sorted(s: seq<Box>) {
    forall i, j :: 0 <= i < j < |s| ==> Compare(s[i].name, s[j].name) <= 0
  }

  /** Where the walk stops: the first box whose name is not smaller. */
  function Position(s: seq<Box>, name: cstring): (k: nat)
    ensures k <= |s|
    ensures forall i :: 0 <= i < k ==> Compare(s[i].name, name) < 0
    ensures k < |s| ==> Compare(s[k].name, name) >= 0
  {
    if s == [] || Compare(s[0].name, name) >= 0 then 0 else 1 + Position(s[1..], name)
  }

  function Inserted(s: seq<Box>, b: Box): seq<Box> {
    var k := Position(s, b.name);
    s[..k] + [b] + s[k..]
  }

  /** On a sorted list every box from there on is greater or equal: the new list is the
      strictly smaller boxes, the new box, and the others. */
  lemma PositionSplits(s: seq<Box>, name: cstring)
    requires Sorted(s)
    ensures forall i :: 0 <= i < |s| ==> (i < Position(s, name) <==> Compare(s[i].name, name) < 0)
  {
    var k := Position(s, name);
    forall i | k <= i < |s| ensures Compare(s[i].name, name) >= 0 {
      if i > k && Compare(s[i].name, name) < 0 {
        CompareTransitive(s[k].name, s[i].name, name);
      }
    }
  }

  lemma InsertedSorted(s: seq<Box>, b: Box)
    requires Sorted(s)
    ensures Sorted(Inserted(s, b))
  {
    var k := Position(s, b.name);
    var r := Inserted(s, b);
    PositionSplits(s, b.name);
    forall i, j | 0 <= i < j < |r| ensures Compare(r[i].name, r[j].name) <= 0 {
      if i == k {
        CompareAntisymmetric(s[j - 1].name, b.name);
      }
    }
  }

  // ---------- Inserting many ----------

  /** The list after inserting the boxes one after the other into an empty list. */
  function InsertAll(bs: seq<Box>): seq<Box> {
    if bs == [] then [] else Inserted(InsertAll(bs[..|bs| - 1]), bs[|bs| - 1])
  }

  function Named(s: seq<Box>, name: cstring): seq<Box> {
    if s == [] then [] else (if s[0].name == name then [s[0]] else []) + Named(s[1..], name)
  }

  function Reversed(s: seq<Box>): seq<Box> {
    if s == [] then [] else Reversed(s[1..]) + [s[0]]
  }

  lemma {:induction false} NamedConcat(s: seq<Box>, t: seq<Box>, name: cstring)
    ensures Named(s + t, name) == Named(s, name) + Named(t, name)
  {
    if s == [] {
      assert s + t == t;
    } else {
      hide Compare;
      assert (s + t)[1..] == s[1..] + t && (s + t)[0] == s[0];
      NamedConcat(s[1..], t, name);
      var first := if s[0].name == name then [s[0]] else [];
      assert first + (Named(s[1..], name) + Named(t, name)) == (first + Named(s[1..], name)) + Named(t, name);
    }
  }

  lemma {:induction false} NamedNone(s: seq<Box>, name: cstring)
    requires forall i :: 0 <= i < |s| ==> s[i].name != name
    ensures Named(s, name) == []
  {
    if s != [] { NamedNone(s[1..], name); }
  }

  lemma {:induction false} ReversedSnoc(s: seq<Box>, b: Box)
    ensures Reversed(s + [b]) == [b] + Reversed(s)
  {
    if s == [] {
      assert s + [b] == [b];
    } else {
      assert (s + [b])[1..] == s[1..] + [b];
      ReversedSnoc(s[1..], b);
    }
  }

  /** A box goes in front of the boxes of the same name, and leaves all other names alone. */
  lemma NamedInserted(s: seq<Box>, b: Box, name: cstring)
    ensures Named(Inserted(s, b), name) == (if b.name == name then [b] else []) + Named(s, name)
  {
    hide Compare, Named;
    var k := Position(s, b.name);
    var x, y := s[..k], s[k..];
    assert s == x + y;
    NamedConcat(x, y, name);
    NamedConcat(x + [b], y, name);
    NamedConcat(x, [b], name);
    NamedOne(b, name);
    if b.name == name {
      forall i | 0 <= i < k ensures x[i].name != name {
        CompareAntisymmetric(s[i].name, name);
      }
      NamedNone(x, name);
      assert ([] + [b]) + Named(y, name) == [b] + ([] + Named(y, name));
    } else {
      assert (Named(x, name) + []) + Named(y, name) == [] + (Named(x, name) + Named(y, name));
    }
  }

  lemma NamedOne(b: Box, name: cstring)
    ensures Named([b], name) == if b.name == name then [b] else []
  {
  }

  lemma {:induction false} InsertAllReverses(bs: seq<Box>, name: cstring)
    ensures Named(InsertAll(bs), name) == Reversed(Named(bs, name))
  {
    if bs != [] {
      hide Inserted, Position;
      var n := |bs| - 1;
      var front, b := bs[..n], bs[n];
      assert bs == front + [b];
      InsertAllReverses(front, name);
      NamedInserted(InsertAll(front), b, name);
      NamedConcat(front, [b], name);
      NamedOne(b, name);
      ReversedSnoc(Named(front, name), b);
      assert Named(front, name) + [] == Named(front, name);
    }
  }

  ghost predicate Distinct(s: seq<Box>) {
    forall i, j :: 0 <= i < j < |s| ==> s[i] != s[j]
  }

  lemma InsertedDistinct(s: seq<Box>, b: Box)
    requires Distinct(s) && b !in s
    ensures Distinct(Inserted(s, b))
  {
  }

  lemma InsertedPermutes(s: seq<Box>, b: Box)
    ensures multiset(Inserted(s, b)) == multiset(s) + multiset{b}
  {
    var k := Position(s, b.name);
    assert s == s[..k] + s[k..];
  }

  /** Inserting any boxes into an empty list sorts them: the result is sorted, is a permutation
      of them, and has boxes of equal names in reverse order of insertion. */
  lemma {:induction false} InsertAllSorts(bs: seq<Box>)
    ensures Sorted(InsertAll(bs)) && multiset(InsertAll(bs)) == multiset(bs)
    ensures forall name :: Named(InsertAll(bs), name) == Reversed(Named(bs, name))
  {
    if bs != [] {
      hide Inserted, Sorted;
      var n := |bs| - 1;
      var front, b := bs[..n], bs[n];
      InsertAllSorts(front);
      InsertedSorted(InsertAll(front), b);
      InsertedPermutes(InsertAll(front), b);
      assert bs == front + [b];
    }
    forall name ensures Named(InsertAll(bs), name) == Reversed(Named(bs, name)) {
      InsertAllReverses(bs, name);
    }
  }

  // ---------- The linked list ----------

  /** A box as it arrives in a message. */
  datatype BoxInfo = BoxInfo(name: cstring, last: int, boxSize: nat, publishers: nat, subscribers: nat)

  class Box {
    const name: cstring
    const last: int
    const boxSize: nat
    const publishers: nat
    const subscribers: nat
    var next: Box?

    /** newBox_b: the name must fit its array. */
    constructor (name: cstring, last: int, boxSize: nat, publishers: nat, subscribers: nat)
      requires |name| < MAX_BOX_NAME
      ensures this.name == name && this.last == last && this.boxSize == boxSize
      ensures this.publishers == publishers && this.subscribers == subscribers && next == null
    {
      this.name := name;
      this.last := last;
      this.boxSize := boxSize;
      this.publishers := publishers;
      this.subscribers := subscribers;
      next := null;
    }
  }

  class List {
    var head: Box?
    ghost var spine: seq<Box>

    /** The chain of next pointers from head visits exactly the boxes of spine, and ends. */
    ghost predicate Valid()
      reads this, spine
    {
      && Distinct(spine)
      && (if spine == [] then head == null else head == spine[0])
      && (forall i {:trigger spine[i].next} :: 0 <= i < |spine| ==> spine[i].next == if i + 1 < |spine| then spine[i + 1] else null)
    }

    constructor ()
      ensures Valid() && spine == []
    {
      head := null;
      spine := [];
    }

    /** What validity says of the pointers. */
    lemma FollowsSpine()
      requires Valid()
      ensures head == (if spine == [] then null else spine[0])
      ensures forall i :: 0 <= i < |spine| ==> spine[i].next == if i + 1 < |spine| then spine[i + 1] else null
    {
    }

    /** Links of the old list, but for the box before the new one, and of the new box make the
        new list. */
    static lemma LinksInserted(s: seq<Box>, b: Box)
      requires var k := Position(s, b.name);
        && b.next == (if k < |s| then s[k] else null)
        && (k > 0 ==> s[k - 1].next == b)
        && forall j {:trigger s[j].next} :: 0 <= j < |s| && j + 1 != k ==> s[j].next == if j + 1 < |s| then s[j + 1] else null
      ensures var r := Inserted(s, b);
        forall i :: 0 <= i < |r| ==> r[i].next == if i + 1 < |r| then r[i + 1] else null
    {
    }

    /** The walk of insertion_sort: the box after which the new one belongs. */
    method Predecessor(name: cstring) returns (current: Box, ghost i: nat)
      requires Valid() && head != null && Compare(head.name, name) < 0
      ensures i < |spine| && current == spine[i] && Position(spine, name) == i + 1
    {
      hide Compare;
      current := head;
      i := 0;
      while current.next != null && Compare(current.next.name, name) < 0
        invariant i < |spine| && current == spine[i]
        invariant forall j :: 0 <= j <= i ==> Compare(spine[j].name, name) < 0
        decreases |spine| - i
      {
        current := current.next;
        i := i + 1;
      }
      assert current.next == if i + 1 < |spine| then spine[i + 1] else null;
    }

    /** insertion_sort */
    method InsertionSort(newBox: Box)
      requires Valid() && newBox !in spine
      modifies this, spine, newBox
      ensures Valid() && spine == Inserted(old(spine), newBox)
      ensures old(Sorted(spine)) ==> Sorted(spine)
    {
      hide Compare, Sorted;
      ghost var s := spine;
      if head == null || Compare(head.name, newBox.name) >= 0 {
        newBox.next := head;
        head := newBox;
      } else {
        var current, i := Predecessor(newBox.name);
        newBox.next := current.next;
        current.next := newBox;
      }
      LinksInserted(s, newBox);
      InsertedDistinct(s, newBox);
      spine := Inserted(s, newBox);
      if old(Sorted(spine)) {
        InsertedSorted(s, newBox);
      }
    }
  }

  /** A new box for each that arrives, inserted in turn. */
  method InsertNew(infos: seq<BoxInfo>) returns (list: List, ghost boxes: seq<Box>)
    requires forall i :: 0 <= i < |infos| ==> |infos[i].name| < MAX_BOX_NAME
    ensures |boxes| == |infos|
    ensures forall i :: 0 <= i < |infos| ==>
      && boxes[i].name == infos[i].name && boxes[i].last == infos[i].last && boxes[i].boxSize == infos[i].boxSize
      && boxes[i].publishers == infos[i].publishers && boxes[i].subscribers == infos[i].subscribers
    ensures list.Valid() && list.spine == InsertAll(boxes)
  {
    hide *;
    list := new List();
    boxes := [];
    AllInserted([]);
    for i := 0 to |infos|
      invariant fresh(list) && list.Valid() && list.spine == InsertAll(boxes)
      invariant |boxes| == i
      invariant forall j :: 0 <= j < i ==>
        && boxes[j].name == infos[j].name && boxes[j].last == infos[j].last && boxes[j].boxSize == infos[j].boxSize
        && boxes[j].publishers == infos[j].publishers && boxes[j].subscribers == infos[j].subscribers
      invariant forall b :: b in multiset(list.spine) ==> fresh(b)
    {
      var box := new Box(infos[i].name, infos[i].last, infos[i].boxSize, infos[i].publishers, infos[i].subscribers);
      forall k | 0 <= k < |list.spine| ensures fresh(list.spine[k]) {
        assert list.spine[k] in multiset(list.spine);
      }
      list.InsertionSort(box);
      InsertedPermutes(InsertAll(boxes), box);
      boxes := boxes + [box];
      AllInserted(boxes);
    }
  }

  /** The manager's list of the boxes that arrive. */
  method ListBoxes(infos: seq<BoxInfo>) returns (list: List, ghost boxes: seq<Box>)
    requires forall i :: 0 <= i < |infos| ==> |infos[i].name| < MAX_BOX_NAME
    ensures |boxes| == |infos|
    ensures forall i :: 0 <= i < |infos| ==>
      && boxes[i].name == infos[i].name && boxes[i].last == infos[i].last && boxes[i].boxSize == infos[i].boxSize
      && boxes[i].publishers == infos[i].publishers && boxes[i].subscribers == infos[i].subscribers
    ensures list.Valid() && list.spine == InsertAll(boxes)
    ensures list.head == (if boxes == [] then null else list.spine[0])
    ensures forall i :: 0 <= i < |list.spine| ==> list.spine[i].next == if i + 1 < |list.spine| then list.spine[i + 1] else null
    ensures Sorted(list.spine) && multiset(list.spine) == multiset(boxes)
    ensures forall name :: Named(list.spine, name) == Reversed(Named(boxes, name))
  {
    hide List.Valid, Sorted, InsertAll, Named, Reversed;
    list, boxes := InsertNew(infos);
    InsertAllSorts(boxes);
    list.FollowsSpine();
    assert |multiset(list.spine)| == |multiset(boxes)|;
  }

  lemma AllInserted(bs: seq<Box>)
    ensures InsertAll(bs) == if bs == [] then [] else Inserted(InsertAll(bs[..|bs| - 1]), bs[|bs| - 1])
  {
  }
}
