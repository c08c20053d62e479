/** A binary heap over a growable array, with the parent of slot i in slot i >> 1. */
module Heap {

  /** A heap of items that weigh `key`; the best is the smallest or the greatest, depending on the order. */
  class BinaryHeap<T> {
    const key: T -> nat
    const increasing: bool
    var arr: seq<T>

    constructor (increasing: bool, key: T -> nat)
      ensures Valid() && arr == [] && this.increasing == increasing && this.key == key
    {
      this.increasing, this.key, arr := increasing, key, [];
    }

    predicate Better(x: T, y: T) {
      if increasing then key(x) < key(y) else key(x) > key(y)
    }

    /** No slot of s but `hole` holds something better than its parent slot. */
    ghost predicate OrderedExcept(s: seq<T>, hole: int) {
      forall j :: 0 < j < |s| && j != hole ==> !Better(s[j], s[j / 2])
    }

    /** No slot holds something better than its parent slot, except perhaps the children of `hole`. */
    ghost predicate OrderedBelow(s: seq<T>, hole: int) {
      forall j :: 0 < j < |s| && j / 2 != hole ==> !Better(s[j], s[j / 2])
    }

    /** What stands in a child of `hole` is not better than what stands in the parent of `hole`. */
    ghost predicate SkipsHole(s: seq<T>, hole: nat) {
      forall j :: 0 < hole && hole < j < |s| && j / 2 == hole ==> !Better(s[j], s[hole / 2])
    }

    ghost predicate Valid()
      reads this
    {
      OrderedExcept(arr, 0)
    }

    /** In a heap nothing is better than what stands on top. */
    lemma {:induction false} TopIsBest(s: seq<T>, i: nat)
      requires OrderedExcept(s, 0) && i < |s|
      ensures !Better(s[i], s[0])
    {
      if i > 0 {
        TopIsBest(s, i / 2);
      }
    }

    method Insert(item: T)
      requires Valid()
      modifies this
      ensures Valid() && multiset(arr) == multiset(old(arr)) + multiset{item}
    {
      var i := |arr|;
      AtTheEnd(arr, item);
      arr := arr + [item];
      assert arr[i := item] == arr;
      hide OrderedExcept, SkipsHole;
      while i > 0 && Better(item, arr[i / 2])
        invariant 0 <= i < |arr|
        invariant multiset(arr[i := item]) == multiset(old(arr)) + multiset{item}
        invariant OrderedExcept(arr[i := item], i) && SkipsHole(arr[i := item], i)
      {
        HoleMovedUp(arr, i, item);
        hide *;
        arr := arr[i := arr[i / 2]];
        i := i / 2;
      }
      arr := arr[i := item];
      InPlace(arr, i);
    }

    lemma AtTheEnd(s: seq<T>, item: T)
      requires OrderedExcept(s, 0)
      ensures OrderedExcept(s + [item], |s|) && SkipsHole(s + [item], |s|)
    {
    }

    /** The parent moves into the hole, and the hole to where it was. */
    lemma HoleMovedUp(s: seq<T>, i: nat, item: T)
      requires 0 < i < |s| && OrderedExcept(s[i := item], i) && SkipsHole(s[i := item], i) && Better(item, s[i / 2])
      ensures var s' := s[i := s[i / 2]][i / 2 := item];
              OrderedExcept(s', i / 2) && SkipsHole(s', i / 2) && multiset(s') == multiset(s[i := item])
    {
      hide OrderedExcept, SkipsHole;
      MovedUp(s[i := item], i);
      assert s[i := item][i := s[i / 2]][i / 2 := item] == s[i := s[i / 2]][i / 2 := item];
    }

    lemma InPlace(s: seq<T>, i: nat)
      requires i < |s| && OrderedExcept(s, i) && (i == 0 || !Better(s[i], s[i / 2]))
      ensures OrderedExcept(s, 0)
    {
    }

    /** Exchanging an item with a worse parent repairs its slot and may break only the parent's. */
    lemma MovedUp(s: seq<T>, i: nat)
      requires 0 < i < |s| && OrderedExcept(s, i) && SkipsHole(s, i) && Better(s[i], s[i / 2])
      ensures var s' := s[i := s[i / 2]][i / 2 := s[i]];
              OrderedExcept(s', i / 2) && SkipsHole(s', i / 2) && multiset(s') == multiset(s)
    {
      var parent := i / 2;
      var s' := s[i := s[parent]][parent := s[i]];
      forall j | 0 < j < |s| && j != parent ensures !Better(s'[j], s'[j / 2]) {
        assert j == i || !Better(s[j], s[j / 2]);
      }
      forall j | 0 < parent < j < |s| && j / 2 == parent ensures !Better(s'[j], s'[parent / 2]) {
        assert j == i || !Better(s[j], s[j / 2]);
        assert !Better(s[parent], s[parent / 2]);
      }
    }

    method Top() returns (item: T)
      requires Valid() && arr != []
      ensures item == arr[0] && forall x :: x in arr ==> !Better(x, item)
    {
      item := arr[0];
      forall x | x in arr ensures !Better(x, item) {
        var i :| 0 <= i < |arr| && arr[i] == x;
        TopIsBest(arr, i);
      }
    }

    method Pop() returns (item: T)
      requires Valid() && arr != []
      modifies this
      ensures Valid() && multiset(old(arr)) == multiset(arr) + multiset{item} && |arr| == |old(arr)| - 1
      ensures forall x :: x in arr ==> if increasing then key(item) <= key(x) else key(item) >= key(x)
    {
      item := Top();
      RemoveFirst();
      if |arr| > 0 {
        Heapify();
      }
      forall x | x in arr ensures !Better(x, item) {
        assert x in multiset(arr);
        assert x in multiset(old(arr));
      }
    }

    /** Array::remove(0): the last element takes the place of the first. */
    method RemoveFirst()
      requires Valid() && arr != []
      modifies this
      ensures multiset(old(arr)) == multiset(arr) + multiset{old(arr[0])} && |arr| == |old(arr)| - 1
      ensures OrderedBelow(arr, 0)
    {
      var last := arr[|arr|-1];
      assert arr == [arr[0]] + arr[1..] && arr == arr[..|arr|-1] + [last];
      arr := arr[..|arr|-1];
      if 0 != |arr| {
        assert arr == [arr[0]] + arr[1..];
        arr := arr[0 := last];
        assert arr == [last] + arr[1..];
      }
    }

    /** The better of the item in slot i and the item in slot j, if there is a slot j. */
    function Prefer(i: nat, j: nat): (k: nat)
      requires i < |arr|
      reads this
      ensures k < |arr| && (k == i || k == j)
    {
      if j < |arr| && Better(arr[j], arr[i]) then j else i
    }

    /** Restore the order below the top. */
    method Heapify()
      requires arr != [] && OrderedBelow(arr, 0)
      modifies this
      ensures Valid() && multiset(arr) == multiset(old(arr))
    {
      var i := 0;
      while true
        invariant i < |arr| == |old(arr)| && multiset(arr) == multiset(old(arr))
        invariant OrderedBelow(arr, i) && SkipsHole(arr, i)
        decreases |arr| - i
      {
        var largest := Prefer(Prefer(i, 2 * i), 2 * i + 1);
        if largest == i {
          return;
        }
        ghost var before := arr;
        arr := arr[i := arr[largest]][largest := arr[i]];
        MovedDown(before, arr, i, largest);
        i := largest;
      }
    }

    /** Exchanging an item with the best of its children repairs its slot and may break only the child's. */
    lemma MovedDown(s: seq<T>, s': seq<T>, i: nat, child: nat)
      requires i < child < |s| && child / 2 == i && OrderedBelow(s, i) && SkipsHole(s, i)
      requires Better(s[child], s[i]) && forall j :: i < j < |s| && j / 2 == i ==> !Better(s[j], s[child])
      requires s' == s[i := s[child]][child := s[i]]
      ensures OrderedBelow(s', child) && SkipsHole(s', child) && multiset(s') == multiset(s)
    {
      MovedDownOrdered(s, s', i, child);
      MovedDownSkips(s, s', i, child);
      hide OrderedBelow, SkipsHole;
    }

    lemma MovedDownOrdered(s: seq<T>, s': seq<T>, i: nat, child: nat)
      requires i < child < |s| && child / 2 == i && OrderedBelow(s, i) && SkipsHole(s, i)
      requires Better(s[child], s[i]) && forall j :: i < j < |s| && j / 2 == i ==> !Better(s[j], s[child])
      requires s' == s[i := s[child]][child := s[i]]
      ensures OrderedBelow(s', child)
    {
    }

    lemma MovedDownSkips(s: seq<T>, s': seq<T>, i: nat, child: nat)
      requires i < child < |s| && child / 2 == i && OrderedBelow(s, i)
      requires s' == s[i := s[child]][child := s[i]]
      ensures SkipsHole(s', child)
    {
    }
  }
}
