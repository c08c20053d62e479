/** Insertion into a sorted list, and sorting an array by inserting its elements one by one. */
module Sorting {

  /** A strict order in which elements that are not ordered either way count as equal. */
  ghost predicate StrictWeakOrder<T(!new)>(smaller: (T, T) -> bool) {
    && (forall a :: !smaller(a, a))
    && (forall a, b, c :: smaller(a, b) && smaller(b, c) ==> smaller(a, c))
    && (forall a, b, c :: Same(smaller, a, b) && Same(smaller, b, c) ==> Same(smaller, a, c))
  }

  ghost predicate Same<T(!new)>(smaller: (T, T) -> bool, a: T, b: T) {
    !smaller(a, b) && !smaller(b, a)
  }

  ghost predicate Sorted<T(!new)>(s: seq<T>, smaller: (T, T) -> bool) {
    forall i, j :: 0 <= i < j < |s| ==> !smaller(s[j], s[i])
  }

  /** The elements that count as equal to x, in the order in which they stand. */
  ghost function Class<T(!new)>(s: seq<T>, smaller: (T, T) -> bool, x: T): seq<T> {
    if s == [] then [] else Class(s[..|s|-1], smaller, x) + if Same(smaller, s[|s|-1], x) then [s[|s|-1]] else []
  }

  lemma {:induction false} ClassBoth<T(!new)>(s: seq<T>, t: seq<T>, smaller: (T, T) -> bool, x: T)
    ensures Class(s + t, smaller, x) == Class(s, smaller, x) + Class(t, smaller, x)
  {
    if t == [] {
      assert s + t == s;
    } else {
      var n := |t| - 1;
      ClassBoth(s, t[..n], smaller, x);
      assert (s + t)[..|s| + n] == s + t[..n];
    }
  }

  lemma {:induction false} ClassNone<T(!new)>(s: seq<T>, smaller: (T, T) -> bool, x: T)
    requires forall i :: 0 <= i < |s| ==> !Same(smaller, s[i], x)
    ensures Class(s, smaller, x) == []
  {
    if s != [] { ClassNone(s[..|s|-1], smaller, x); }
  }

  lemma ClassOne<T(!new)>(a: T, smaller: (T, T) -> bool, x: T)
    ensures Class([a], smaller, x) == if Same(smaller, a, x) then [a] else []
  {
    assert [a][..0] == [];
  }

  /** t is s, rearranged without changing the order of elements that count as equal. */
  ghost predicate StablyRearranged<T(!new)>(s: seq<T>, t: seq<T>, smaller: (T, T) -> bool) {
    multiset(s) == multiset(t) && forall x :: Class(t, smaller, x) == Class(s, smaller, x)
  }

  /** An element put in front of the first greater one comes after those that count as equal to it. */
  lemma Inserted<T(!new)>(list: seq<T>, item: T, i: nat, smaller: (T, T) -> bool)
    requires StrictWeakOrder(smaller) && Sorted(list, smaller) && i <= |list|
    requires forall k :: 0 <= k < i ==> !smaller(item, list[k])
    requires i < |list| ==> smaller(item, list[i])
    ensures var t := list[..i] + [item] + list[i..];
            Sorted(t, smaller) && StablyRearranged(list + [item], t, smaller)
  {
    hide Sorted, StrictWeakOrder, StablyRearranged;
    InsertedSorted(list, item, i, smaller);
    InsertedStably(list, item, i, smaller);
  }

  lemma InsertedStably<T(!new)>(list: seq<T>, item: T, i: nat, smaller: (T, T) -> bool)
    requires StrictWeakOrder(smaller) && Sorted(list, smaller) && i <= |list|
    requires i < |list| ==> smaller(item, list[i])
    ensures StablyRearranged(list + [item], list[..i] + [item] + list[i..], smaller)
  {
    hide Class, Sorted, StrictWeakOrder;
    assert list == list[..i] + list[i..];
    forall x ensures Class(list[..i] + [item] + list[i..], smaller, x) == Class(list + [item], smaller, x) {
      InsertedClass(list, item, i, smaller, x);
    }
  }

  /** Everything from place i on is greater than the item. */
  lemma Greater<T(!new)>(list: seq<T>, item: T, i: nat, smaller: (T, T) -> bool)
    requires StrictWeakOrder(smaller) && Sorted(list, smaller) && i < |list| && smaller(item, list[i])
    ensures forall k :: i <= k < |list| ==> smaller(item, list[k])
  {
    forall k | i <= k < |list| ensures smaller(item, list[k]) {
      Between(item, list[i], list[k], smaller);
    }
  }

  lemma Between<T(!new)>(a: T, b: T, c: T, smaller: (T, T) -> bool)
    requires StrictWeakOrder(smaller) && smaller(a, b) && !smaller(c, b)
    ensures smaller(a, c)
  {
    assert smaller(b, c) || Same(smaller, b, c);
    assert smaller(a, c) || smaller(c, a) || Same(smaller, c, a);
  }

  lemma NotSame<T(!new)>(item: T, y: T, x: T, smaller: (T, T) -> bool)
    requires StrictWeakOrder(smaller) && smaller(item, y) && Same(smaller, item, x)
    ensures !Same(smaller, y, x)
  {
    assert Same(smaller, y, x) ==> Same(smaller, x, y);
  }

  lemma InsertedSorted<T(!new)>(list: seq<T>, item: T, i: nat, smaller: (T, T) -> bool)
    requires StrictWeakOrder(smaller) && Sorted(list, smaller) && i <= |list|
    requires forall k :: 0 <= k < i ==> !smaller(item, list[k])
    requires i < |list| ==> smaller(item, list[i])
    ensures Sorted(list[..i] + [item] + list[i..], smaller)
  {
    if i < |list| { Greater(list, item, i, smaller); }
    var t := list[..i] + [item] + list[i..];
    assert forall k :: i <= k < |list| ==> !smaller(list[k], item);
    assert forall k :: 0 <= k < |t| ==> t[k] == if k < i then list[k] else if k == i then item else list[k - 1];
  }

  lemma InsertedClass<T(!new)>(list: seq<T>, item: T, i: nat, smaller: (T, T) -> bool, x: T)
    requires StrictWeakOrder(smaller) && Sorted(list, smaller) && i <= |list|
    requires i < |list| ==> smaller(item, list[i])
    ensures Class(list[..i] + [item] + list[i..], smaller, x) == Class(list + [item], smaller, x)
  {
    hide *;
    var before, after := list[..i], list[i..];
    assert list == before + after;
    ClassBoth(before + [item], after, smaller, x);
    ClassBoth(before, [item], smaller, x);
    ClassBoth(list, [item], smaller, x);
    ClassBoth(before, after, smaller, x);
    ClassOne(item, smaller, x);
    NothingAfter(list, item, i, smaller, x);
  }

  /** No element after the item counts as equal to it. */
  lemma NothingAfter<T(!new)>(list: seq<T>, item: T, i: nat, smaller: (T, T) -> bool, x: T)
    requires StrictWeakOrder(smaller) && Sorted(list, smaller) && i <= |list|
    requires i < |list| ==> smaller(item, list[i])
    ensures Same(smaller, item, x) ==> Class(list[i..], smaller, x) == []
  {
    hide StrictWeakOrder, Sorted;
    if Same(smaller, item, x) && i < |list| {
      Greater(list, item, i, smaller);
      forall k | 0 <= k < |list[i..]| ensures !Same(smaller, list[i..][k], x) {
        NotSame(item, list[i + k], x, smaller);
      }
      ClassNone(list[i..], smaller, x);
    }
  }

  /** insert_sorted on a list */
  method InsertSorted<T(!new)>(list: seq<T>, item: T, smaller: (T, T) -> bool) returns (r: seq<T>)
    requires StrictWeakOrder(smaller) && Sorted(list, smaller)
    ensures Sorted(r, smaller) && StablyRearranged(list + [item], r, smaller)
  {
    var i := 0;
    while i < |list| && !smaller(item, list[i])
      invariant 0 <= i <= |list| && forall k :: 0 <= k < i ==> !smaller(item, list[k])
    {
      i := i + 1;
    }
    Inserted(list, item, i, smaller);
    r := list[..i] + [item] + list[i..];
  }

  lemma RearrangedMore<T(!new)>(s: seq<T>, t: seq<T>, r: seq<T>, item: T, smaller: (T, T) -> bool)
    requires StablyRearranged(s, t, smaller) && StablyRearranged(t + [item], r, smaller)
    ensures StablyRearranged(s + [item], r, smaller)
  {
    forall x ensures Class(r, smaller, x) == Class(s + [item], smaller, x) {
      ClassBoth(s, [item], smaller, x);
      ClassBoth(t, [item], smaller, x);
    }
  }

  /** sort: the array is overwritten by the list that its elements were inserted into. */
  method Sort<T(!new)>(a: array<T>, smaller: (T, T) -> bool)
    requires StrictWeakOrder(smaller)
    modifies a
    ensures Sorted(a[..], smaller) && StablyRearranged(old(a[..]), a[..], smaller)
  {
    var list: seq<T> := [];
    hide StrictWeakOrder, Sorted, StablyRearranged;
    SortedNone<T>(smaller);
    for i := 0 to a.Length
      invariant a[..] == old(a[..]) && Sorted(list, smaller) && StablyRearranged(a[..i], list, smaller)
    {
      ghost var before := list;
      list := InsertSorted(list, a[i], smaller);
      RearrangedMore(a[..i], before, list, a[i], smaller);
      assert a[..i] + [a[i]] == a[..i+1];
    }
    assert a[..a.Length] == a[..];
    SameLength(a[..], list, smaller);
    for i := 0 to a.Length
      invariant a[..i] == list[..i]
    {
      a[i] := list[i];
    }
    assert a[..] == list;
  }

  lemma SortedNone<T(!new)>(smaller: (T, T) -> bool)
    ensures Sorted([], smaller) && StablyRearranged([], [], smaller)
  {
  }

  lemma SameLength<T(!new)>(s: seq<T>, t: seq<T>, smaller: (T, T) -> bool)
    requires StablyRearranged(s, t, smaller)
    ensures |s| == |t|
  {
    assert |s| == |multiset(s)| && |t| == |multiset(t)|;
  }
}
