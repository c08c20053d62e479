/** Sequences seen as sets. */
module Sequences {

  ghost predicate NoDuplicates<T>(s: seq<T>) {
    forall i, j :: 0 <= i < j < |s| ==> s[i] != s[j]
  }

  ghost function Elements<T>(s: seq<T>): set<T> {
    set x | x in s
  }

  /** The element at a place goes, and the last one takes its place. */
  function Displaced<T>(s: seq<T>, k: nat): seq<T>
    requires k < |s|
  {
    if k == |s| - 1 then s[..k] else s[..|s| - 1][k := s[|s| - 1]]
  }

  lemma NextElement<T>(s: seq<T>, k: nat)
    requires k < |s| && NoDuplicates(s)
    ensures s[k] !in Elements(s[..k]) && Elements(s[..k+1]) == Elements(s[..k]) + {s[k]}
  {
    assert s[..k+1] == s[..k] + [s[k]];
  }

  lemma NoDuplicatesMore<T>(s: seq<T>, x: T)
    requires NoDuplicates(s) && x !in s
    ensures NoDuplicates(s + [x])
  {
  }

  lemma NoDuplicatesBoth<T>(s: seq<T>, t: seq<T>)
    requires NoDuplicates(s) && NoDuplicates(t) && forall x :: x in s ==> x !in t
    ensures NoDuplicates(s + t)
  {
    forall i, j | 0 <= i < j < |s + t| ensures (s + t)[i] != (s + t)[j] {
      if i < |s| <= j { assert s[i] in s && t[j - |s|] in t; }
    }
  }

  lemma {:induction false} NoDuplicatesCount<T>(s: seq<T>)
    ensures NoDuplicates(s) <==> forall x :: x in s ==> multiset(s)[x] == 1
  {
    if s != [] {
      var n := |s| - 1;
      NoDuplicatesCount(s[..n]);
      assert s == s[..n] + [s[n]];
      if NoDuplicates(s) {
        assert s[n] !in s[..n];
        forall x | x in s ensures multiset(s)[x] == 1 {
          assert multiset(s)[x] == multiset(s[..n])[x] + multiset([s[n]])[x];
        }
      } else if forall x :: x in s ==> multiset(s)[x] == 1 {
        assert multiset(s)[s[n]] == multiset(s[..n])[s[n]] + 1;
        forall x | x in s[..n] ensures multiset(s[..n])[x] == 1 {
          assert x in s && multiset(s)[x] == 1;
        }
      }
    }
  }

  /** The order does not matter. */
  lemma NoDuplicatesOrder<T>(s: seq<T>, t: seq<T>)
    requires multiset(s) == multiset(t) && NoDuplicates(s)
    ensures NoDuplicates(t)
  {
    NoDuplicatesCount(s);
    NoDuplicatesCount(t);
    forall x | x in t ensures multiset(t)[x] == 1 {
      assert x in multiset(t) && x in multiset(s);
    }
  }

  /** The list without later copies of an element, as Slist::remove_duplicates leaves it. */
  function Distinct<T(==)>(s: seq<T>): (r: seq<T>)
    ensures NoDuplicates(r) && Elements(r) == Elements(s) && |r| <= |s|
  {
    if s == [] then []
    else
      var r, x := Distinct(s[..|s|-1]), s[|s|-1];
      assert s == s[..|s|-1] + [x];
      assert Elements(s) == Elements(s[..|s|-1]) + {x};
      assert Elements(r + [x]) == Elements(r) + {x};
      if x in r then r else r + [x]
  }

  lemma DistinctMembers<T>(s: seq<T>)
    ensures forall x :: x in Distinct(s) <==> x in s
  {
    assert forall x :: x in Distinct(s) <==> x in Elements(Distinct(s));
    assert forall x :: x in s <==> x in Elements(s);
  }

  /** The sequence without the element at place i. */
  function Without<T>(s: seq<T>, i: nat): seq<T>
    requires i < |s|
  {
    s[..i] + s[i+1..]
  }

  lemma WithoutLast<T>(s: seq<T>, i: nat)
    requires i < |s| - 1
    ensures |Without(s, i)| == |s| - 1 && Without(s, i)[|s|-2] == s[|s|-1]
    ensures Without(s, i)[..|s|-2] == Without(s[..|s|-1], i)
  {
  }

  lemma WithoutElements<T>(s: seq<T>, i: nat)
    requires i < |s|
    ensures multiset(s) == multiset(Without(s, i)) + multiset{s[i]}
    ensures forall x :: x in s && x != s[i] ==> x in Without(s, i)
  {
    assert s == s[..i] + [s[i]] + s[i+1..];
  }

  /** A list without duplicates is no longer than one that has all its elements. */
  lemma {:induction false} NoDuplicatesLength<T>(s: seq<T>, all: seq<T>)
    requires NoDuplicates(s) && forall x :: x in s ==> x in all
    ensures |s| <= |all|
  {
    if s != [] {
      var x := s[|s|-1];
      assert x in s && x in all;
      var i :| 0 <= i < |all| && all[i] == x;
      WithoutElements(all, i);
      NoDuplicatesLength(s[..|s|-1], Without(all, i));
    }
  }

  ghost function Flatten<T>(buckets: seq<seq<T>>): seq<T> {
    if buckets == [] then [] else Flatten(buckets[..|buckets|-1]) + buckets[|buckets|-1]
  }

  lemma {:induction false} FlattenSplit<T>(buckets: seq<seq<T>>, i: nat)
    requires i <= |buckets|
    ensures Flatten(buckets) == Flatten(buckets[..i]) + Flatten(buckets[i..])
  {
    var n := |buckets| - 1;
    if i == |buckets| {
      assert buckets[..i] == buckets && buckets[i..] == [];
    } else {
      FlattenSplit(buckets[..n], i);
      assert buckets[..n][..i] == buckets[..i] && buckets[i..][..n-i] == buckets[..n][i..];
    }
  }

  /** What stands before, in and after one bucket. */
  lemma FlattenAround<T>(buckets: seq<seq<T>>, i: nat)
    requires i < |buckets|
    ensures Flatten(buckets) == Flatten(buckets[..i]) + buckets[i] + Flatten(buckets[i+1..])
    ensures Flatten(buckets[..i+1]) == Flatten(buckets[..i]) + buckets[i]
  {
    FlattenSplit(buckets, i + 1);
    assert buckets[..i+1][..i] == buckets[..i];
  }

  lemma FlattenReplaced<T>(buckets: seq<seq<T>>, i: nat, bucket: seq<T>)
    requires i < |buckets|
    ensures Flatten(buckets[i := bucket]) == Flatten(buckets[..i]) + bucket + Flatten(buckets[i+1..])
  {
    var replaced := buckets[i := bucket];
    FlattenAround(replaced, i);
    assert replaced[..i] == buckets[..i] && replaced[i+1..] == buckets[i+1..];
  }

  lemma {:induction false} FlattenEmpty<T>(buckets: seq<seq<T>>)
    requires forall i :: 0 <= i < |buckets| ==> buckets[i] == []
    ensures Flatten(buckets) == []
  {
    if buckets != [] {
      FlattenEmpty(buckets[..|buckets|-1]);
    }
  }
}
