/** Growable arrays whose capacity doubles, and what the copying costs over a whole run. */
module Arrays {

  import opened Words

  datatype Operation = Push | Drop | Set(i: nat) | Erase

  /** What an array has cost since its storage was last given up: the elements copied by reallocation and the
      largest size requested, beside the elements in use and those there is room for. */
  datatype Account = Account(used: nat, capacity: nat, copied: nat, peak: nat) {

    ghost predicate Sound() {
      && used <= capacity < WORD && used <= peak && (capacity > 0 ==> capacity < 2 * peak)
      && (peak <= WORD / 2 ==> copied <= capacity)
    }

    /** Room is made for newsize elements. */
    ghost function Ensured(newsize: nat): Account {
      var asked := if newsize > peak then newsize else peak;
      if newsize <= capacity then this.(peak := asked)
      else Account(used, Grown(capacity, newsize), copied + used, asked)
    }

    ghost function Next(op: Operation): Account {
      match op
      case Push => Ensured(used + 1).(used := used + 1)
      case Drop => this.(used := if used > 0 then used - 1 else 0)
      case Set(i) => if i < used then this else Ensured(i + 1).(used := i + 1)
      case Erase => Start(0)
    }

    /** No size above the bound is requested, and nothing is taken from an empty array. */
    ghost predicate Allows(op: Operation, bound: nat) {
      match op
      case Push => used + 1 <= bound
      case Drop => used > 0
      case Set(i) => i + 1 <= bound
      case Erase => true
    }

    lemma EnsuredSound(newsize: nat)
      requires Sound() && newsize < WORD
      ensures Ensured(newsize).Sound() && newsize <= Ensured(newsize).capacity
    {
      if newsize > capacity { GrowthBounds(capacity, newsize); }
    }

    lemma NextSound(op: Operation, bound: nat)
      requires Sound() && peak <= bound < WORD && Allows(op, bound)
      ensures Next(op).Sound() && Next(op).peak <= bound
    {
      match op
      case Push => EnsuredSound(used + 1);
      case Drop =>
      case Set(i) => EnsuredSound(i + 1);
      case Erase =>
    }
  }

  /** The new capacity: twice the old one in unsigned arithmetic, or the requested size if that is more. */
  function Grown(capacity: nat, newsize: nat): nat {
    var doubled := 2 * capacity % WORD;
    if newsize > doubled then newsize else doubled
  }

  lemma GrowthBounds(capacity: nat, newsize: nat)
    requires capacity < newsize < WORD
    ensures newsize <= Grown(capacity, newsize) < WORD && Grown(capacity, newsize) < 2 * newsize
    ensures newsize <= WORD / 2 ==> Grown(capacity, newsize) >= 2 * capacity
  {
  }

  ghost function Start(size: nat): Account {
    Account(0, size, 0, size)
  }

  /** The account of an array that was built with room for size elements, after a run of operations */
  ghost function After(size: nat, ops: seq<Operation>): Account {
    if ops == [] then Start(size) else After(size, ops[..|ops| - 1]).Next(ops[|ops| - 1])
  }

  ghost predicate Within(bound: nat, size: nat, ops: seq<Operation>) {
    if ops == [] then size <= bound
    else Within(bound, size, ops[..|ops| - 1]) && After(size, ops[..|ops| - 1]).Allows(ops[|ops| - 1], bound)
  }

  lemma {:induction false} RunSound(bound: nat, size: nat, ops: seq<Operation>)
    requires bound < WORD && Within(bound, size, ops)
    ensures After(size, ops).Sound() && After(size, ops).peak <= bound
  {
    if ops != [] {
      RunSound(bound, size, ops[..|ops| - 1]);
      After(size, ops[..|ops| - 1]).NextSound(ops[|ops| - 1], bound);
    }
  }

  lemma OneMore(bound: nat, size: nat, ops: seq<Operation>, op: Operation)
    ensures After(size, ops + [op]) == After(size, ops).Next(op)
    ensures Within(bound, size, ops + [op]) <==> Within(bound, size, ops) && After(size, ops).Allows(op, bound)
  {
    assert (ops + [op])[..|ops|] == ops;
  }

  /** The copies never outnumber the room there is, over all runs that request no size above the bound, exactly
      if the bound is at most 2^31: from there on the doubling wraps around. */
  lemma CopiesAmortized(bound: nat)
    requires bound < WORD
    ensures (forall size, ops :: Within(bound, size, ops) ==> After(size, ops).copied <= After(size, ops).capacity)
            <==> bound <= WORD / 2
  {
    if bound <= WORD / 2 {
      forall size, ops | Within(bound, size, ops) ensures After(size, ops).copied <= After(size, ops).capacity {
        RunSound(bound, size, ops);
      }
    } else {
      var ops := FailingRun(bound);
    }
  }

  /** Half full, one more, twice as far, and one more again */
  lemma FailingRun(bound: nat) returns (ops: seq<Operation>)
    requires WORD / 2 < bound < WORD
    ensures Within(bound, WORD / 4, ops)
    ensures After(WORD / 4, ops) == Account(WORD / 2 + 1, WORD / 2 + 1, 3 * WORD / 4, WORD / 2 + 1)
  {
    var n := WORD / 4;
    ops := [];
    assert After(n, ops) == Account(0, n, 0, n);
    OneMore(bound, n, ops, Set(n - 1));
    ops := ops + [Set(n - 1)];
    assert After(n, ops) == Account(n, n, 0, n);
    OneMore(bound, n, ops, Push);
    ops := ops + [Push];
    assert After(n, ops) == Account(n + 1, 2 * n, n, n + 1);
    OneMore(bound, n, ops, Set(2 * n - 1));
    ops := ops + [Set(2 * n - 1)];
    assert After(n, ops) == Account(2 * n, 2 * n, n, 2 * n);
    OneMore(bound, n, ops, Push);
    ops := ops + [Push];
  }

  /** Beyond 2^31 every append to a full array copies all of it: n appends copy quadratically many elements. */
  lemma {:induction false} EveryPushCopies(a: Account, n: nat)
    requires a.used == a.capacity == a.peak && WORD / 2 <= a.used && a.used + n < WORD
    ensures Pushes(a, n).used == Pushes(a, n).capacity == Pushes(a, n).peak == a.used + n
    ensures 2 * Pushes(a, n).copied == 2 * a.copied + n * (2 * a.used + n - 1)
  {
    if n > 0 {
      EveryPushCopies(a, n - 1);
      PushCopies(Pushes(a, n - 1));
      OneTermMore(a.used, n);
      hide Account.Next;
    }
  }

  lemma PushCopies(a: Account)
    requires a.used == a.capacity == a.peak && WORD / 2 <= a.used && a.used + 1 < WORD
    ensures a.Next(Push) == Account(a.used + 1, a.used + 1, a.copied + a.used, a.used + 1)
  {
    assert 2 * a.capacity % WORD == 2 * a.capacity - WORD;
  }

  lemma OneTermMore(u: nat, n: nat)
    requires n > 0
    ensures n * (2 * u + n - 1) == (n - 1) * (2 * u + (n - 1) - 1) + 2 * (u + n - 1)
  {
  }

  ghost function Pushes(a: Account, n: nat): Account {
    if n == 0 then a else Pushes(a, n - 1).Next(Push)
  }

  class Array<T(0)> {
    var store: array<T>
    var used: nat
    var capacity: nat
    ghost var copied: nat  // elements copied by reallocation since the storage was last given up
    ghost var peak: nat    // the largest size requested since then

    ghost function State(): Account
      reads this
    {
      Account(used, capacity, copied, peak)
    }

    ghost predicate Valid()
      reads this
    {
      capacity == store.Length && State().Sound()
    }

    ghost function Contents(): seq<T>
      requires Valid()
      reads this, store
    {
      store[..used]
    }

    constructor ()
      ensures Valid() && fresh(store) && Contents() == [] && State() == Start(0)
    {
      store := new T[0];
      used, capacity, copied, peak := 0, 0, 0, 0;
    }

    /** An empty array with some storage to begin with */
    constructor Sized(size: nat)
      requires size < WORD
      ensures Valid() && fresh(store) && Contents() == [] && State() == Start(size)
    {
      store := new T[size];
      used, capacity, copied, peak := 0, size, 0, size;
    }

    method Ensure(newsize: nat)
      requires Valid() && newsize < WORD
      modifies this`store, this`capacity, this`copied, this`peak
      ensures Valid() && capacity >= newsize && Contents() == old(Contents())
      ensures State() == old(State()).Ensured(newsize)
      ensures if old(capacity) >= newsize then store == old(store) else fresh(store)
    {
      State().EnsuredSound(newsize);
      peak := if newsize > peak then newsize else peak;
      if newsize > capacity {
        capacity := Grown(capacity, newsize);
        var grown := new T[capacity];
        for i := 0 to used
          invariant grown[..i] == store[..i]
          modifies grown
        {
          grown[i] := store[i];
        }
        store := grown;
        copied := copied + used;
      }
    }

    /** The old storage is given up with everything in it. */
    method Erase()
      modifies this
      ensures Valid() && fresh(store) && Contents() == [] && State() == old(State()).Next(Operation.Erase)
    {
      store := new T[0];
      used, capacity, copied, peak := 0, 0, 0, 0;
    }

    method Push(x: T)
      requires Valid() && used + 1 < WORD
      modifies this, store
      ensures Valid() && Contents() == old(Contents()) + [x] && (store == old(store) || fresh(store))
      ensures State() == old(State()).Next(Operation.Push)
    {
      Ensure(used + 1);
      store[used] := x;
      used := used + 1;
    }

    method Pop() returns (x: T)
      requires Valid() && used > 0
      modifies this`used
      ensures Valid() && old(Contents()) == Contents() + [x] && State() == old(State()).Next(Operation.Drop)
    {
      used := used - 1;
      x := store[used];
    }

    /** The element goes, and the last one takes its place. */
    method Remove(i: nat)
      requires Valid() && i < used
      modifies this`used, store
      ensures Valid() && |Contents()| == |old(Contents())| - 1 && State() == old(State()).Next(Operation.Drop)
      ensures Contents() ==
        if i == |Contents()| then old(Contents())[..i] else old(Contents())[..used][i := old(Contents())[used]]
      ensures multiset(old(Contents())) == multiset(Contents()) + multiset{old(Contents())[i]}
    {
      LastInstead(Contents(), i);
      hide Valid, Contents;
      Drop(i);
    }

    method Drop(i: nat)
      requires Valid() && i < used
      modifies this`used, store
      ensures Valid() && |old(Contents())| > 0 && State() == old(State()).Next(Operation.Drop)
      ensures var before, n := old(Contents()), |old(Contents())| - 1;
              i <= n && Contents() == if i == n then before[..n] else before[..n][i := before[n]]
    {
      used := used - 1;
      if i != used {
        store[i] := store[used];
      }
    }

    static lemma LastInstead(s: seq<T>, i: nat)
      requires i < |s|
      ensures var n := |s| - 1;
              multiset(s) == multiset(if i == n then s[..n] else s[..n][i := s[n]]) + multiset{s[i]}
    {
      assert s == s[..|s|-1] + [s[|s|-1]];
    }

    /** Set an element, growing the array if need be; the elements in between are whatever they are. */
    method GrowAndSet(i: nat, x: T)
      requires Valid() && i + 1 < WORD
      modifies this, store
      ensures Valid() && (store == old(store) || fresh(store)) && i < |Contents()| && Contents()[i] == x
      ensures |Contents()| == if i < |old(Contents())| then |old(Contents())| else i + 1
      ensures forall k :: 0 <= k < |old(Contents())| && k != i ==> Contents()[k] == old(Contents())[k]
      ensures State() == old(State()).Next(Set(i))
    {
      ghost var before := Contents();
      if i >= used {
        Ensure(i + 1);
        used := i + 1;
      }
      assert Contents()[..|before|] == before;
      store[i] := x;
    }

    method Perform(op: Operation, x: T)
      requires Valid() && State().Allows(op, WORD - 1)
      modifies this, store
      ensures Valid() && (store == old(store) || fresh(store)) && State() == old(State()).Next(op)
    {
      match op
      case Push => Push(x);
      case Drop => var _ := Pop();
      case Set(i) => GrowAndSet(i, x);
      case Erase => Erase();
    }
  }

  /** Any run on a real array has the cost that the account says. */
  method Replay<T(0)>(size: nat, ops: seq<Operation>, x: T) returns (a: Array<T>)
    requires Within(WORD - 1, size, ops)
    ensures a.Valid() && a.State() == After(size, ops)
  {
    WithinPrefix(WORD - 1, size, ops, 0);
    a := new Array<T>.Sized(size);
    for i := 0 to |ops|
      invariant fresh(a) && fresh(a.store) && a.Valid() && a.State() == After(size, ops[..i])
    {
      WithinPrefix(WORD - 1, size, ops, i + 1);
      OneMore(WORD - 1, size, ops[..i], ops[i]);
      assert ops[..i + 1] == ops[..i] + [ops[i]];
      hide *;
      a.Perform(ops[i], x);
    }
    assert ops[..|ops|] == ops;
  }

  lemma {:induction false} WithinPrefix(bound: nat, size: nat, ops: seq<Operation>, i: nat)
    requires i <= |ops| && Within(bound, size, ops)
    ensures Within(bound, size, ops[..i])
    decreases |ops|
  {
    if i == |ops| {
      assert ops[..i] == ops;
    } else {
      WithinPrefix(bound, size, ops[..|ops| - 1], i);
      assert ops[..|ops| - 1][..i] == ops[..i];
    }
  }

  /** The wrap-around on a real array: five calls after which more elements have been copied than there is room
      for. */
  method WrapsAround<T(0)>(x: T) returns (a: Array<T>)
    ensures a.Valid() && a.peak == a.capacity == 0x8000_0001 && a.copied == 0xC000_0000
  {
    a := new Array<T>.Sized(0x4000_0000);
    a.GrowAndSet(0x3FFF_FFFF, x);
    assert a.State() == Account(0x4000_0000, 0x4000_0000, 0, 0x4000_0000);
    a.Push(x);
    assert a.State() == Account(0x4000_0001, 0x8000_0000, 0x4000_0000, 0x4000_0001);
    a.GrowAndSet(0x7FFF_FFFF, x);
    assert a.State() == Account(0x8000_0000, 0x8000_0000, 0x4000_0000, 0x8000_0000);
    a.Push(x);
  }
}
