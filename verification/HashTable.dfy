/** A table of buckets, each a list of entries with the newest in front, and iterators that survive erasing. */
module HashTable {
  import opened Sequences

  datatype Entry<Key, Value> = Entry(key: Key, value: Value)

  type Bucket<Key, Value> = seq<Entry<Key, Value>>

  /** A bucket and a place in it. */
  datatype Iterator = Iterator(index: nat, pos: nat)

  /** The values that a list of entries holds for a key, in order. */
  ghost function Values<Key, Value>(es: seq<Entry<Key, Value>>, k: Key): seq<Value> {
    if es == [] then [] else Values(es[..|es|-1], k) + if es[|es|-1].key == k then [es[|es|-1].value] else []
  }

  lemma {:induction false} ValuesBoth<Key, Value>(es: seq<Entry<Key, Value>>, fs: seq<Entry<Key, Value>>, k: Key)
    ensures Values(es + fs, k) == Values(es, k) + Values(fs, k)
  {
    if fs == [] {
      assert es + fs == es;
    } else {
      var n := |fs| - 1;
      ValuesBoth(es, fs[..n], k);
      assert (es + fs)[..|es| + n] == es + fs[..n];
    }
  }

  lemma ValuesOne<Key, Value>(e: Entry<Key, Value>, k: Key)
    ensures Values([e], k) == if e.key == k then [e.value] else []
  {
    assert [e][..0] == [];
  }

  lemma {:induction false} ValuesNone<Key, Value>(es: seq<Entry<Key, Value>>, k: Key)
    ensures Values(es, k) == [] <==> forall i :: 0 <= i < |es| ==> es[i].key != k
  {
    if es != [] {
      ValuesNone(es[..|es|-1], k);
    }
  }

  /** The first entry with the key holds the first of its values. */
  lemma ValuesFirst<Key, Value>(es: seq<Entry<Key, Value>>, k: Key, i: nat)
    requires i < |es| && es[i].key == k && forall j :: 0 <= j < i ==> es[j].key != k
    ensures Values(es, k) == [es[i].value] + Values(es[i+1..], k)
  {
    ValuesNone(es[..i], k);
    ValuesAround(es, i, k);
    hide Values;
  }

  lemma ValuesAround<Key, Value>(es: seq<Entry<Key, Value>>, i: nat, k: Key)
    requires i < |es|
    ensures Values(es, k) ==
      Values(es[..i], k) + ((if es[i].key == k then [es[i].value] else []) + Values(es[i+1..], k))
  {
    Around(es, i);
    hide *;
    ValuesThree(es[..i], es[i], es[i+1..], k);
  }

  lemma Around<T>(s: seq<T>, i: nat)
    requires i < |s|
    ensures s == s[..i] + ([s[i]] + s[i+1..])
  {
  }

  lemma ValuesThree<Key, Value>(before: seq<Entry<Key, Value>>, e: Entry<Key, Value>, after: seq<Entry<Key, Value>>,
                                k: Key)
    ensures Values(before + ([e] + after), k) ==
      Values(before, k) + ((if e.key == k then [e.value] else []) + Values(after, k))
  {
    hide Values;
    ValuesOne(e, k);
    ValuesBoth(before, [e] + after, k);
    ValuesBoth([e], after, k);
  }

  /** The map that the entries stand for: where a key occurs twice, the entry nearer to the front counts. */
  ghost function ToMap<Key, Value>(es: seq<Entry<Key, Value>>): map<Key, Value> {
    if es == [] then map[] else ToMap(es[1..])[es[0].key := es[0].value]
  }

  lemma {:induction false} ToMapValues<Key, Value>(es: seq<Entry<Key, Value>>, k: Key)
    ensures if Values(es, k) == [] then k !in ToMap(es) else k in ToMap(es) && ToMap(es)[k] == Values(es, k)[0]
  {
    if es != [] {
      ToMapValues(es[1..], k);
      assert es == [es[0]] + es[1..];
      ValuesBoth([es[0]], es[1..], k);
      ValuesOne(es[0], k);
    }
  }

  lemma {:induction false} ToMapSize<Key(!new), Value>(es: seq<Entry<Key, Value>>)
    requires forall k: Key :: |Values(es, k)| <= 1
    ensures |ToMap(es)| == |es|
  {
    if es != [] {
      assert es == [es[0]] + es[1..];
      forall k: Key ensures Values(es, k) == (if es[0].key == k then [es[0].value] else []) + Values(es[1..], k) {
        ValuesBoth([es[0]], es[1..], k);
        ValuesOne(es[0], k);
      }
      ToMapSize(es[1..]);
      ToMapValues(es[1..], es[0].key);
      assert Values(es, es[0].key) == [es[0].value] + Values(es[1..], es[0].key);
      assert ToMap(es).Keys == ToMap(es[1..]).Keys + {es[0].key};
    }
  }

  // ---------- what a client sees ----------

  /** What a client may do; an iterator is given by how far it is from begin. */
  datatype Operation<Key, Value> =
    | Insert(key: Key, value: Value)
    | InsertDuplicate(key: Key, value: Value)
    | Lookup(key: Key)
    | Delete(key: Key)
    | DeleteAt(offset: nat)
    | Count
    | Clear

  /** What the operation itself gives back: whether insert has inserted, what the iterator of find stands at, how many
      entries an erase has erased and which one the iterator stood at, and the size. */
  datatype Answer<Key, Value> =
    | Inserted(success: bool)
    | Found(entries: seq<Entry<Key, Value>>)
    | Erased(count: nat)
    | ErasedAt(count: nat, entries: seq<Entry<Key, Value>>)
    | Counted(total: nat)
    | Cleared

  /** The values of a key, the newest first */
  ghost function StackIn<Key, Value>(m: map<Key, seq<Value>>, k: Key): seq<Value> {
    if k in m then m[k] else []
  }

  ghost function Put<Key, Value>(m: map<Key, seq<Value>>, k: Key, s: seq<Value>): map<Key, seq<Value>> {
    if s == [] then m - {k} else m[k := s]
  }

  ghost predicate Proper<Key, Value>(m: map<Key, seq<Value>>) {
    forall k :: k in m ==> m[k] != []
  }

  lemma PutSame<Key, Value>(m: map<Key, seq<Value>>, k: Key)
    requires Proper(m) && k in m
    ensures Put(m, k, m[k]) == m && StackIn(m, k) == m[k] != []
  {
  }

  lemma SameStacks<Key(!new), Value>(m: map<Key, seq<Value>>, p: map<Key, seq<Value>>)
    requires Proper(m) && Proper(p) && forall k: Key :: StackIn(m, k) == StackIn(p, k)
    ensures m == p
  {
    forall k: Key ensures (k in m <==> k in p) && (k in m ==> m[k] == p[k]) {
      assert StackIn(m, k) == StackIn(p, k);
    }
  }

  ghost function Pick<Key, Value>(m: map<Key, seq<Value>>): (k: Key)
    requires m != map[]
    ensures k in m
  {
    var k :| k in m; k
  }

  /** How many values there are */
  ghost function Total<Key, Value>(m: map<Key, seq<Value>>): nat
    decreases |m|
  {
    if m == map[] then 0
    else
      var k := Pick(m);
      assert (m - {k}).Keys == m.Keys - {k};
      |m[k]| + Total(m - {k})
  }

  lemma {:induction false} TotalWithout<Key, Value>(m: map<Key, seq<Value>>, k: Key)
    requires k in m
    ensures Total(m) == |m[k]| + Total(m - {k})
    decreases |m|
  {
    var j := Pick(m);
    if j != k {
      assert (m - {j}).Keys == m.Keys - {j} && (m - {k}).Keys == m.Keys - {k};
      TotalWithout(m - {j}, k);
      TotalWithout(m - {k}, j);
      assert m - {j} - {k} == m - {k} - {j};
    }
  }

  lemma TotalPut<Key, Value>(m: map<Key, seq<Value>>, k: Key, s: seq<Value>)
    ensures Total(Put(m, k, s)) == Total(m) - |StackIn(m, k)| + |s|
  {
    hide Total;
    if k in m { TotalWithout(m, k); } else { assert m - {k} == m; }
    if s != [] {
      TotalWithout(m[k := s], k);
      assert m[k := s] - {k} == m - {k};
    }
  }

  /** The entries are as many as the values. */
  lemma {:induction false} EntriesTotal<Key(!new), Value>(es: seq<Entry<Key, Value>>, m: map<Key, seq<Value>>)
    requires Proper(m) && forall k: Key :: Values(es, k) == StackIn(m, k)
    ensures |es| == Total(m)
  {
    if es == [] {
      forall k: Key ensures k !in m { assert StackIn(m, k) == Values(es, k) == []; }
      assert m == map[];
    } else {
      var e, rest := es[|es|-1], es[..|es|-1];
      var s := Values(rest, e.key);
      assert Values(es, e.key) == s + [e.value] && m[e.key][..|s|] == s;
      forall k: Key ensures Values(rest, k) == StackIn(Put(m, e.key, s), k) { assert Values(es, k) == StackIn(m, k); }
      EntriesTotal(rest, Put(m, e.key, s));
      TotalPut(m, e.key, s);
    }
  }

  /** A map from keys to stacks may answer so and become this. Only the order in which an iterator meets the entries
      is left open. */
  ghost predicate Step<Key, Value>(m: map<Key, seq<Value>>, op: Operation<Key, Value>, answer: Answer<Key, Value>,
                                   m': map<Key, seq<Value>>) {
    match op
    case Insert(k, v) => answer == Inserted(k !in m) && m' == if k in m then m else Put(m, k, [v])
    case InsertDuplicate(k, v) => answer == Inserted(true) && m' == Put(m, k, [v] + StackIn(m, k))
    case Lookup(k) => answer == Found(Newest(m, k)) && m' == m
    case Delete(k) => answer == Erased(|Newest(m, k)|) && m' == Put(m, k, StackIn(m, k)[|Newest(m, k)|..])
    case DeleteAt(n) =>
      if n < Total(m) then exists k, i :: k in m && TakenAt(m, k, i, answer, m')
      else answer == ErasedAt(0, []) && m' == m
    case Count => answer == Counted(Total(m)) && m' == m
    case Clear => answer == Cleared && m' == map[]
  }

  ghost function Newest<Key, Value>(m: map<Key, seq<Value>>, k: Key): (found: seq<Entry<Key, Value>>)
    ensures |found| <= |StackIn(m, k)|
  {
    if StackIn(m, k) == [] then [] else [Entry(k, StackIn(m, k)[0])]
  }

  /** The value at this depth of the key's stack is gone. */
  ghost predicate TakenAt<Key, Value>(m: map<Key, seq<Value>>, k: Key, i: int, answer: Answer<Key, Value>,
                                      m': map<Key, seq<Value>>) {
    && 0 <= i < |StackIn(m, k)| && answer == ErasedAt(1, [Entry(k, StackIn(m, k)[i])])
    && m' == Put(m, k, Without(StackIn(m, k), i))
  }

  lemma Taken<Key, Value>(m: map<Key, seq<Value>>, n: nat, e: Entry<Key, Value>, depth: nat,
                          m': map<Key, seq<Value>>)
    requires n < Total(m) && depth < |StackIn(m, e.key)| && StackIn(m, e.key)[depth] == e.value
    requires m' == Put(m, e.key, Without(StackIn(m, e.key), depth))
    ensures Step(m, DeleteAt(n), ErasedAt(1, [e]), m')
  {
    hide Total, Put, Without;
    assert e == Entry(e.key, e.value);
    assert e.key in m && TakenAt(m, e.key, depth, ErasedAt(1, [e]), m');
  }

  lemma NothingTaken<Key, Value>(m: map<Key, seq<Value>>, n: nat)
    requires n >= Total(m)
    ensures Step(m, DeleteAt(n), ErasedAt(0, []), m)
  {
    hide Total;
  }

  /** A run takes a map of stacks through these states. */
  ghost predicate Ran<Key, Value>(states: seq<map<Key, seq<Value>>>, ops: seq<Operation<Key, Value>>,
                                  answers: seq<Answer<Key, Value>>) {
    && |answers| == |ops| && |states| == |ops| + 1
    && forall i :: 0 <= i < |ops| ==> Step(states[i], ops[i], answers[i], states[i+1])
  }

  lemma RanLengths<Key, Value>(states: seq<map<Key, seq<Value>>>, ops: seq<Operation<Key, Value>>,
                               answers: seq<Answer<Key, Value>>)
    requires Ran(states, ops, answers)
    ensures |answers| == |ops| && |states| == |ops| + 1
  {
  }

  // ---------- runs without duplicates ----------

  /** A finite map may give this answer; it has no duplicates. */
  ghost predicate Legal<Key, Value>(m: map<Key, Value>, op: Operation<Key, Value>, answer: Answer<Key, Value>) {
    match op
    case Insert(k, v) => answer == Inserted(k !in m)
    case InsertDuplicate(_, _) => false
    case Lookup(k) => answer == Found(if k in m then [Entry(k, m[k])] else [])
    case Delete(k) => answer == Erased(if k in m then 1 else 0)
    case DeleteAt(n) =>
      if n < |m| then exists k :: k in m && answer == ErasedAt(1, [Entry(k, m[k])]) else answer == ErasedAt(0, [])
    case Count => answer == Counted(|m|)
    case Clear => answer == Cleared
  }

  /** What becomes of the map; which key an iterator stood at is in the answer. */
  ghost function Effect<Key, Value>(m: map<Key, Value>, op: Operation<Key, Value>, answer: Answer<Key, Value>): map<Key,
                                    Value> {
    match op
    case Insert(k, v) => if k in m then m else m[k := v]
    case InsertDuplicate(k, v) => m[k := v]
    case Lookup(k) => m
    case Delete(k) => m - {k}
    case DeleteAt(n) => if answer.ErasedAt? then m - (set e | e in answer.entries :: e.key) else m
    case Count => m
    case Clear => map[]
  }

  ghost function Effects<Key, Value>(m: map<Key, Value>, ops: seq<Operation<Key, Value>>,
                                     answers: seq<Answer<Key, Value>>): map<Key, Value>
    requires |ops| == |answers|
  {
    var n := |ops| - 1;
    if ops == [] then m else Effect(Effects(m, ops[..n], answers[..n]), ops[n], answers[n])
  }

  /** Every stack holds the one value that the map has. */
  ghost predicate Singles<Key, Value>(m: map<Key, seq<Value>>, p: map<Key, Value>) {
    m.Keys == p.Keys && forall k :: k in m ==> m[k] == [p[k]]
  }

  lemma {:induction false} TotalSingles<Key, Value>(m: map<Key, seq<Value>>, p: map<Key, Value>)
    requires Singles(m, p)
    ensures Total(m) == |p|
    decreases |m|
  {
    if m == map[] {
      assert p == map[];
    } else {
      var k := Pick(m);
      assert (m - {k}).Keys == m.Keys - {k} && p.Keys == (p - {k}).Keys + {k};
      TotalSingles(m - {k}, p - {k});
    }
  }

  /** So a step is one of the map. */
  lemma StepOfMap<Key, Value>(m: map<Key, seq<Value>>, p: map<Key, Value>, op: Operation<Key, Value>,
                              answer: Answer<Key, Value>, m': map<Key, seq<Value>>)
    requires Singles(m, p) && Step(m, op, answer, m') && !op.InsertDuplicate?
    ensures Legal(p, op, answer) && Singles(m', Effect(p, op, answer))
  {
    TotalSingles(m, p);
    hide Total;
    match op
    case DeleteAt(n) =>
      if n < |p| {
        var k, i :| k in m && TakenAt(m, k, i, answer, m');
        OneTaken(m, p, n, k, i, answer, m');
      }
    case _ => hide TakenAt;
  }

  lemma OneTaken<Key, Value>(m: map<Key, seq<Value>>, p: map<Key, Value>, n: nat, k: Key, i: int,
                             answer: Answer<Key, Value>, m': map<Key, seq<Value>>)
    requires Singles(m, p) && n < |p| && k in m && TakenAt(m, k, i, answer, m')
    ensures Legal(p, DeleteAt(n), answer) && Singles(m', Effect(p, DeleteAt(n), answer))
  {
    assert m[k] == [p[k]] && Without(m[k], 0) == [];
    assert (set e | e in [Entry(k, p[k])] :: e.key) == {k};
  }

  lemma {:induction false} RunOfMap<Key, Value>(states: seq<map<Key, seq<Value>>>, ops: seq<Operation<Key, Value>>,
                                                answers: seq<Answer<Key, Value>>, p: map<Key, Value>, n: nat)
    requires Ran(states, ops, answers) && Singles(states[0], p) && n <= |ops|
    requires forall i :: 0 <= i < |ops| ==> !ops[i].InsertDuplicate?
    ensures Singles(states[n], Effects(p, ops[..n], answers[..n]))
    ensures n < |ops| ==> Legal(Effects(p, ops[..n], answers[..n]), ops[n], answers[n])
  {
    hide Step, Legal, Effect, Singles;
    if n > 0 {
      RunOfMap(states, ops, answers, p, n - 1);
      StepOfMap(states[n-1], Effects(p, ops[..n-1], answers[..n-1]), ops[n-1], answers[n-1], states[n]);
      EffectsNext(p, ops, answers, n - 1);
    }
    if n < |ops| {
      StepOfMap(states[n], Effects(p, ops[..n], answers[..n]), ops[n], answers[n], states[n+1]);
    }
  }

  lemma EffectsNext<Key, Value>(p: map<Key, Value>, ops: seq<Operation<Key, Value>>, answers: seq<Answer<Key, Value>>,
                                n: nat)
    requires |answers| == |ops| && n < |ops|
    ensures Effects(p, ops[..n+1], answers[..n+1]) == Effect(Effects(p, ops[..n], answers[..n]), ops[n], answers[n])
  {
    hide Effect;
    assert ops[..n+1][..n] == ops[..n] && answers[..n+1][..n] == answers[..n];
  }

  class Table<Key(==,!new), Value> {
    const hash: Key -> nat
    const table: array<Bucket<Key, Value>>

    constructor (hash: Key -> nat, size: nat)
      requires size > 0
      ensures Valid() && fresh(table) && Entries() == [] && this.hash == hash && table.Length == size
    {
      this.hash := hash;
      table := new Bucket<Key, Value>[size](i => []);
      new;
      FlattenEmpty(table[..]);
    }

    function Home(k: Key): nat
      requires table.Length > 0
    {
      hash(k) % table.Length
    }

    ghost predicate Valid()
      reads table
    {
      && table.Length > 0
      && forall i, j :: 0 <= i < table.Length && 0 <= j < |table[i]| ==> Home(table[i][j].key) == i
    }

    /** All entries, bucket after bucket. */
    ghost function Entries(): seq<Entry<Key, Value>>
      reads table
    {
      Flatten(table[..])
    }

    /** The values stored for a key, the newest first. */
    ghost function Stack(k: Key): seq<Value>
      reads table
      requires Valid()
    {
      Values(table[Home(k)], k)
    }

    /** The iterator stands at an entry or at the end. */
    ghost predicate Standing(it: Iterator)
      reads table
    {
      && it.index < table.Length && it.pos <= |table[it.index]|
      && (it.pos == |table[it.index]| ==> it.index == table.Length - 1)
    }

    /** How many entries come before the iterator. */
    ghost function Offset(it: Iterator): nat
      requires it.index < table.Length
      reads table
    {
      |Flatten(table[..it.index])| + it.pos
    }

    lemma OffsetEntry(it: Iterator)
      requires Standing(it)
      ensures Offset(it) <= |Entries()|
      ensures it.pos < |table[it.index]| ==>
        Offset(it) < |Entries()| && Entries()[Offset(it)] == table[it.index][it.pos]
      ensures it.pos == |table[it.index]| ==> Offset(it) == |Entries()|
    {
      FlattenAround(table[..], it.index);
      assert table[..][..it.index] == table[..it.index] && table[..][it.index+1..] == table[it.index+1..];
      assert it.index == table.Length - 1 ==> table[it.index+1..] == [];
    }

    function End(): (it: Iterator)
      requires table.Length > 0
      reads table
    {
      Iterator(table.Length - 1, |table[table.Length - 1]|)
    }

    /** An iterator at the end compares equal to the one that end() gives. */
    lemma AtEnd(it: Iterator)
      requires Valid() && Standing(it)
      ensures it == End() <==> Offset(it) == |Entries()|
    {
      OffsetEntry(it);
    }

    method Begin() returns (it: Iterator)
      requires Valid()
      ensures Standing(it) && Offset(it) == 0
    {
      for i := 0 to table.Length
        invariant forall j :: 0 <= j < i ==> table[j] == []
      {
        if table[i] != [] {
          FlattenEmpty(table[..i]);
          return Iterator(i, 0);
        }
      }
      it := End();
      FlattenEmpty(table[..it.index]);
    }

    /** Hash_table_iterator::operator++ */
    method Next(it: Iterator) returns (next: Iterator)
      requires Valid() && Standing(it)
      ensures Standing(next)
      ensures Offset(next) == if Offset(it) < |Entries()| then Offset(it) + 1 else Offset(it)
    {
      OffsetEntry(it);
      var pos := if it.pos < |table[it.index]| then it.pos + 1 else it.pos;
      if pos == |table[it.index]| {
        next := Skip(it.index);
      } else {
        next := Iterator(it.index, pos);
      }
    }

    /** From the end of a bucket to the next entry. */
    method Skip(index: nat) returns (next: Iterator)
      requires Valid() && index < table.Length
      ensures Standing(next) && Offset(next) == |Flatten(table[..index])| + |table[index]|
    {
      FlattenAround(table[..], index);
      assert table[..][..index] == table[..index] && table[..][..index+1] == table[..index+1];
      for i := index + 1 to table.Length
        invariant Flatten(table[..i]) == Flatten(table[..index+1])
      {
        if table[i] != [] {
          return Iterator(i, 0);
        }
        FlattenAround(table[..], i);
        assert table[..][..i] == table[..i] && table[..][..i+1] == table[..i+1];
      }
      next := End();
      FlattenAround(table[..], next.index);
      assert table[..][..next.index] == table[..next.index] && table[..][..table.Length] == table[..];
    }

    method Get(it: Iterator) returns (e: Entry<Key, Value>)
      requires Standing(it) && Offset(it) < |Entries()|
      ensures e == Entries()[Offset(it)]
    {
      OffsetEntry(it);
      e := table[it.index][it.pos];
    }

    // ---------- what the operations do to the stacks ----------

    /** Every key but k has the values that it had. */
    twostate predicate OthersKept(k: Key)
      reads table
    {
      old(Valid()) && Valid() && forall j: Key :: j != k ==> Stack(j) == old(Stack(j))
    }

    method Size() returns (total: nat)
      requires Valid()
      ensures total == |Entries()|
    {
      total := 0;
      for i := 0 to table.Length
        invariant total == |Flatten(table[..i])|
      {
        assert table[..i+1][..i] == table[..i];
        total := total + |table[i]|;
      }
      assert table[..table.Length] == table[..];
    }

    /** Look for a key in a bucket. */
    method Search(index: nat, k: Key) returns (pos: nat)
      requires index < table.Length
      ensures pos <= |table[index]| && forall j :: 0 <= j < pos ==> table[index][j].key != k
      ensures pos < |table[index]| ==> table[index][pos].key == k
    {
      pos := 0;
      while pos < |table[index]| && table[index][pos].key != k
        invariant pos <= |table[index]| && forall j :: 0 <= j < pos ==> table[index][j].key != k
      {
        pos := pos + 1;
      }
    }

    /** The iterator stands at the newest entry of the key, or at the end if there is none. */
    method Find(k: Key) returns (it: Iterator)
      requires Valid()
      ensures Standing(it) && (Stack(k) == [] <==> it == End())
      ensures it != End() ==> Offset(it) < |Entries()| && Entries()[Offset(it)] == Entry(k, Stack(k)[0])
      ensures it != End() ==>
        && it.index == Home(k) && it.pos < |table[it.index]| && table[it.index][it.pos].key == k
        && forall j :: 0 <= j < it.pos ==> table[it.index][j].key != k
    {
      var index := Home(k);
      var pos := Search(index, k);
      ValuesNone(table[index], k);
      if pos < |table[index]| {
        it := Iterator(index, pos);
        ValuesFirst(table[index], k, pos);
        OffsetEntry(it);
      } else {
        it := End();
      }
    }

    /** Put an entry in front of a bucket. */
    method PushFront(index: nat, e: Entry<Key, Value>)
      requires Valid() && index == Home(e.key)
      modifies table
      ensures Valid() && table[index] == [e] + old(table[index])
      ensures forall i :: 0 <= i < table.Length && i != index ==> table[i] == old(table[i])
      ensures Stack(e.key) == [e.value] + old(Stack(e.key)) && OthersKept(e.key)
      ensures |Entries()| == |old(Entries())| + 1
    {
      table[index] := [e] + table[index];
      forall k: Key
        ensures Values(table[index], k) == (if k == e.key then [e.value] else []) + Values(old(table[index]), k)
      {
        ValuesBoth([e], old(table[index]), k);
        ValuesOne(e, k);
      }
      SizeAfter(old(table[..]), index);
    }

    lemma SizeAfter(before: seq<Bucket<Key, Value>>, index: nat)
      requires |before| == table.Length && index < table.Length && table[..] == before[index := table[index]]
      ensures |Entries()| == |Flatten(before)| + |table[index]| - |before[index]|
    {
      FlattenAround(before, index);
      FlattenReplaced(before, index, table[index]);
    }

    method InsertDuplicate(k: Key, v: Value) returns (it: Iterator)
      requires Valid()
      modifies table
      ensures Valid() && Stack(k) == [v] + old(Stack(k)) && OthersKept(k)
      ensures |Entries()| == |old(Entries())| + 1
      ensures Standing(it) && Offset(it) < |Entries()| && Entries()[Offset(it)] == Entry(k, v)
    {
      var index := Home(k);
      PushFront(index, Entry(k, v));
      it := Iterator(index, 0);
      OffsetEntry(it);
    }

    method Insert(k: Key, v: Value) returns (it: Iterator, inserted: bool)
      requires Valid()
      modifies table
      ensures Valid() && (inserted <==> old(Stack(k)) == [])
      ensures Stack(k) == (if inserted then [v] else old(Stack(k))) && OthersKept(k)
      ensures !inserted ==> table[..] == old(table[..])
      ensures |Entries()| == |old(Entries())| + if inserted then 1 else 0
      ensures Standing(it) && Offset(it) < |Entries()| && Entries()[Offset(it)] == Entry(k, Stack(k)[0])
    {
      it := Find(k);
      inserted := it == End();
      if inserted {
        it := InsertDuplicate(k, v);
      }
    }

    /** How many newer values its key has than the entry at the iterator. */
    ghost function Newer(it: Iterator): nat
      requires it.index < table.Length && it.pos < |table[it.index]|
      reads table
    {
      |Values(table[it.index][..it.pos], table[it.index][it.pos].key)|
    }

    /** Take one entry out of its bucket. */
    method TakeOut(it: Iterator)
      requires Valid() && it.index < table.Length && it.pos < |table[it.index]|
      modifies table
      ensures Valid()
      ensures table[..] == old(table[..][it.index := table[it.index][..it.pos] + table[it.index][it.pos+1..]])
      ensures var k := old(table[it.index][it.pos].key);
              OthersKept(k) && old(Newer(it)) < |old(Stack(k))| && Stack(k) == Without(old(Stack(k)), old(Newer(it)))
    {
      var bucket := table[it.index];
      EntryErased(bucket, it.pos);
      hide Values;
      table[it.index] := bucket[..it.pos] + bucket[it.pos+1..];
    }

    /** Hash_table_iterator::erase: the entry is gone and the iterator stands at what came after it. */
    method EraseEntry(it: Iterator) returns (next: Iterator)
      requires Valid() && Standing(it) && it.pos < |table[it.index]|
      modifies table
      ensures Valid() && Standing(next) && Offset(next) == Offset(it) == old(Offset(it)) < |old(Entries())|
      ensures Entries() == old(Entries()[..Offset(it)] + Entries()[Offset(it)+1..])
      ensures table[it.index] == old(table[it.index][..it.pos] + table[it.index][it.pos+1..])
      ensures forall i :: 0 <= i < table.Length && i != it.index ==> table[i] == old(table[i])
      ensures var k := old(table[it.index][it.pos].key);
              OthersKept(k) && old(Newer(it)) < |old(Stack(k))| && Stack(k) == Without(old(Stack(k)), old(Newer(it)))
    {
      OffsetEntry(it);
      ghost var before := table[..];
      hide Values, Entries, OthersKept, Newer;
      TakeOut(it);
      EntriesWithout(before, it);
      hide Flatten;
      if it.pos == |table[it.index]| {
        next := Skip(it.index);
      } else {
        next := it;
      }
    }

    lemma EntriesWithout(before: seq<Bucket<Key, Value>>, it: Iterator)
      requires |before| == table.Length && it.index < |before| && it.pos < |before[it.index]|
      requires table[..] == before[it.index := before[it.index][..it.pos] + before[it.index][it.pos+1..]]
      ensures Flatten(table[..it.index]) == Flatten(before[..it.index])
      ensures var n := |Flatten(before[..it.index])| + it.pos;
              n < |Flatten(before)| && Entries() == Flatten(before)[..n] + Flatten(before)[n+1..]
    {
      var i, p := it.index, it.pos;
      var bucket := before[i][..p] + before[i][p+1..];
      assert Entries() == Flatten(table[..]) && table[..i] == table[..][..i];
      hide *;
      Unchanged(before, i, bucket);
      FlattenedWithout(before, i, p, bucket);
    }

    static lemma FlattenedWithout(before: seq<Bucket<Key, Value>>, i: nat, p: nat, bucket: Bucket<Key, Value>)
      requires i < |before| && p < |before[i]| && bucket == before[i][..p] + before[i][p+1..]
      ensures var n := |Flatten(before[..i])| + p;
              && n < |Flatten(before)|
              && Flatten(before[i := bucket]) == Flatten(before)[..n] + Flatten(before)[n+1..]
    {
      hide *;
      FlattenAround(before, i);
      FlattenReplaced(before, i, bucket);
      RemoveMiddle(Flatten(before[..i]), before[i], Flatten(before[i+1..]), p);
    }

    /** With no second value for its key, the key is gone. */
    method EraseFromMap(it: Iterator, ghost m: map<Key, Value>, ghost k: Key) returns (next: Iterator)
      requires Valid() && Standing(it) && it.pos < |table[it.index]| && k == table[it.index][it.pos].key
      modifies table
      ensures Valid() && Standing(next) && Offset(next) == Offset(it) == old(Offset(it)) < |old(Entries())|
      ensures Entries() == old(Entries()[..Offset(it)] + Entries()[Offset(it)+1..])
      ensures OthersKept(k) && old(Newer(it)) < |old(Stack(k))| && Stack(k) == Without(old(Stack(k)), old(Newer(it)))
      ensures old(Models(m)) ==> Models(m - {k})
    {
      hide Entries, Values, Offset, Standing, Flatten, Newer, Home;
      next := EraseEntry(it);
    }

    /** Hash_table::erase(iterator) */
    method EraseAt(it: Iterator) returns (erased: nat, next: Iterator)
      requires Valid() && Standing(it)
      modifies table
      ensures Valid() && Standing(next) && Offset(next) == Offset(it) == old(Offset(it))
      ensures erased == if old(Offset(it) < |Entries()|) then 1 else 0
      ensures if erased == 0 then table[..] == old(table[..])
              else Entries() == old(Entries()[..Offset(it)] + Entries()[Offset(it)+1..])
      ensures erased == 1 ==>
        var k := old(Entries()[Offset(it)]).key;
        && old(it.pos < |table[it.index]|) && OthersKept(k)
        && old(Newer(it)) < |old(Stack(k))| && Stack(k) == Without(old(Stack(k)), old(Newer(it)))
      ensures old(Unique()) && erased == 1 ==>
        Unique() && Contents() == old(Contents()) - {old(Entries()[Offset(it)]).key}
    {
      AtEnd(it);
      OffsetEntry(it);
      hide Contents, Entries, Values, Unique, Models, Offset, Standing, Flatten, Newer, Home, OthersKept;
      if it != End() {
        ghost var m, k := Contents(), table[it.index][it.pos].key;
        ModelsContents(m);
        next := EraseFromMap(it, m, k);
        erased := 1;
        ModelsContents(m - {k});
      } else {
        next, erased := it, 0;
      }
    }

    /** Hash_table::erase(key) takes the newest value only. */
    method Erase(k: Key) returns (erased: nat)
      requires Valid()
      modifies table
      ensures Valid() && OthersKept(k)
      ensures erased == if old(Stack(k)) != [] then 1 else 0
      ensures Stack(k) == if erased == 1 then old(Stack(k))[1..] else []
      ensures |Entries()| == |old(Entries())| - erased
    {
      var it := Find(k);
      if it != End() {
        ValuesNone(table[it.index][..it.pos], k);
        assert Newer(it) == 0;
        hide Entries, Offset, Values, Standing;
        var _ := EraseEntry(it);
        erased := 1;
      } else {
        erased := 0;
      }
    }

    /** Its key loses that value, and no other key loses any. */
    lemma EntryErased(bucket: Bucket<Key, Value>, pos: nat)
      requires pos < |bucket|
      ensures var k, rest := bucket[pos].key, bucket[..pos] + bucket[pos+1..];
              && |Values(bucket[..pos], k)| < |Values(bucket, k)|
              && Values(rest, k) == Without(Values(bucket, k), |Values(bucket[..pos], k)|)
              && forall j: Key :: j != k ==> Values(rest, j) == Values(bucket, j)
    {
      var k := bucket[pos].key;
      hide Values;
      ValuesBoth(bucket[..pos], bucket[pos+1..], k);
      ValuesAround(bucket, pos, k);
      forall j: Key | j != k ensures Values(bucket[..pos] + bucket[pos+1..], j) == Values(bucket, j) {
        OthersErased(bucket, pos, j);
      }
    }

    lemma OthersErased(bucket: Bucket<Key, Value>, pos: nat, j: Key)
      requires pos < |bucket| && bucket[pos].key != j
      ensures Values(bucket[..pos] + bucket[pos+1..], j) == Values(bucket, j)
    {
      hide Values;
      ValuesBoth(bucket[..pos], bucket[pos+1..], j);
      ValuesAround(bucket, pos, j);
    }

    // ---------- the map ----------

    /** Every key of an entry is in its home bucket, so that its stack holds all of its values. */
    lemma StackOfEntries(k: Key)
      requires Valid()
      ensures Values(Entries(), k) == Stack(k)
    {
      var h := Home(k);
      FlattenAround(table[..], h);
      var before, after := table[..][..h], table[..][h+1..];
      forall i | 0 <= i < table.Length && i != h ensures Values(table[i], k) == [] {
        ValuesNone(table[i], k);
      }
      NowhereElse(before, k);
      NowhereElse(after, k);
      assert table[..][h] == table[h];
      hide Flatten, Values, Valid;
      ValuesBoth(Flatten(before) + table[h], Flatten(after), k);
      ValuesBoth(Flatten(before), table[h], k);
    }

    lemma {:induction false} NowhereElse(buckets: seq<Bucket<Key, Value>>, k: Key)
      requires forall i :: 0 <= i < |buckets| ==> Values(buckets[i], k) == []
      ensures Values(Flatten(buckets), k) == []
    {
      if buckets != [] {
        var n := |buckets| - 1;
        NowhereElse(buckets[..n], k);
        ValuesBoth(Flatten(buckets[..n]), buckets[n], k);
      }
    }

    /** No key has two entries: so it is as long as only insert puts entries in. */
    ghost predicate Unique()
      reads table
    {
      Valid() && forall k: Key :: |Stack(k)| <= 1
    }

    ghost function Contents(): map<Key, Value>
      reads table
    {
      ToMap(Entries())
    }

    lemma MapAnswers(k: Key)
      requires Unique()
      ensures Stack(k) == if k in Contents() then [Contents()[k]] else []
    {
      StackOfEntries(k);
      ToMapValues(Entries(), k);
    }

    /** The size is the number of keys. */
    lemma SizeOfMap()
      requires Unique()
      ensures |Entries()| == |Contents()|
    {
      forall k: Key ensures |Values(Entries(), k)| <= 1 {
        StackOfEntries(k);
      }
      ToMapSize(Entries());
    }

    /** The table holds exactly what the map does. */
    ghost predicate Models(m: map<Key, Value>)
      reads table
    {
      Valid() && forall k: Key :: Stack(k) == if k in m then [m[k]] else []
    }

    lemma ModelsContents(m: map<Key, Value>)
      ensures Models(m) <==> Unique() && Contents() == m
    {
      hide Contents, Values, Flatten;
      if Models(m) {
        forall k: Key ensures (k in m <==> k in Contents()) && (k in m ==> m[k] == Contents()[k]) {
          MapAnswers(k);
        }
        assert Contents() == m;
      } else if Unique() && Contents() == m {
        forall k: Key ensures Stack(k) == if k in m then [m[k]] else [] {
          MapAnswers(k);
        }
      }
    }

    /** Hash_table::erase() */
    method EraseAll()
      requires table.Length > 0
      modifies table
      ensures Valid() && Entries() == [] && forall k :: Stack(k) == []
    {
      for i := 0 to table.Length
        invariant forall j :: 0 <= j < i ==> table[j] == []
      {
        table[i] := [];
      }
      FlattenEmpty(table[..]);
    }

    /** Step from begin, but not beyond the end. */
    method At(offset: nat) returns (it: Iterator)
      requires Valid()
      ensures Standing(it) && Offset(it) == if offset < |Entries()| then offset else |Entries()|
    {
      it := Begin();
      hide Entries, Offset, Standing, Valid;
      for i := 0 to offset
        invariant Standing(it) && Offset(it) == if i < |Entries()| then i else |Entries()|
      {
        it := Next(it);
      }
    }

    // ---------- runs ----------

    /** The table holds these stacks. */
    ghost predicate Holds(m: map<Key, seq<Value>>)
      reads table
    {
      Valid() && Proper(m) && forall k: Key :: Stack(k) == StackIn(m, k)
    }

    ghost function Stacks(): map<Key, seq<Value>>
      reads table
    {
      map k | k in (set e | e in Entries() :: e.key) :: Values(Entries(), k)
    }

    lemma HoldsStacks(m: map<Key, seq<Value>>)
      ensures Holds(m) <==> Valid() && Stacks() == m
    {
      if Valid() {
        StacksHold();
        hide Stacks, Values;
        if Holds(m) { SameStacks(m, Stacks()); }
      }
    }

    lemma StacksHold()
      requires Valid()
      ensures Holds(Stacks())
    {
      hide Entries, Values;
      var es, keys := Entries(), set e | e in Entries() :: e.key;
      forall k: Key ensures Values(es, k) == Stack(k) && (Stack(k) == [] <==> k !in keys) {
        StackOfEntries(k);
        ValuesNone(es, k);
      }
    }

    lemma SizeIs(m: map<Key, seq<Value>>)
      requires Holds(m)
      ensures |Entries()| == Total(m)
    {
      hide Entries, Values, Total;
      forall k: Key ensures Values(Entries(), k) == StackIn(m, k) { StackOfEntries(k); }
      EntriesTotal(Entries(), m);
    }

    /** One key has another stack, and every other key has what it had. */
    lemma HoldsPut(m: map<Key, seq<Value>>, k: Key)
      requires Valid() && Proper(m) && forall j: Key :: j != k ==> Stack(j) == StackIn(m, j)
      ensures Holds(Put(m, k, Stack(k)))
    {
      hide Values;
    }

    /** The entry at an iterator is the value of its key at that depth. */
    lemma EntryInStack(it: Iterator)
      requires Valid() && it.index < table.Length && it.pos < |table[it.index]|
      ensures var e := table[it.index][it.pos];
              Newer(it) < |Stack(e.key)| && Stack(e.key)[Newer(it)] == e.value
    {
      hide Values;
      ValuesAround(table[it.index], it.pos, table[it.index][it.pos].key);
    }

    /** What find stands at. */
    method Lookup(k: Key, ghost m: map<Key, seq<Value>>) returns (found: seq<Entry<Key, Value>>)
      requires Holds(m)
      ensures found == Newest(m, k)
    {
      hide Values, Flatten, Entries, Standing, Offset;
      var it := Find(k);
      if it != End() {
        var e := Get(it);
        found := [e];
      } else {
        found := [];
      }
    }

    /** Erase through an iterator, having looked at where it stands. */
    method TakeAt(offset: nat, ghost m: map<Key, seq<Value>>)
      returns (erased: nat, entries: seq<Entry<Key, Value>>, ghost m': map<Key, seq<Value>>)
      requires Holds(m)
      modifies table
      ensures Step(m, DeleteAt(offset), ErasedAt(erased, entries), m') && Holds(m')
    {
      SizeIs(m);
      HoldsStack(m);
      hide *;
      var it := At(offset);
      AtEnd(it);
      entries := [];
      if it != End() {
        OffsetEntry(it);
        EntryInStack(it);
        var e := Get(it);
        entries := [e];
        ghost var depth := Newer(it);
        erased, m' := TakeOne(it, m, e.key, depth);
        Taken(m, offset, e, depth, m');
      } else {
        erased, m' := 0, m;
        NothingTaken(m, offset);
      }
    }

    method TakeOne(it: Iterator, ghost m: map<Key, seq<Value>>, ghost k: Key, ghost depth: nat)
      returns (erased: nat, ghost m': map<Key, seq<Value>>)
      requires Holds(m) && Valid() && Standing(it) && Offset(it) < |Entries()| && k == Entries()[Offset(it)].key
      requires it.pos < |table[it.index]| && depth == Newer(it) < |StackIn(m, k)|
      modifies table
      ensures erased == 1 && m' == Put(m, k, Without(StackIn(m, k), depth)) && Holds(m')
    {
      HoldsStack(m);
      hide Contents, Entries, Values, Unique, Offset, Standing, Flatten, Newer, Home, Stack, Valid, Holds, Proper, Put;
      hide Without, Models;
      var n, _ := EraseAt(it);
      erased := n;
      HoldsPut(m, k);
      m' := Put(m, k, Stack(k));
    }

    lemma HoldsStack(m: map<Key, seq<Value>>)
      requires Holds(m)
      ensures Valid() && Proper(m) && forall k: Key :: Stack(k) == StackIn(m, k)
    {
    }

    method Enter(k: Key, v: Value, duplicate: bool, ghost m: map<Key, seq<Value>>)
      returns (answer: Answer<Key, Value>, ghost m': map<Key, seq<Value>>)
      requires Holds(m)
      modifies table
      ensures Step(m, if duplicate then Operation.InsertDuplicate(k, v) else Operation.Insert(k, v), answer, m')
      ensures Holds(m')
    {
      HoldsStack(m);
      if k in m { PutSame(m, k); }
      hide Values, Flatten, Entries, Standing, Offset, Total, Stack, Valid, Holds, Proper, Put;
      if duplicate {
        var _ := InsertDuplicate(k, v);
        answer := Inserted(true);
      } else {
        var _, inserted := Insert(k, v);
        answer := Inserted(inserted);
      }
      HoldsPut(m, k);
      m' := Put(m, k, Stack(k));
    }

    method Delete(k: Key, ghost m: map<Key, seq<Value>>)
      returns (answer: Answer<Key, Value>, ghost m': map<Key, seq<Value>>)
      requires Holds(m)
      modifies table
      ensures Step(m, Operation.Delete(k), answer, m') && Holds(m')
    {
      HoldsStack(m);
      hide Values, Flatten, Entries, Standing, Offset, Total, Stack, Valid, Holds, Put;
      var erased := Erase(k);
      answer := Erased(erased);
      HoldsPut(m, k);
      m' := Put(m, k, Stack(k));
    }

    /** One operation of a client */
    method Perform(op: Operation<Key, Value>, ghost m: map<Key, seq<Value>>)
      returns (answer: Answer<Key, Value>, ghost m': map<Key, seq<Value>>)
      requires Holds(m)
      modifies table
      ensures Step(m, op, answer, m') && Holds(m')
    {
      HoldsStack(m);
      hide Values, Flatten, Entries, Standing, Offset, Total, Stack, Valid, Holds, Proper, Put, TakenAt;
      m' := m;
      match op {
        case Insert(k, v) =>
          answer, m' := Enter(k, v, false, m);
        case InsertDuplicate(k, v) =>
          answer, m' := Enter(k, v, true, m);
        case Lookup(k) =>
          var found := Lookup(k, m);
          answer := Found(found);
        case Delete(k) =>
          answer, m' := Delete(k, m);
        case DeleteAt(n) =>
          var erased, entries;
          erased, entries, m' := TakeAt(n, m);
          answer := ErasedAt(erased, entries);
        case Count =>
          SizeIs(m);
          var total := Size();
          answer := Counted(total);
        case Clear =>
          EraseAll();
          answer := Cleared;
          m' := map[];
          HoldsNothing();
      }
    }

    lemma HoldsNothing()
      requires Valid() && forall k :: Stack(k) == []
      ensures Holds(map[])
    {
    }

    /** Stacks of one value each are those of the map. */
    lemma SinglesAre(p: map<Key, Value>)
      requires Valid()
      ensures Singles(Stacks(), p) <==> Unique() && Contents() == p
    {
      HoldsStacks(Stacks());
      ModelsContents(p);
      hide Stacks, Contents, Unique, Values, Entries;
      if Models(p) {
        forall k: Key ensures StackIn(Stacks(), k) == if k in p then [p[k]] else [] {
          assert Stack(k) == StackIn(Stacks(), k);
        }
      } else if Singles(Stacks(), p) {
        forall k: Key ensures Stack(k) == if k in p then [p[k]] else [] {
          assert Stack(k) == StackIn(Stacks(), k);
        }
      }
    }

    /** In any run every operation answers as a map of stacks would, and the table is left with those stacks. */
    method Run(ops: seq<Operation<Key, Value>>)
      returns (answers: seq<Answer<Key, Value>>, ghost states: seq<map<Key, seq<Value>>>)
      requires Valid()
      modifies table
      ensures Valid() && Ran(states, ops, answers) && states[0] == old(Stacks()) && states[|ops|] == Stacks()
    {
      answers, states := [], [Stacks()];
      HoldsStacks(Stacks());
      hide Holds, Stacks, Step, Valid;
      for i := 0 to |ops|
        invariant Ran(states, ops[..i], answers) && states[0] == old(Stacks()) && Holds(states[i])
      {
        ghost var m;
        var answer;
        answer, m := Perform(ops[i], states[i]);
        answers, states := answers + [answer], states + [m];
      }
      assert ops[..|ops|] == ops;
      HoldsStacks(states[|ops|]);
    }

    /** A run without duplicates: every operation answers as a map would, and the table is left with the entries of
        that map. */
    method RunOnMap(ops: seq<Operation<Key, Value>>) returns (answers: seq<Answer<Key, Value>>)
      requires Unique() && forall i :: 0 <= i < |ops| ==> !ops[i].InsertDuplicate?
      modifies table
      ensures Unique() && |answers| == |ops| && Contents() == Effects(old(Contents()), ops, answers)
      ensures forall i :: 0 <= i < |ops| ==> Legal(Effects(old(Contents()), ops[..i], answers[..i]), ops[i], answers[i])
    {
      ghost var p := Contents();
      assert Valid();
      SinglesAre(p);
      hide *;
      ghost var states;
      answers, states := Run(ops);
      RanLengths(states, ops, answers);
      forall i | 0 <= i < |ops| ensures Legal(Effects(p, ops[..i], answers[..i]), ops[i], answers[i]) {
        RunOfMap(states, ops, answers, p, i);
      }
      RunOfMap(states, ops, answers, p, |ops|);
      assert ops[..|ops|] == ops && answers[..|ops|] == answers;
      SinglesAre(Effects(p, ops, answers));
    }

    // ---------- iterating ----------

    /** Start at begin; at each entry either erase it through the iterator or step on; stop at end. */
    method Sweep(erase: nat -> bool) returns (ghost visited: seq<Entry<Key, Value>>)
      requires Valid()
      modifies table
      ensures Valid() && visited == old(Entries())
      ensures Entries() == Survivors(old(Entries()), erase)
    {
      var it := Begin();
      visited := [];
      var step := 0;
      ghost var before := Entries();
      AtEnd(it);
      assert Swept(before, 0, before, 0, erase) && before[..0] == [];
      hide *;
      while it != End()
        invariant Valid() && Standing(it) && (it == End() <==> Offset(it) == |Entries()|)
        invariant Offset(it) <= |Entries()| && Swept(before, step, Entries(), Offset(it), erase)
        invariant step <= |before| && visited == before[..step]
        decreases |before| - step
      {
        ghost var e;
        it, e := SweepStep(it, erase(step), before, step, erase);
        visited := visited + [e];
        step := step + 1;
      }
      SweptAll(before, step, Entries(), Offset(it), erase);
    }

    method SweepStep(it: Iterator, remove: bool, ghost before: seq<Entry<Key, Value>>, ghost step: nat,
                     ghost erase: nat -> bool)
      returns (next: Iterator, ghost e: Entry<Key, Value>)
      requires Valid() && Standing(it) && Offset(it) < |Entries()| && remove == erase(step)
      requires Swept(before, step, Entries(), Offset(it), erase)
      modifies table
      ensures Valid() && Standing(next) && Offset(next) <= |Entries()|
      ensures (next == End() <==> Offset(next) == |Entries()|)
      ensures Swept(before, step + 1, Entries(), Offset(next), erase)
      ensures step < |before| && before[..step+1] == before[..step] + [e]
    {
      OffsetEntry(it);
      SweptNext(before, step, Entries(), Offset(it), erase);
      e := before[step];
      hide Swept, Survivors, Offset, Entries, Valid;
      if remove {
        var erased;
        erased, next := EraseAt(it);
      } else {
        next := Next(it);
      }
      OffsetEntry(next);
      AtEnd(next);
    }
  }

  lemma Unchanged<T>(s: seq<T>, i: nat, x: T)
    requires i < |s|
    ensures s[i := x][..i] == s[..i]
  {
  }

  lemma SweptAll<T>(before: seq<T>, step: nat, now: seq<T>, n: nat, erase: nat -> bool)
    requires Swept(before, step, now, n, erase) && n == |now|
    ensures before[..step] == before && now == Survivors(before, erase)
  {
    assert now[..n] == now && before[..step] + before[step..] == before;
  }

  lemma RemoveMiddle<T>(a: seq<T>, b: seq<T>, c: seq<T>, p: nat)
    requires p < |b|
    ensures var n := |a| + p; (a + b + c)[..n] + (a + b + c)[n+1..] == a + (b[..p] + b[p+1..]) + c
  {
  }

  /** After some steps: the first n entries have survived, and the rest is as it was. */
  ghost predicate Swept<T>(before: seq<T>, step: nat, now: seq<T>, n: nat, erase: nat -> bool) {
    step <= |before| && n <= |now| && now[..n] == Survivors(before[..step], erase) && now[n..] == before[step..]
  }

  lemma SweptNext<T>(before: seq<T>, step: nat, now: seq<T>, n: nat, erase: nat -> bool)
    requires Swept(before, step, now, n, erase) && n < |now|
    ensures step < |before| && now[n] == before[step] && before[..step+1] == before[..step] + [before[step]]
    ensures if erase(step) then Swept(before, step + 1, now[..n] + now[n+1..], n, erase)
            else Swept(before, step + 1, now, n + 1, erase)
  {
    assert now[n..][0] == before[step..][0];
    assert before[..step+1][..step] == before[..step];
    assert now[..n+1] == now[..n] + [now[n]];
    assert now[n+1..] == now[n..][1..];
  }

  /** What is left of a list when the entries at some places are erased. */
  ghost function Survivors<T>(s: seq<T>, erase: nat -> bool): seq<T> {
    if s == [] then [] else Survivors(s[..|s|-1], erase) + if erase(|s| - 1) then [] else [s[|s|-1]]
  }
}
