/** Candidates, and the agenda that proposes them in order of weight, directed by conflicts. */
module Search {
  import opened Heap
  import opened Options
  import opened Sequences
  import opened Words
  import Sorting

  datatype Assignment = Assignment(variable: nat, index: nat, weight: nat)

  type Candidate = seq<Assignment>

  type Conflict = seq<Assignment>

  /** The values of every variable; the first one is its default. */
  datatype Domain = Domain(values: seq<seq<Assignment>>) {

    ghost predicate Valid() {
      forall v, i :: 0 <= v < |values| && 0 <= i < |values[v]| ==> values[v][i].variable == v && values[v][i].index == i
    }

    ghost predicate Has(a: Assignment) {
      a.variable < |values| && a in values[a.variable]
    }

    predicate IsDefault(a: Assignment) {
      a.variable < |values| && values[a.variable] != [] && a == values[a.variable][0]
    }

    /** CBFSElement::is_assignment_useful */
    predicate Useful(a: Assignment, c: Candidate) {
      !IsDefault(a) && Unassigned(c, a.variable) && a !in c
    }

    /** Assignments of the domain, at most one for each variable. */
    ghost predicate Admissible(c: Candidate) {
      && (forall a :: a in c ==> Has(a))
      && forall i, j :: 0 <= i < j < |c| ==> c[i].variable != c[j].variable
    }

    /** No variable occurs twice. */
    ghost predicate OneEach(conflict: Conflict) {
      forall i, j :: 0 <= i < j < |conflict| ==> conflict[i].variable != conflict[j].variable
    }

    /** What a candidate makes has one value for each variable. */
    lemma MakesOneEach(c: Candidate, conflict: Conflict)
      requires Admissible(c) && NoDuplicates(conflict) && forall b :: b in conflict ==> Makes(c, b)
      ensures OneEach(conflict)
    {
      forall i, j | 0 <= i < j < |conflict| ensures conflict[i].variable != conflict[j].variable {
        var a, b := conflict[i], conflict[j];
        assert a in conflict && b in conflict && a != b;
        if a in c && b in c {
          var k :| 0 <= k < |c| && c[k] == a;
          var l :| 0 <= l < |c| && c[l] == b;
        }
      }
    }

    ghost predicate FaultsOnly(c: Candidate) {
      forall a :: a in c ==> !IsDefault(a)
    }

    /** The candidate, with the defaults of the variables that it leaves open, makes this assignment. */
    ghost predicate Makes(c: Candidate, a: Assignment) {
      a in c || (IsDefault(a) && Unassigned(c, a.variable))
    }

    ghost predicate Avoids(c: Candidate, conflict: Conflict) {
      exists a :: a in conflict && !Makes(c, a)
    }

    /** Conflict::resolving_assignments lists the assignments of the same variable with another value. */
    ghost predicate Resolves(a: Assignment, conflict: Conflict) {
      exists b :: b in conflict && Has(a) && b.variable == a.variable && a != b
    }

    lemma {:induction false} AdmissibleLength(c: Candidate)
      requires Admissible(c)
      ensures |c| <= |values|
    {
      var vs := seq(|c|, i requires 0 <= i < |c| => c[i].variable);
      forall v | v in vs ensures v in seq(|values|, k => k) {
        var i :| 0 <= i < |c| && vs[i] == v;
        assert Has(c[i]);
        assert seq(|values|, k => k)[v] == v;
      }
      NoDuplicatesLength(vs, seq(|values|, k => k));
    }

    lemma AdmissibleMore(c: Candidate, a: Assignment)
      requires Admissible(c) && Has(a) && Unassigned(c, a.variable)
      ensures Admissible(c + [a]) && |c| < |values|
    {
      forall i | 0 <= i < |c| ensures c[i].variable != a.variable {
        assert c[i] in c;
      }
      AdmissibleLength(c + [a]);
    }

    /** A candidate that avoids a conflict of a smaller candidate gives a useful value to one of its variables. */
    lemma Resolution(c: Candidate, s: Candidate, conflict: Conflict) returns (a: Assignment)
      requires Admissible(s) && Within(c, s)
      requires Avoids(s, conflict) && forall b :: b in conflict ==> Makes(c, b)
      ensures a in s && Useful(a, c) && Resolves(a, conflict)
    {
      var b :| b in conflict && !Makes(s, b);
      assert b !in c && IsDefault(b) && Unassigned(c, b.variable);
      a :| a in s && a.variable == b.variable;
      assert Has(a);
    }

    /** An assignment of a larger candidate that a smaller one lacks is of a variable it leaves open. */
    lemma OpenVariable(c: Candidate, s: Candidate, a: Assignment)
      requires Admissible(s) && Within(c, s) && a in s && a !in c
      ensures Unassigned(c, a.variable)
    {
      var i :| 0 <= i < |s| && s[i] == a;
      forall b | b in c ensures b.variable != a.variable {
        var j :| 0 <= j < |s| && s[j] == b;
      }
    }
  }

  /** Candidate::consistent_assignment, for the variable of an assignment */
  predicate Unassigned(c: Candidate, variable: nat) {
    forall a :: a in c ==> a.variable != variable
  }

  /** Candidate::superset_of */
  predicate Within(c: Candidate, s: Candidate) {
    forall a :: a in c ==> a in s
  }

  function Weight(c: Candidate): nat {
    if c == [] then 0 else Weight(c[..|c|-1]) + c[|c|-1].weight
  }

  lemma {:induction false} WeightWithout(c: Candidate, i: nat)
    requires i < |c|
    ensures Weight(c) == Weight(Without(c, i)) + c[i].weight
  {
    var n := |c| - 1;
    if i < n {
      WeightWithout(c[..n], i);
      assert Without(c, i)[..n-1] == Without(c[..n], i);
    } else {
      assert Without(c, i) == c[..n];
    }
  }

  /** A candidate is no heavier than one that contains it. */
  lemma {:induction false} WeightWithin(c: Candidate, s: Candidate)
    requires NoDuplicates(c) && Within(c, s)
    ensures Weight(c) <= Weight(s)
  {
    if c != [] {
      var a := c[|c|-1];
      assert a in c && a in s;
      var i :| 0 <= i < |s| && s[i] == a;
      WithoutElements(s, i);
      WeightWithout(s, i);
      WeightWithin(c[..|c|-1], Without(s, i));
    }
  }

  /** CBFSElement: a prefix, the assignment to add to it now, and those to add instead later, lightest first. */
  datatype Element = Element(prefix: Candidate, current: Option<Assignment>, remaining: seq<Assignment>, weight: nat) {

    /** CBFSElement::generate_candidate */
    function Proposal(): Candidate {
      if current.Some? then prefix + [current.value] else prefix
    }

    ghost function Choices(): seq<Assignment> {
      if current.Some? then [current.value] + remaining else remaining
    }

    /** Everything the element may still add is in the domain and sorted by weight. */
    ghost predicate Proper(d: Domain) {
      && d.Admissible(prefix) && Ascending(Choices()) && NoDuplicates(Choices())
      && (forall a :: a in Choices() ==> d.Has(a))
      && (current.Some? ==> d.Useful(current.value, prefix))
      && (current.None? ==> remaining == [])
    }

    /** Continuing from this element reaches a candidate inside s. */
    ghost predicate LeadsTo(d: Domain, s: Candidate) {
      && Within(prefix, s)
      && (current.None? || exists a :: a in Choices() && a in s && a !in prefix && !d.IsDefault(a))
    }

    lemma ProposalAdmissible(d: Domain)
      requires Proper(d)
      ensures d.Admissible(Proposal()) && (d.FaultsOnly(prefix) ==> d.FaultsOnly(Proposal()))
    {
      if current.Some? {
        assert current.value in Choices();
        d.AdmissibleMore(prefix, current.value);
      }
    }

    /** The proposal is no heavier than anything the element leads to. */
    lemma Lightest(d: Domain, s: Candidate)
      requires Proper(d) && LeadsTo(d, s)
      ensures Weight(Proposal()) <= Weight(s)
    {
      if current.None? {
        AdmissibleDistinct(d, prefix);
        WeightWithin(prefix, s);
      } else {
        var a :| a in Choices() && a in s && a !in prefix;
        var i :| 0 <= i < |Choices()| && Choices()[i] == a;
        assert Choices()[0] == current.value && current.value.weight <= a.weight;
        AdmissibleDistinct(d, prefix);
        NoDuplicatesMore(prefix, a);
        WeightWithin(prefix + [a], s);
        WeightMore(prefix, a);
        WeightMore(prefix, current.value);
      }
    }
  }

  lemma AdmissibleDistinct(d: Domain, c: Candidate)
    requires d.Admissible(c)
    ensures NoDuplicates(c)
  {
  }

  lemma WeightMore(c: Candidate, a: Assignment)
    ensures Weight(c + [a]) == Weight(c) + a.weight
  {
    assert (c + [a])[..|c|] == c;
  }

  predicate Ascending(s: seq<Assignment>) {
    forall i, j :: 0 <= i < j < |s| ==> s[i].weight <= s[j].weight
  }

  /** No element has been lost on the way to s. */
  ghost predicate Leads(d: Domain, es: seq<Element>, s: Candidate) {
    exists e :: e in es && e.LeadsTo(d, s)
  }

  // ---------- how much work is left ----------

  /** All assignments of the domain. */
  function All(values: seq<seq<Assignment>>): seq<Assignment> {
    if values == [] then [] else All(values[..|values|-1]) + values[|values|-1]
  }

  lemma {:induction false} AllHasValue(values: seq<seq<Assignment>>, v: nat, a: Assignment)
    requires v < |values| && a in values[v]
    ensures a in All(values) && |values[v]| <= |All(values)|
  {
    if v < |values| - 1 {
      AllHasValue(values[..|values|-1], v, a);
    }
  }

  /** How many candidates can be proposed from one with k assignments to a list of n choices or fewer, at most. */
  function Steps(d: Domain, k: nat): (r: nat)
    ensures r >= 1
    decreases |d.values| - k
  {
    if k >= |d.values| then 1 else 1 + |All(d.values)| * |All(d.values)| * Steps(d, k + 1)
  }

  lemma StepsBelow(d: Domain, k: nat)
    requires k < |d.values|
    ensures Steps(d, k) == 1 + |All(d.values)| * |All(d.values)| * Steps(d, k + 1)
  {
  }

  function Work(d: Domain, e: Element): nat {
    if e.current.None? then Steps(d, |e.prefix|) else (1 + |e.remaining|) * Steps(d, |e.prefix| + 1)
  }

  function TotalWork(d: Domain, es: seq<Element>): nat {
    if es == [] then 0 else TotalWork(d, es[..|es|-1]) + Work(d, es[|es|-1])
  }

  lemma TotalWorkMore(d: Domain, es: seq<Element>, e: Element)
    ensures TotalWork(d, es + [e]) == TotalWork(d, es) + Work(d, e)
  {
    assert (es + [e])[..|es|] == es;
  }

  lemma {:induction false} TotalWorkWithout(d: Domain, es: seq<Element>, i: nat)
    requires i < |es|
    ensures TotalWork(d, es) == TotalWork(d, Without(es, i)) + Work(d, es[i])
  {
    var n := |es| - 1;
    hide Work;
    if i < n {
      TotalWorkWithout(d, es[..n], i);
      WithoutLast(es, i);
      hide Without;
    } else {
      assert Without(es, i) == es[..n];
    }
  }

  /** The order of the elements does not matter. */
  lemma {:induction false} TotalWorkOrder(d: Domain, es: seq<Element>, fs: seq<Element>)
    requires multiset(es) == multiset(fs)
    ensures TotalWork(d, es) == TotalWork(d, fs)
  {
    if es == [] {
      assert |multiset(fs)| == 0;
    } else {
      var n := |es| - 1;
      assert es == es[..n] + [es[n]];
      assert es[n] in multiset(fs);
      var i :| 0 <= i < |fs| && fs[i] == es[n];
      WithoutElements(fs, i);
      assert multiset(es[..n]) == multiset(es) - multiset{es[n]} == multiset(Without(fs, i));
      TotalWorkOrder(d, es[..n], Without(fs, i));
      TotalWorkWithout(d, fs, i);
    }
  }

  // ---------- the agenda ----------

  function ElementWeight(e: Element): nat { e.weight }

  function AssignmentWeight(a: Assignment): nat { a.weight }

  /** No candidate is too heavy for an unsigned weight. */
  ghost predicate Fits(d: Domain, emptyWeight: nat) {
    forall c :: d.Admissible(c) ==> emptyWeight + Weight(c) < WORD
  }

  class CbfsAgenda {
    const d: Domain
    const emptyWeight: nat
    const heap: BinaryHeap<Element>
    var lastPopped: Option<Element>

    ghost predicate Valid()
      reads this, heap
    {
      && d.Valid() && Fits(d, emptyWeight)
      && heap.Valid() && heap.increasing && heap.key == ElementWeight
      && forall e :: e in heap.arr ==> Ready(e)
    }

    /** A proper element whose weight has been set. */
    ghost predicate Ready(e: Element) {
      e.Proper(d) && e.weight == emptyWeight + Weight(e.Proposal())
    }

    constructor (d: Domain, emptyWeight: nat)
      requires d.Valid() && Fits(d, emptyWeight)
      ensures Valid() && fresh(heap) && this.d == d && this.emptyWeight == emptyWeight
      ensures heap.arr == [Element([], None, [], emptyWeight)]
    {
      this.d, this.emptyWeight, lastPopped := d, emptyWeight, None;
      heap := new BinaryHeap<Element>(true, ElementWeight);
      new;
      var e := Element([], None, [], 0);
      Insert(e);
      assert multiset(heap.arr) == multiset{e.(weight := emptyWeight)};
    }

    /** CBFSElement::compute_element_weight, in unsigned arithmetic */
    function ComputeElementWeight(e: Element): nat {
      (emptyWeight + Weight(e.prefix) + (if e.current.Some? then e.current.value.weight else 0)) % WORD
    }

    /** The element's weight is what its proposal weighs, unless the sum has wrapped around. */
    lemma WeightOf(e: Element)
      ensures ComputeElementWeight(e) == (emptyWeight + Weight(e.Proposal())) % WORD
    {
      hide Weight;
      if e.current.Some? { WeightMore(e.prefix, e.current.value); }
    }

    /** The weights of all elements are exact if and only if no candidate is too heavy. */
    lemma ExactWeights()
      ensures (forall e: Element :: e.Proper(d) ==> ComputeElementWeight(e) == emptyWeight + Weight(e.Proposal()))
              <==> Fits(d, emptyWeight)
    {
      hide Weight, Domain.Admissible;
      if Fits(d, emptyWeight) {
        forall e: Element | e.Proper(d) ensures ComputeElementWeight(e) == emptyWeight + Weight(e.Proposal()) {
          e.ProposalAdmissible(d);
          WeightOf(e);
        }
      } else {
        var c :| d.Admissible(c) && emptyWeight + Weight(c) >= WORD;
        var e := Element(c, None, [], 0);
        assert e.Proper(d) && e.Proposal() == c;
      }
    }

    function Weighed(e: Element): Element {
      e.(weight := emptyWeight + Weight(e.Proposal()))
    }

    /** Insert an element after its weight has been set. */
    method Insert(e: Element)
      requires Valid() && e.Proper(d)
      modifies heap
      ensures Valid()
      ensures multiset(heap.arr) == multiset(old(heap.arr)) + multiset{Weighed(e)}
    {
      ExactWeights();
      var e' := e.(weight := ComputeElementWeight(e));
      heap.Insert(e');
      forall x | x in heap.arr ensures Ready(x) {
        assert x in multiset(heap.arr);
      }
    }

    /** CBFSAgenda::pop_candidate */
    method PopCandidate() returns (c: Candidate)
      requires Valid() && heap.arr != []
      modifies this`lastPopped, heap
      ensures Valid() && lastPopped.Some? && Ready(lastPopped.value) && c == lastPopped.value.Proposal()
      ensures multiset(old(heap.arr)) == multiset(heap.arr) + multiset{lastPopped.value}
      ensures forall e :: e in heap.arr ==> e.weight >= lastPopped.value.weight
    {
      var e := heap.Pop();
      lastPopped := Some(e);
      forall x | x in multiset(heap.arr) + multiset{e} ensures x in old(heap.arr) {
        assert x in multiset(old(heap.arr));
      }
      c := e.Proposal();
    }

    /** What is left of a list after its useless first elements are gone. */
    function Dropped(assignments: seq<Assignment>, c: Candidate): (rest: seq<Assignment>)
      ensures |rest| <= |assignments|
    {
      if assignments == [] || d.Useful(assignments[0], c) then assignments else Dropped(assignments[1..], c)
    }

    lemma {:induction false} DroppedIs(assignments: seq<Assignment>, c: Candidate) returns (k: nat)
      ensures k <= |assignments| && Dropped(assignments, c) == assignments[k..]
      ensures forall i :: 0 <= i < k ==> !d.Useful(assignments[i], c)
      ensures k < |assignments| ==> d.Useful(assignments[k], c)
    {
      hide Domain.Useful;
      if assignments == [] || d.Useful(assignments[0], c) {
        k := 0;
      } else {
        var n := DroppedIs(assignments[1..], c);
        k := n + 1;
        forall i | 0 <= i < k ensures !d.Useful(assignments[i], c) {
          assert i > 0 ==> assignments[i] == assignments[1..][i - 1];
        }
      }
    }

    lemma DroppedDistinct(assignments: seq<Assignment>, c: Candidate)
      requires NoDuplicates(assignments)
      ensures NoDuplicates(Dropped(assignments, c))
    {
      var k := DroppedIs(assignments, c);
    }

    lemma StillThere(assignments: seq<Assignment>, c: Candidate, a: Assignment)
      requires a in assignments && d.Useful(a, c)
      ensures a in Dropped(assignments, c)
    {
      var k := DroppedIs(assignments, c);
      var i :| 0 <= i < |assignments| && assignments[i] == a;
      assert Dropped(assignments, c)[i - k] == a;
    }

    /** CBFSAgenda::pop_useless_assignments */
    method PopUselessAssignments(assignments: seq<Assignment>, c: Candidate) returns (rest: seq<Assignment>)
      ensures rest == Dropped(assignments, c)
      ensures rest != [] ==> d.Useful(rest[0], c)
      ensures forall a :: a in assignments && d.Useful(a, c) ==> a in rest
      ensures exists k ::
        0 <= k <= |assignments| && rest == assignments[k..] && forall i :: 0 <= i < k ==> !d.Useful(assignments[i], c)
    {
      ghost var k := DroppedIs(assignments, c);
      forall a | a in assignments && d.Useful(a, c) ensures a in Dropped(assignments, c) {
        StillThere(assignments, c, a);
      }
      hide Domain.Useful;
      rest := assignments;
      while rest != []
        invariant Dropped(rest, c) == Dropped(assignments, c)
        decreases |rest|
      {
        if d.Useful(rest[0], c) {
          return;
        }
        rest := rest[1..];
      }
    }

    /** Conflict::resolving_assignments and Assignment::append_other_values */
    method ResolvingAssignments(conflict: Conflict) returns (assignments: seq<Assignment>)
      requires d.Valid() && forall b :: b in conflict ==> d.Has(b)
      ensures forall a :: a in assignments <==> d.Resolves(a, conflict)
      ensures d.OneEach(conflict) ==> NoDuplicates(assignments)
      ensures |assignments| <= |conflict| * |All(d.values)|
    {
      assignments := [];
      for k := 0 to |conflict|
        invariant forall a :: a in assignments <==> d.Resolves(a, conflict[..k])
        invariant d.OneEach(conflict) ==> NoDuplicates(assignments)
        invariant |assignments| <= k * |All(d.values)|
      {
        var increment := OtherValues(conflict[k]);
        ResolvesNext(conflict, k);
        if d.OneEach(conflict) { ResolvesApart(conflict, k, assignments, increment); }
        assert (k + 1) * |All(d.values)| == k * |All(d.values)| + |All(d.values)|;
        hide *;
        assignments := assignments + increment;
      }
      assert conflict[..|conflict|] == conflict;
    }

    lemma ResolvesApart(conflict: Conflict, k: nat, assignments: seq<Assignment>, increment: seq<Assignment>)
      requires d.OneEach(conflict) && k < |conflict| && NoDuplicates(assignments) && NoDuplicates(increment)
      requires forall a :: a in assignments ==> d.Resolves(a, conflict[..k])
      requires forall a :: a in increment ==> a.variable == conflict[k].variable
      ensures NoDuplicates(assignments + increment)
    {
      forall a | a in assignments ensures a.variable != conflict[k].variable {
        var b :| b in conflict[..k] && b.variable == a.variable;
        var i :| 0 <= i < k && conflict[i] == b;
      }
      NoDuplicatesBoth(assignments, increment);
    }

    lemma ResolvesNext(conflict: Conflict, k: nat)
      requires d.Valid() && k < |conflict|
      ensures var b := conflict[k];
              forall a :: d.Resolves(a, conflict[..k+1]) <==>
                d.Resolves(a, conflict[..k]) || (d.Has(a) && a.variable == b.variable && a != b)
    {
      assert conflict[..k+1] == conflict[..k] + [conflict[k]];
    }

    method OtherValues(b: Assignment) returns (increment: seq<Assignment>)
      requires d.Valid() && d.Has(b)
      ensures forall a :: a in increment <==> d.Has(a) && a.variable == b.variable && a != b
      ensures NoDuplicates(increment) && |increment| <= |All(d.values)|
    {
      AllHasValue(d.values, b.variable, b);
      increment := [];
      var values := d.values[b.variable];
      for i := 0 to |values|
        invariant |increment| <= i && forall a :: a in increment <==> a in values[..i] && a != b
        invariant NoDuplicates(increment)
      {
        assert values[..i+1] == values[..i] + [values[i]];
        assert values[i] !in values[..i];
        if values[i] != b {
          increment := [values[i]] + increment;
        }
      }
      assert values[..|values|] == values;
    }

    /** Sort a list by putting it into a heap and popping it off. */
    method SortByWeight(assignments: seq<Assignment>) returns (sorted: seq<Assignment>)
      ensures Ascending(sorted) && multiset(sorted) == multiset(assignments)
      ensures NoDuplicates(assignments) ==> NoDuplicates(sorted)
    {
      var workheap := new BinaryHeap<Assignment>(true, AssignmentWeight);
      for k := 0 to |assignments|
        invariant workheap.Valid() && multiset(workheap.arr) == multiset(assignments[..k])
      {
        assert assignments[..k+1] == assignments[..k] + [assignments[k]];
        workheap.Insert(assignments[k]);
      }
      assert assignments[..|assignments|] == assignments;
      sorted := [];
      while workheap.arr != []
        invariant workheap.Valid() && multiset(sorted) + multiset(workheap.arr) == multiset(assignments)
        invariant Ascending(sorted) && forall a, b :: a in sorted && b in workheap.arr ==> a.weight <= b.weight
        decreases |workheap.arr|
      {
        ghost var before := workheap.arr;
        var a := workheap.Pop();
        forall b | b == a || b in workheap.arr ensures b in before {
          assert b in multiset(before);
        }
        sorted := sorted + [a];
      }
      if NoDuplicates(assignments) { NoDuplicatesOrder(assignments, sorted); }
    }

    /** CBFSAgenda::get_new_assignments */
    method GetNewAssignments(c: Candidate, conflict: Conflict) returns (assignments: seq<Assignment>)
      requires d.Valid() && forall b :: b in conflict ==> d.Has(b)
      ensures NewAssignments(c, conflict, assignments) && (d.OneEach(conflict) ==> NoDuplicates(assignments))
    {
      hide *;
      var resolving := ResolvingAssignments(conflict);
      var sorted := SortByWeight(resolving);
      SameMembers(sorted, resolving);
      assignments := PopUselessAssignments(sorted, c);
      UsefulKept(sorted, assignments, c);
      if NoDuplicates(sorted) { DroppedDistinct(sorted, c); }
      NewAssignmentsFrom(c, conflict, assignments);
    }

    /** The useful assignments that resolve the conflict, lightest first; the first one is useful. */
    ghost predicate NewAssignments(c: Candidate, conflict: Conflict, assignments: seq<Assignment>) {
      && Ascending(assignments) && (forall a :: a in assignments ==> d.Resolves(a, conflict))
      && (forall a :: d.Resolves(a, conflict) && d.Useful(a, c) ==> a in assignments)
      && (assignments != [] ==> d.Useful(assignments[0], c))
      && |assignments| <= |conflict| * |All(d.values)|
    }

    lemma NewAssignmentsFrom(c: Candidate, conflict: Conflict, assignments: seq<Assignment>)
      requires Ascending(assignments) && (forall a :: a in assignments ==> d.Resolves(a, conflict))
      requires forall a :: d.Resolves(a, conflict) && d.Useful(a, c) ==> a in assignments
      requires assignments != [] ==> d.Useful(assignments[0], c)
      requires |assignments| <= |conflict| * |All(d.values)|
      ensures NewAssignments(c, conflict, assignments)
    {
    }

    lemma SameMembers(s: seq<Assignment>, t: seq<Assignment>)
      requires multiset(s) == multiset(t)
      ensures |s| == |t| && forall a :: a in s <==> a in t
    {
      assert |s| == |multiset(s)| && |t| == |multiset(t)|;
      assert forall a :: a in s <==> a in multiset(s);
      assert forall a :: a in t <==> a in multiset(t);
    }

    lemma UsefulKept(s: seq<Assignment>, rest: seq<Assignment>, c: Candidate)
      requires Ascending(s) && rest == Dropped(s, c)
      ensures Ascending(rest) && |rest| <= |s| && (forall a :: a in rest ==> a in s)
      ensures (rest != [] ==> d.Useful(rest[0], c))
      ensures forall a :: a in s && d.Useful(a, c) ==> a in rest
    {
      var k := DroppedIs(s, c);
      hide Domain.Useful;
      forall a | a in s && d.Useful(a, c) ensures a in rest {
        StillThere(s, c, a);
      }
    }

    /** The seed is on the agenda, with nothing added to it yet. */
    ghost predicate Planted(es: seq<Element>, c: Candidate) {
      exists e :: e in es && e.current.None? && e.prefix == c
    }

    /** CBFSAgenda::initialize_agenda, on seeds that assign each variable at most once */
    method InitializeAgenda(candidates: seq<Candidate>)
      requires Valid() && forall c :: c in candidates ==> d.Admissible(c)
      modifies heap
      ensures var seeds := if candidates == [] then [[]] else candidates;
              && Valid() && multiset(heap.arr) == multiset(Sown(seeds))
              && (forall e :: e in heap.arr ==> e.current.None? && e.prefix in seeds)
              && forall c :: c in seeds ==> Planted(heap.arr, c)
    {
      Clean();
      // without seeds the search starts from the candidate that leaves everything at its default
      var seeds := if candidates == [] then [[]] else candidates;
      var n := |seeds|;
      while n > 0
        invariant Valid() && 0 <= n <= |seeds| && multiset(heap.arr) == multiset(Sown(seeds[n..]))
      {
        n := n - 1;
        InsertSeed(seeds[n]);
        OneMoreSown(seeds, n);
        hide *;
      }
      assert seeds[0..] == seeds;
      AllSown(seeds, heap.arr);
    }

    /** What has been sown stands on the agenda. */
    lemma AllSown(seeds: seq<Candidate>, es: seq<Element>)
      requires multiset(es) == multiset(Sown(seeds))
      ensures forall e :: e in es ==> e.current.None? && e.prefix in seeds
      ensures forall c :: c in seeds ==> Planted(es, c)
    {
      var sown := Sown(seeds);
      hide Weight;
      forall e | e in es ensures e.current.None? && e.prefix in seeds {
        assert e in multiset(es) && e in sown;
        var k :| 0 <= k < |sown| && sown[k] == e;
        assert e.prefix == seeds[k];
      }
      forall c | c in seeds ensures Planted(es, c) {
        var k :| 0 <= k < |seeds| && seeds[k] == c;
        assert sown[k] in sown && sown[k] in multiset(sown);
        assert sown[k] in es;
      }
    }

    method Clean()
      requires Valid()
      modifies heap
      ensures Valid() && heap.arr == []
    {
      while heap.arr != []
        invariant Valid()
        decreases |heap.arr|
      {
        ghost var before := heap.arr;
        var e := heap.Pop();
        forall x | x in heap.arr ensures Ready(x) {
          assert x in multiset(heap.arr);
          assert x in multiset(before);
        }
      }
    }

    /** An element for each seed, with the seed's weight */
    ghost function Sown(seeds: seq<Candidate>): seq<Element> {
      seq(|seeds|, i requires 0 <= i < |seeds| => Element(seeds[i], None, [], emptyWeight + Weight(seeds[i])))
    }

    lemma OneMoreSown(seeds: seq<Candidate>, n: nat)
      requires n < |seeds|
      ensures Sown(seeds[n..]) == [Weighed(Element(seeds[n], None, [], 0))] + Sown(seeds[n+1..])
    {
      hide Weight;
    }

    method InsertSeed(c: Candidate)
      requires Valid() && d.Admissible(c)
      modifies heap
      ensures Valid()
      ensures multiset(heap.arr) == multiset(old(heap.arr)) + multiset{Weighed(Element(c, None, [], 0))}
    {
      Insert(Element(c, None, [], 0));
    }

    // ---------- expanding an element ----------

    /** What the theory may answer: assignments that the candidate makes and that cannot all be made together. */
    ghost predicate Blames(conflict: Conflict, c: Candidate) {
      NoDuplicates(conflict) && forall b :: b in conflict ==> d.Has(b) && d.Makes(c, b)
    }

    /** These elements are ready, no lighter than w, and take every larger candidate in `from` on. */
    ghost predicate Successors(added: seq<Element>, w: nat, faults: bool, from: iset<Candidate>) {
      && (forall x :: x in added ==> Ready(x) && x.weight >= w && (faults ==> d.FaultsOnly(x.prefix)))
      && forall s :: s in from ==> Leads(d, added, s)
    }

    ghost function Resolving(c: Candidate, conflict: Conflict): iset<Candidate> {
      iset s | d.Admissible(s) && Within(c, s) && d.Avoids(s, conflict)
    }

    ghost function Later(e: Element): iset<Candidate> {
      iset s | && d.Admissible(s) && Within(e.prefix, s)
               && exists a :: a in e.remaining && a in s && a !in e.prefix && !d.IsDefault(a)
    }

    /** The proposal of e, extended by every useful assignment that resolves its conflict. */
    method AddChild(e: Element, conflict: Conflict) returns (ghost added: seq<Element>)
      requires Valid() && Ready(e) && Blames(conflict, e.Proposal())
      modifies heap
      ensures Valid() && multiset(heap.arr) == multiset(old(heap.arr)) + multiset(added)
      ensures Successors(added, e.weight, d.FaultsOnly(e.prefix), Resolving(e.Proposal(), conflict))
      ensures TotalWork(d, added) < Steps(d, |e.Proposal()|)
      ensures EachResolvingOnce(added, e.Proposal(), conflict)
    {
      ReadyProper(e);
      BlamesInDomain(conflict, e.Proposal(), e);
      hide *;
      ghost var assignments;
      assignments, added := InsertChild(e, conflict);
      ChildTurns(e, conflict, assignments, added);
      ChildLeads(e, conflict, assignments, added);
      ChildWork(e, conflict, assignments, added);
    }

    method InsertChild(e: Element, conflict: Conflict)
      returns (ghost assignments: seq<Assignment>, ghost added: seq<Element>)
      requires Valid() && e.Proper(d) && (forall b :: b in conflict ==> d.Has(b)) && d.OneEach(conflict)
      modifies heap
      ensures Valid() && multiset(heap.arr) == multiset(old(heap.arr)) + multiset(added)
      ensures NewAssignments(e.Proposal(), conflict, assignments) && NoDuplicates(assignments)
      ensures Child(e, assignments, added)
    {
      var c := e.Proposal();
      ValidDomain();
      hide CbfsAgenda.Valid, Fits, Ready, Element.Proper, NewAssignments, NoDuplicates, Domain.OneEach, Domain.Valid;
      var useful := GetNewAssignments(c, conflict);
      assignments, added := useful, [];
      if useful != [] {
        var child := Element(c, Some(useful[0]), useful[1..], 0);
        ChildProper(e, conflict, useful);
        Insert(child);
        added := [Weighed(child)];
      }
    }

    lemma ValidDomain()
      requires Valid()
      ensures d.Valid()
    {
    }

    lemma ReadyProper(e: Element)
      requires Ready(e)
      ensures e.Proper(d)
    {
    }

    lemma BlamesInDomain(conflict: Conflict, c: Candidate, e: Element)
      requires Blames(conflict, c) && e.Proper(d) && c == e.Proposal()
      ensures (forall b :: b in conflict ==> d.Has(b)) && d.OneEach(conflict)
    {
      e.ProposalAdmissible(d);
      d.MakesOneEach(c, conflict);
    }

    /** What has been added will propose each useful resolving assignment exactly once, lightest first. */
    ghost predicate EachResolvingOnce(added: seq<Element>, c: Candidate, conflict: Conflict) {
      if added == [] then forall a :: !(d.Resolves(a, conflict) && d.Useful(a, c))
      else
        && |added| == 1 && added[0].prefix == c && EachOnce(added[0])
        && forall a :: a in Turns(added[0]) <==> d.Resolves(a, conflict) && d.Useful(a, c)
    }

    lemma ChildTurns(e: Element, conflict: Conflict, assignments: seq<Assignment>, added: seq<Element>)
      requires d.Valid() && e.Proper(d) && NewAssignments(e.Proposal(), conflict, assignments)
      requires NoDuplicates(assignments)
      requires Child(e, assignments, added)
      ensures EachResolvingOnce(added, e.Proposal(), conflict)
    {
      var c := e.Proposal();
      hide *;
      UsefulResolving(c, conflict, assignments);
      ChildIs(e, assignments, added);
      if assignments == [] {
        NoChild(c, conflict, added);
      } else {
        ChildProper(e, conflict, assignments);
        ChildOnce(c, conflict, assignments, added);
      }
    }

    lemma ChildIs(e: Element, assignments: seq<Assignment>, added: seq<Element>)
      requires Child(e, assignments, added)
      ensures if assignments == [] then added == []
              else added == [Weighed(Element(e.Proposal(), Some(assignments[0]), assignments[1..], 0))]
    {
      hide Weighed, Element.Proposal;
    }

    lemma NoChild(c: Candidate, conflict: Conflict, added: seq<Element>)
      requires added == [] && forall a :: !(d.Resolves(a, conflict) && d.Useful(a, c))
      ensures EachResolvingOnce(added, c, conflict)
    {
      hide Domain.Resolves, Domain.Useful;
    }

    lemma ChildOnce(c: Candidate, conflict: Conflict, assignments: seq<Assignment>, added: seq<Element>)
      requires assignments != [] && Element(c, Some(assignments[0]), assignments[1..], 0).Proper(d)
      requires added == [Weighed(Element(c, Some(assignments[0]), assignments[1..], 0))]
      requires forall a :: a in assignments && d.Useful(a, c) <==> d.Resolves(a, conflict) && d.Useful(a, c)
      ensures EachResolvingOnce(added, c, conflict)
    {
      var child := added[0];
      assert child.prefix == c && child.current == Some(assignments[0]) && child.remaining == assignments[1..];
      FirstChoice(child, assignments);
      SameProper(Element(c, Some(assignments[0]), assignments[1..], 0));
      ReadyProper(child);
      hide Domain.Resolves, Domain.Useful, Weight, Element.Proper, EachOnce, Turns, Weighed, Ready, Element.Choices;
      EachTurnOnce(child);
      EachOnceMeans(child);
    }

    lemma UsefulResolving(c: Candidate, conflict: Conflict, assignments: seq<Assignment>)
      requires NewAssignments(c, conflict, assignments)
      ensures forall a :: a in assignments && d.Useful(a, c) <==> d.Resolves(a, conflict) && d.Useful(a, c)
      ensures assignments == [] ==> forall a :: !(d.Resolves(a, conflict) && d.Useful(a, c))
    {
      hide Domain.Resolves, Domain.Useful, All, Ascending;
    }

    lemma EachOnceMeans(e: Element)
      requires EachOnce(e)
      ensures forall a :: a in Turns(e) <==> a in e.Choices() && d.Useful(a, e.prefix)
    {
      hide Turns, Domain.Useful, Element.Choices, Weight;
    }

    ghost predicate Child(e: Element, assignments: seq<Assignment>, added: seq<Element>) {
      added ==
        if assignments == [] then []
        else [Weighed(Element(e.Proposal(), Some(assignments[0]), assignments[1..], 0))]
    }

    lemma ChildProper(e: Element, conflict: Conflict, assignments: seq<Assignment>)
      requires d.Valid() && e.Proper(d) && NewAssignments(e.Proposal(), conflict, assignments) && assignments != []
      requires NoDuplicates(assignments)
      ensures Element(e.Proposal(), Some(assignments[0]), assignments[1..], 0).Proper(d)
    {
      e.ProposalAdmissible(d);
      assert [assignments[0]] + assignments[1..] == assignments;
      forall a | a in assignments ensures d.Has(a) {
        assert d.Resolves(a, conflict);
      }
    }

    lemma ChildLeads(e: Element, conflict: Conflict, assignments: seq<Assignment>, added: seq<Element>)
      requires d.Valid() && Ready(e) && Blames(conflict, e.Proposal())
      requires NewAssignments(e.Proposal(), conflict, assignments)
      requires Child(e, assignments, added)
      requires NoDuplicates(assignments)
      ensures Successors(added, e.weight, d.FaultsOnly(e.prefix), Resolving(e.Proposal(), conflict))
    {
      ChildReady(e, conflict, assignments, added);
      hide *;
      forall s | s in Resolving(e.Proposal(), conflict) ensures Leads(d, added, s) {
        ChildReaches(e, conflict, assignments, added, s);
      }
      SuccessorsFrom(added, e.weight, d.FaultsOnly(e.prefix), Resolving(e.Proposal(), conflict));
    }

    lemma ChildReady(e: Element, conflict: Conflict, assignments: seq<Assignment>, added: seq<Element>)
      requires d.Valid() && Ready(e) && NewAssignments(e.Proposal(), conflict, assignments)
      requires Child(e, assignments, added)
      requires NoDuplicates(assignments)
      ensures forall x :: x in added ==>
        Ready(x) && x.weight >= e.weight && (d.FaultsOnly(e.prefix) ==> d.FaultsOnly(x.prefix))
    {
      var c := e.Proposal();
      e.ProposalAdmissible(d);
      if assignments != [] {
        ChildProper(e, conflict, assignments);
        var child := Element(c, Some(assignments[0]), assignments[1..], 0);
        assert child.Proper(d);
        hide Element.Proper, NewAssignments, Weight, Domain.FaultsOnly;
        WeightMore(c, assignments[0]);
        assert added == [Weighed(child)];
        SameProper(child);
      }
    }

    lemma ChildReaches(e: Element, conflict: Conflict, assignments: seq<Assignment>, added: seq<Element>, s: Candidate)
      requires Blames(conflict, e.Proposal()) && NewAssignments(e.Proposal(), conflict, assignments)
      requires Child(e, assignments, added) && s in Resolving(e.Proposal(), conflict)
      ensures Leads(d, added, s)
    {
      hide Weight, Domain.Admissible;
      var a := d.Resolution(e.Proposal(), s, conflict);
      hide Domain.Resolves, Domain.Avoids, Blames;
      assert a in assignments;
      assert added[0].Choices() == assignments;
      assert added[0].LeadsTo(d, s);
    }

    lemma ChildWork(e: Element, conflict: Conflict, assignments: seq<Assignment>, added: seq<Element>)
      requires d.Valid() && Ready(e) && Blames(conflict, e.Proposal())
      requires NewAssignments(e.Proposal(), conflict, assignments)
      requires Child(e, assignments, added)
      ensures TotalWork(d, added) < Steps(d, |e.Proposal()|)
    {
      hide *;
      if assignments == [] {
        NoWork(e, added);
      } else {
        ChildRoom(e, conflict, assignments);
        ConflictLength(conflict, e.Proposal());
        ChildOne(e, assignments, added);
        FewerSteps(|assignments|, |conflict|, |e.Proposal()|);
      }
    }

    lemma NoWork(e: Element, added: seq<Element>)
      requires Child(e, [], added)
      ensures TotalWork(d, added) == 0
    {
    }

    lemma ChildRoom(e: Element, conflict: Conflict, assignments: seq<Assignment>)
      requires d.Valid() && Ready(e) && NewAssignments(e.Proposal(), conflict, assignments) && assignments != []
      ensures |e.Proposal()| < |d.values| && |assignments| <= |conflict| * |All(d.values)|
    {
      e.ProposalAdmissible(d);
      assert assignments[0] in assignments && d.Resolves(assignments[0], conflict);
      hide All, Weight, Element.Proper, Domain.Admissible;
      d.AdmissibleMore(e.Proposal(), assignments[0]);
    }

    lemma ChildOne(e: Element, assignments: seq<Assignment>, added: seq<Element>)
      requires assignments != [] && Child(e, assignments, added)
      ensures TotalWork(d, added) == |assignments| * Steps(d, |e.Proposal()| + 1)
    {
      hide Steps;
      TotalWorkMore(d, [], added[0]);
      assert [] + added == added;
    }

    lemma ConflictLength(conflict: Conflict, c: Candidate)
      requires Blames(conflict, c)
      ensures |conflict| <= |All(d.values)|
    {
      forall b | b in conflict ensures b in All(d.values) {
        assert d.Has(b);
        AllHasValue(d.values, b.variable, b);
      }
      NoDuplicatesLength(conflict, All(d.values));
    }

    lemma FewerSteps(l: nat, k: nat, m: nat)
      requires m < |d.values| && l <= k * |All(d.values)| && k <= |All(d.values)|
      ensures l * Steps(d, m + 1) < Steps(d, m)
    {
      StepsBelow(d, m);
      hide *;
      Products(l, k, |All(d.values)|, Steps(d, m + 1));
    }

    lemma Products(l: nat, k: nat, n: nat, steps: nat)
      requires l <= k * n && k <= n
      ensures l * steps <= n * n * steps
    {
      assert k * n <= n * n;
    }

    /** The element with its first useful remaining assignment instead of the current one. */
    ghost function Next(e: Element): Option<Element> {
      var rest := Dropped(e.remaining, e.prefix);
      if rest == [] then None else Some(Weighed(Element(e.prefix, Some(rest[0]), rest[1..], e.weight)))
    }

    /** The assignments that an element proposes when it is shifted again and again. */
    ghost function Turns(e: Element): seq<Assignment>
      decreases |e.remaining|
    {
      (if e.current.Some? then [e.current.value] else []) +
      if Next(e).None? then [] else Turns(Next(e).value)
    }

    /** The candidates that it proposes. */
    ghost function Proposals(e: Element): seq<Candidate>
      decreases |e.remaining|
    {
      [e.Proposal()] + if Next(e).None? then [] else Proposals(Next(e).value)
    }

    /** Shifting proposes every useful extension of the prefix by one of the choices exactly once, lightest first. */
    ghost predicate EachOnce(e: Element) {
      && NoDuplicates(Turns(e)) && Ascending(Turns(e))
      && (forall a :: a in Turns(e) <==> a in e.Choices() && d.Useful(a, e.prefix))
      && |Proposals(e)| == |Turns(e)|
      && (forall i :: 0 <= i < |Turns(e)| ==> Proposals(e)[i] == e.prefix + [Turns(e)[i]])
      && NoDuplicates(Proposals(e))
      && (forall i, j :: 0 <= i < j < |Proposals(e)| ==> Weight(Proposals(e)[i]) <= Weight(Proposals(e)[j]))
    }

    lemma NextProper(e: Element)
      requires e.Proper(d) && Next(e).Some?
      ensures Next(e).value.Proper(d) && Next(e).value.prefix == e.prefix && Next(e).value.current.Some?
      ensures Next(e).value.Choices() == Dropped(e.remaining, e.prefix)
    {
      var rest := Dropped(e.remaining, e.prefix);
      SiblingProper(e, rest);
      hide Dropped, Element.Proper, Weight;
      var sibling := Element(e.prefix, Some(rest[0]), rest[1..], e.weight);
      FirstChoice(sibling, rest);
      SameProper(sibling);
      FirstChoice(Weighed(sibling), rest);
    }

    /** Which assignments get their turn, and in which order. */
    lemma {:induction false} TurnsInOrder(e: Element)
      requires e.Proper(d) && e.current.Some?
      ensures NoDuplicates(Turns(e)) && Ascending(Turns(e))
      ensures forall a :: a in Turns(e) <==> a in e.Choices() && d.Useful(a, e.prefix)
      ensures |Proposals(e)| == |Turns(e)|
      ensures forall i :: 0 <= i < |Turns(e)| ==> Proposals(e)[i] == e.prefix + [Turns(e)[i]]
      decreases |e.remaining|
    {
      FirstTurn(e);
      hide Weight, Domain.Useful, Dropped;
      if Next(e).Some? {
        var n := Next(e).value;
        NextProper(e);
        hide Element.Proper;
        assert Proposals(e) == [e.prefix + [e.current.value]] + Proposals(n);
        TurnsInOrder(n);
        hide *;
        FirstOfTurns(e, Turns(n), Proposals(n));
      }
    }

    /** What comes first, and that the useful ones of the others are left. */
    lemma FirstTurn(e: Element)
      requires e.Proper(d) && e.current.Some?
      ensures Turns(e) == [e.current.value] + if Next(e).None? then [] else Turns(Next(e).value)
      ensures d.Useful(e.current.value, e.prefix) && e.current.value in e.Choices()
      ensures forall a :: a in e.Choices() && d.Useful(a, e.prefix) <==>
        a == e.current.value || (a in Dropped(e.remaining, e.prefix) && d.Useful(a, e.prefix))
      ensures forall a :: a in Dropped(e.remaining, e.prefix) ==>
        a != e.current.value && e.current.value.weight <= a.weight
      ensures Next(e).None? <==> Dropped(e.remaining, e.prefix) == []
    {
      OtherChoices(e);
      hide Weight, Domain.Useful, Dropped, Element.Proper;
    }

    lemma OtherChoices(e: Element)
      requires e.Proper(d) && e.current.Some?
      ensures d.Useful(e.current.value, e.prefix) && e.current.value in e.Choices()
      ensures forall a :: a in e.Choices() && d.Useful(a, e.prefix) <==>
        a == e.current.value || (a in Dropped(e.remaining, e.prefix) && d.Useful(a, e.prefix))
      ensures forall a :: a in Dropped(e.remaining, e.prefix) ==>
        a != e.current.value && e.current.value.weight <= a.weight
    {
      var rest := Dropped(e.remaining, e.prefix);
      assert forall a :: a in e.Choices() <==> a == e.current.value || a in e.remaining;
      LaterChoices(e);
      hide Weight, Domain.Useful, Dropped, Domain.Admissible, Domain.Has, Ascending, NoDuplicates, Element.Choices;
      forall a | a in e.remaining && d.Useful(a, e.prefix) ensures a in rest {
        StillThere(e.remaining, e.prefix, a);
      }
    }

    lemma LaterChoices(e: Element)
      requires e.Proper(d) && e.current.Some?
      ensures forall a :: a in Dropped(e.remaining, e.prefix) ==>
        a in e.remaining && a != e.current.value && e.current.value.weight <= a.weight
    {
      var k := DroppedIs(e.remaining, e.prefix);
      var rest := Dropped(e.remaining, e.prefix);
      hide Weight, Domain.Useful, Dropped, Domain.Admissible, Domain.Has;
      forall a | a in rest ensures a in e.remaining && a != e.current.value && e.current.value.weight <= a.weight {
        var i :| 0 <= i < |rest| && rest[i] == a;
        assert e.Choices()[i + k + 1] == a && e.Choices()[0] == e.current.value;
      }
    }

    lemma FirstOfTurns(e: Element, turns: seq<Assignment>, proposals: seq<Candidate>)
      requires e.current.Some? && NoDuplicates(turns) && Ascending(turns)
      requires forall a :: a in turns ==> a != e.current.value && e.current.value.weight <= a.weight
      requires |proposals| == |turns| && forall i :: 0 <= i < |turns| ==> proposals[i] == e.prefix + [turns[i]]
      ensures NoDuplicates([e.current.value] + turns) && Ascending([e.current.value] + turns)
      ensures forall i :: 0 <= i <= |turns| ==>
        ([e.prefix + [e.current.value]] + proposals)[i] == e.prefix + [([e.current.value] + turns)[i]]
    {
    }

    lemma EachTurnOnce(e: Element)
      requires e.Proper(d) && e.current.Some?
      ensures EachOnce(e)
    {
      TurnsInOrder(e);
      hide Turns, Proposals, Weight, Domain.Useful, Element.Proper, Element.Choices;
      forall i, j | 0 <= i < j < |Turns(e)|
        ensures Proposals(e)[i] != Proposals(e)[j] && Weight(Proposals(e)[i]) <= Weight(Proposals(e)[j])
      {
        WeightMore(e.prefix, Turns(e)[i]);
        WeightMore(e.prefix, Turns(e)[j]);
        assert (e.prefix + [Turns(e)[i]])[|e.prefix|] != (e.prefix + [Turns(e)[j]])[|e.prefix|];
      }
    }

    /** The next useful assignment instead of the current one. */
    method AddSibling(e: Element) returns (ghost added: seq<Element>)
      requires Valid() && Ready(e)
      modifies heap
      ensures Valid() && multiset(heap.arr) == multiset(old(heap.arr)) + multiset(added)
      ensures added == if Next(e).None? then [] else [Next(e).value]
      ensures e.current.Some? ==> EachOnce(e)
      ensures Successors(added, e.weight, d.FaultsOnly(e.prefix), Later(e))
      ensures TotalWork(d, added) <= |e.remaining| * Steps(d, |e.prefix| + 1)
    {
      ReadyProper(e);
      hide Valid, Ready, Domain.Useful, Dropped, Weight, Steps, TotalWork, Successors, Later, Weighed, Element.Proper;
      hide EachOnce, Turns, Proposals;
      var rest := PopUselessAssignments(e.remaining, e.prefix);
      added := [];
      if rest != [] {
        SiblingProper(e, rest);
        var sibling := Element(e.prefix, Some(rest[0]), rest[1..], e.weight);
        Insert(sibling);
        added := [Weighed(sibling)];
      }
      SiblingLeads(e, rest, added);
      if e.current.Some? { EachTurnOnce(e); }
    }

    ghost predicate Sibling(e: Element, rest: seq<Assignment>, added: seq<Element>) {
      added == if rest == [] then [] else [Weighed(Element(e.prefix, Some(rest[0]), rest[1..], e.weight))]
    }

    lemma SiblingProper(e: Element, rest: seq<Assignment>)
      requires e.Proper(d) && rest == Dropped(e.remaining, e.prefix) && rest != []
      ensures Element(e.prefix, Some(rest[0]), rest[1..], e.weight).Proper(d)
      ensures e.current.Some? && e.current.value.weight <= rest[0].weight
    {
      var k := DroppedIs(e.remaining, e.prefix);
      hide Dropped, Domain.Admissible, Domain.Has, Domain.Useful, Weight, Ascending, NoDuplicates, Element.Choices;
      RestOfChoices(e, rest, k);
      var sibling := Element(e.prefix, Some(rest[0]), rest[1..], e.weight);
      FirstChoice(sibling, rest);
    }

    lemma RestOfChoices(e: Element, rest: seq<Assignment>, k: nat)
      requires e.current.Some? && k < |e.remaining| && rest == e.remaining[k..]
      requires Ascending(e.Choices()) && NoDuplicates(e.Choices())
      ensures Ascending(rest) && NoDuplicates(rest) && e.current.value.weight <= rest[0].weight
      ensures forall a :: a in rest ==> a in e.Choices()
    {
      assert e.Choices()[0] == e.current.value;
      assert forall i :: 0 <= i < |rest| ==> rest[i] == e.Choices()[i + k + 1];
    }

    lemma FirstChoice(e: Element, choices: seq<Assignment>)
      requires choices != [] && e.current == Some(choices[0]) && e.remaining == choices[1..]
      ensures e.Choices() == choices
    {
    }

    lemma SiblingLeads(e: Element, rest: seq<Assignment>, added: seq<Element>)
      requires Ready(e) && rest == Dropped(e.remaining, e.prefix) && Sibling(e, rest, added)
      ensures Successors(added, e.weight, d.FaultsOnly(e.prefix), Later(e))
      ensures TotalWork(d, added) <= |e.remaining| * Steps(d, |e.prefix| + 1)
    {
      SiblingReady(e, rest, added);
      SiblingWork(e, rest, added);
      hide *;
      forall s | s in Later(e) ensures Leads(d, added, s) {
        SiblingReaches(e, rest, added, s);
      }
      SuccessorsFrom(added, e.weight, d.FaultsOnly(e.prefix), Later(e));
    }

    lemma SuccessorsFrom(added: seq<Element>, w: nat, faults: bool, from: iset<Candidate>)
      requires forall x :: x in added ==> Ready(x) && x.weight >= w && (faults ==> d.FaultsOnly(x.prefix))
      requires forall s :: s in from ==> Leads(d, added, s)
      ensures Successors(added, w, faults, from)
    {
    }

    lemma SiblingReady(e: Element, rest: seq<Assignment>, added: seq<Element>)
      requires Ready(e) && rest == Dropped(e.remaining, e.prefix) && Sibling(e, rest, added)
      ensures forall x :: x in added ==>
        Ready(x) && x.weight >= e.weight && (d.FaultsOnly(e.prefix) ==> d.FaultsOnly(x.prefix))
    {
      if rest != [] {
        SiblingProper(e, rest);
        var sibling := Element(e.prefix, Some(rest[0]), rest[1..], e.weight);
        assert sibling.Proper(d);
        hide Element.Proper, Dropped, Weight;
        WeightMore(e.prefix, rest[0]);
        WeightMore(e.prefix, e.current.value);
        assert added == [Weighed(sibling)];
        SameProper(sibling);
      }
    }

    lemma SameProper(e: Element)
      requires e.Proper(d)
      ensures Ready(Weighed(e))
    {
      assert Weighed(e).Choices() == e.Choices();
      hide Domain.Admissible, Domain.Useful, Weight, Ascending, Element.Choices;
    }

    lemma SiblingWork(e: Element, rest: seq<Assignment>, added: seq<Element>)
      requires rest == Dropped(e.remaining, e.prefix) && Sibling(e, rest, added)
      ensures TotalWork(d, added) <= |e.remaining| * Steps(d, |e.prefix| + 1)
    {
      hide Dropped, Domain.Useful, Weight;
      if rest != [] {
        TotalWorkMore(d, [], added[0]);
        assert [] + added == added && 1 + |rest[1..]| <= |e.remaining|;
        Monotone(1 + |rest[1..]|, |e.remaining|, Steps(d, |e.prefix| + 1));
      }
    }

    lemma SiblingReaches(e: Element, rest: seq<Assignment>, added: seq<Element>, s: Candidate)
      requires rest == Dropped(e.remaining, e.prefix) && Sibling(e, rest, added) && s in Later(e)
      ensures Leads(d, added, s)
    {
      hide Weight, Dropped, Domain.Admissible;
      var a :| a in e.remaining && a in s && a !in e.prefix && !d.IsDefault(a);
      d.OpenVariable(e.prefix, s, a);
      StillThere(e.remaining, e.prefix, a);
      FirstChoice(added[0], rest);
      assert added[0].LeadsTo(d, s);
    }

    lemma Monotone(i: nat, j: nat, n: nat)
      requires i <= j
      ensures i * n <= j * n
    {
    }

    /** CBFSAgenda::expand_element: nothing that the popped element leads to and that avoids the conflict is lost. */
    method ExpandElement(conflict: Option<Conflict>) returns (ghost added: seq<Element>)
      requires Valid() && lastPopped.Some? && Ready(lastPopped.value)
      requires conflict.Some? ==> Blames(conflict.value, lastPopped.value.Proposal())
      modifies heap
      ensures Valid() && multiset(heap.arr) == multiset(old(heap.arr)) + multiset(added)
      ensures var e := lastPopped.value;
              && Successors(added, e.weight, d.FaultsOnly(e.prefix), Pursued(e, conflict))
              && TotalWork(d, added) < Work(d, e)
    {
      hide *;
      added := Expand(lastPopped.value, conflict);
    }

    method Expand(e: Element, conflict: Option<Conflict>) returns (ghost added: seq<Element>)
      requires Valid() && Ready(e) && (conflict.Some? ==> Blames(conflict.value, e.Proposal()))
      modifies heap
      ensures Valid() && multiset(heap.arr) == multiset(old(heap.arr)) + multiset(added)
      ensures Successors(added, e.weight, d.FaultsOnly(e.prefix), Pursued(e, conflict))
      ensures TotalWork(d, added) < Work(d, e)
    {
      hide *;
      ghost var child: seq<Element> := [];
      if conflict.Some? {
        child := AddChild(e, conflict.value);
      }
      ghost var sibling := AddSibling(e);
      added := child + sibling;
      Together(e, conflict, child, sibling);
    }

    /** What the element leads to, unless it contains the proposal and the proposal is not in conflict with the
        theory. */
    ghost function Pursued(e: Element, conflict: Option<Conflict>): iset<Candidate> {
      iset s | && d.Admissible(s) && e.LeadsTo(d, s)
               && if conflict.Some? then d.Avoids(s, conflict.value) else !Within(e.Proposal(), s)
    }

    lemma Together(e: Element, conflict: Option<Conflict>, child: seq<Element>, sibling: seq<Element>)
      requires Ready(e)
      requires conflict.None? ==> child == []
      requires conflict.Some? ==>
        Successors(child, e.weight, d.FaultsOnly(e.prefix), Resolving(e.Proposal(), conflict.value))
      requires conflict.Some? ==> TotalWork(d, child) < Steps(d, |e.Proposal()|)
      requires Successors(sibling, e.weight, d.FaultsOnly(e.prefix), Later(e))
      requires TotalWork(d, sibling) <= |e.remaining| * Steps(d, |e.prefix| + 1)
      ensures Successors(child + sibling, e.weight, d.FaultsOnly(e.prefix), Pursued(e, conflict))
      ensures TotalWork(d, child + sibling) < Work(d, e)
      ensures multiset(child + sibling) == multiset(child) + multiset(sibling)
    {
      TotalWorkBoth(d, child, sibling);
      WorkLeft(e, TotalWork(d, child), TotalWork(d, sibling));
      hide *;
      var resolving := if conflict.Some? then Resolving(e.Proposal(), conflict.value) else iset{};
      if conflict.None? { NoSuccessors(e.weight, d.FaultsOnly(e.prefix)); }
      forall s | s in Pursued(e, conflict) ensures s in resolving + Later(e) {
        BranchOf(e, conflict, s);
      }
      SuccessorsBoth(child, sibling, e.weight, d.FaultsOnly(e.prefix), resolving, Later(e), Pursued(e, conflict));
    }

    lemma NoSuccessors(w: nat, faults: bool)
      ensures Successors([], w, faults, iset{})
    {
    }

    lemma SuccessorsBoth(es: seq<Element>, fs: seq<Element>, w: nat, faults: bool, a: iset<Candidate>,
                         b: iset<Candidate>, c: iset<Candidate>)
      requires Successors(es, w, faults, a) && Successors(fs, w, faults, b) && c <= a + b
      ensures Successors(es + fs, w, faults, c)
    {
      hide Ready, Element.LeadsTo;
    }

    lemma WorkLeft(e: Element, child: nat, sibling: nat)
      requires Ready(e) && child < Steps(d, |e.Proposal()|) && sibling <= |e.remaining| * Steps(d, |e.prefix| + 1)
      ensures child + sibling < Work(d, e)
    {
      hide Steps, Weight, Domain.Admissible, Domain.Useful;
      if e.current.Some? {
        Distribute(|e.remaining|, Steps(d, |e.prefix| + 1));
      }
    }

    static lemma Distribute(n: nat, steps: nat)
      ensures (1 + n) * steps == steps + n * steps
    {
    }

    lemma BranchOf(e: Element, conflict: Option<Conflict>, s: Candidate)
      requires s in Pursued(e, conflict)
      ensures s in Later(e) || (conflict.Some? && s in Resolving(e.Proposal(), conflict.value))
    {
      if e.current.Some? {
        var a :| a in e.Choices() && a in s && a !in e.prefix && !d.IsDefault(a);
        assert a == e.current.value || a in e.remaining;
      }
    }
  }

  lemma {:induction false} TotalWorkBoth(d: Domain, es: seq<Element>, fs: seq<Element>)
    ensures TotalWork(d, es + fs) == TotalWork(d, es) + TotalWork(d, fs)
  {
    if fs == [] {
      assert es + fs == es;
    } else {
      var n := |fs| - 1;
      TotalWorkBoth(d, es, fs[..n]);
      assert (es + fs)[..|es| + n] == es + fs[..n];
    }
  }
}
