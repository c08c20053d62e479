/** Why the conflicts of the truth maintenance system may guide the search. */
module Consistency {
  import opened Logic
  import opened Options
  import opened Search
  import opened Sequences
  import Tms

  /** The unit clauses that assert the values a candidate gives to all variables, defaults included. */
  ghost function World(d: Domain, s: Candidate, prop: Assignment -> nat): set<Disjunction> {
    set a | a in All(d.values) && d.Makes(s, a) :: [Literal(prop(a), true)]
  }

  ghost function Units(conflict: Conflict, prop: Assignment -> nat): set<Disjunction> {
    set a | a in conflict :: [Literal(prop(a), true)]
  }

  /** Some model of the background makes everything true that the candidate asserts. */
  ghost predicate Possible(d: Domain, s: Candidate, prop: Assignment -> nat, background: set<Disjunction>) {
    !Unsatisfiable(background + World(d, s, prop))
  }

  lemma MadeInDomain(d: Domain, s: Candidate, a: Assignment)
    requires d.Admissible(s) && d.Makes(s, a)
    ensures d.Has(a) && a in All(d.values)
  {
    assert d.Has(a);
    AllHasValue(d.values, a.variable, a);
  }

  /** What a possible candidate makes does not contradict the background. */
  lemma MadeIsSatisfiable(d: Domain, s: Candidate, prop: Assignment -> nat, background: set<Disjunction>,
                          conflict: Conflict)
    requires d.Admissible(s) && Possible(d, s, prop, background) && forall a :: a in conflict ==> d.Makes(s, a)
    ensures !Unsatisfiable(background + Units(conflict, prop))
  {
    var m: Model :| ModelOf(m, background + World(d, s, prop));
    forall a | a in conflict ensures [Literal(prop(a), true)] in World(d, s, prop) {
      MadeInDomain(d, s, a);
    }
    assert ModelOf(m, background + Units(conflict, prop));
  }

  /** A conflict that contradicts the background rules out no possible candidate. */
  lemma PossibleAvoids(d: Domain, s: Candidate, prop: Assignment -> nat, background: set<Disjunction>,
                       conflict: Conflict)
    requires d.Admissible(s) && Possible(d, s, prop, background)
    requires Unsatisfiable(background + Units(conflict, prop))
    ensures d.Avoids(s, conflict)
  {
    hide Possible, Unsatisfiable, Domain.Admissible;
    if forall a :: a in conflict ==> d.Makes(s, a) {
      MadeIsSatisfiable(d, s, prop, background, conflict);
    }
  }

  // ---------- what the truth maintenance system answers ----------

  /** A conflict in answer to a question about a candidate: assignments that it makes, each once, that contradict the
      background. */
  ghost predicate Sound(d: Domain, prop: Assignment -> nat, background: set<Disjunction>, c: Candidate,
                        answer: Option<Conflict>) {
    answer.Some? ==>
      && NoDuplicates(answer.value) && (forall b :: b in answer.value ==> d.Has(b) && d.Makes(c, b))
      && Unsatisfiable(background + Units(answer.value, prop))
  }

  /** The part of Conflict_db that asks the LTMS about the assumptions: every value of a variable has a unit clause, and
      that of its current value is in the theory. The datum of the clause numbers the assignment, from one. */
  class ConflictDb {
    const d: Domain
    const ltms: Tms.Ltms
    const assertions: seq<Tms.Clause>
    var current: seq<Option<nat>>

    constructor (d: Domain, ltms: Tms.Ltms, assertions: seq<Tms.Clause>)
      requires d.Valid() && |assertions| == |All(d.values)| && Listed(ltms, assertions)
      requires forall k :: 0 <= k < |assertions| ==> Numbered(assertions, k) && assertions[k].deleted
      ensures this.d == d && this.ltms == ltms && this.assertions == assertions
      ensures Connected() && (ltms.trues == {} ==> Unaided())
    {
      this.d, this.ltms, this.assertions := d, ltms, assertions;
      current := seq(|d.values|, v => None);
    }

    /** The numbered clauses of the system are these. */
    static ghost predicate Listed(ltms: Tms.Ltms, assertions: seq<Tms.Clause>)
      reads ltms`clauses
    {
      && (forall k :: 0 <= k < |assertions| ==> assertions[k] in ltms.clauses)
      && (forall c :: c in ltms.clauses && c.datum > 0 ==> c.datum <= |assertions| && assertions[c.datum - 1] == c)
    }

    static ghost predicate Numbered(assertions: seq<Tms.Clause>, k: nat)
      requires k < |assertions|
    {
      && assertions[k].datum == k + 1 && assertions[k].isVolatile
      && |assertions[k].lits| == 1 && assertions[k].lits[0].positive
    }

    /** The part of the constructor of Assignable that creates a clause for every assignment, outside the theory. */
    static method CreateAssertions(ltms: Tms.Ltms, props: seq<Tms.Proposition>) returns (assertions: seq<Tms.Clause>)
      requires ltms.Usable({}) && (forall p :: p in props ==> p in ltms.props)
      requires forall c :: c in ltms.clauses ==> c.datum == 0
      modifies ltms`clauses, ltms`unsatisfied, ltms.fringe, ltms.volatileFringe
      modifies ltms.props`positive, ltms.props`negative
      ensures ltms.Usable({}) && old(ltms.clauses) <= ltms.clauses && ltms.Theory() == old(ltms.Theory())
      ensures |assertions| == |props| && Listed(ltms, assertions)
      ensures forall k :: 0 <= k < |assertions| ==> Numbered(assertions, k) && assertions[k].deleted
    {
      assertions := [];
      hide Tms.Ltms.Usable, Tms.Ltms.Founded, Tms.Ltms.Theory;
      for k := 0 to |props|
        invariant ltms.Usable({}) && old(ltms.clauses) <= ltms.clauses && ltms.Theory() == old(ltms.Theory())
        invariant |assertions| == k && Listed(ltms, assertions)
        invariant forall j :: 0 <= j < k ==> Numbered(assertions, j) && assertions[j].deleted
      {
        var c := CreateAssertion(ltms, props[k], k + 1);
        assertions := assertions + [c];
      }
    }

    static method CreateAssertion(ltms: Tms.Ltms, p: Tms.Proposition, number: nat) returns (c: Tms.Clause)
      requires ltms.Usable({}) && p in ltms.props
      modifies ltms`clauses, ltms`unsatisfied, ltms.fringe, ltms.volatileFringe
      modifies ltms.props`positive, ltms.props`negative
      ensures ltms.Usable({}) && fresh(c) && ltms.clauses == old(ltms.clauses) + [c]
      ensures ltms.Theory() == old(ltms.Theory())
      ensures c.datum == number && c.isVolatile && c.deleted && |c.lits| == 1 && c.lits[0] == Literal(p.id, true)
    {
      ltms.DistinctOne(p);
      hide Tms.Ltms.Usable, Tms.Ltms.Founded, Tms.Ltms.Theory, Distinct;
      c := ltms.CreateClause([p], [], true, number, false, {});
    }

    /** How many values come before this one. */
    function Place(a: Assignment): nat
      requires a.variable < |d.values|
    {
      |All(d.values[..a.variable])| + a.index
    }

    lemma {:induction false} PlaceIn(values: seq<seq<Assignment>>, v: nat, i: nat)
      requires v < |values| && i < |values[v]|
      ensures |All(values[..v])| + i < |All(values)| && All(values)[|All(values[..v])| + i] == values[v][i]
    {
      var n := |values| - 1;
      if v < n {
        PlaceIn(values[..n], v, i);
        assert values[..n][..v] == values[..v];
      }
    }

    lemma {:induction false} PlaceFrom(values: seq<seq<Assignment>>, k: nat) returns (v: nat, i: nat)
      requires k < |All(values)|
      ensures v < |values| && i < |values[v]| && All(values)[k] == values[v][i] && k == |All(values[..v])| + i
    {
      var n := |values| - 1;
      if k < |All(values[..n])| {
        v, i := PlaceFrom(values[..n], k);
        assert values[..n][..v] == values[..v];
      } else {
        v, i := n, k - |All(values[..n])|;
      }
    }

    lemma PlaceOf(a: Assignment)
      requires d.Valid() && d.Has(a)
      ensures a.index < |d.values[a.variable]| && d.values[a.variable][a.index] == a
      ensures Place(a) < |All(d.values)| && All(d.values)[Place(a)] == a
    {
      PlaceIn(d.values, a.variable, a.index);
    }

    /** The numbers and the assignments of the domain determine each other. */
    lemma NumberOf(k: nat)
      requires d.Valid() && k < |All(d.values)|
      ensures d.Has(All(d.values)[k]) && Place(All(d.values)[k]) == k
    {
      var v, i := PlaceFrom(d.values, k);
    }

    lemma NumbersDistinct(a: Assignment)
      requires d.Valid() && d.Has(a)
      ensures forall k :: 0 <= k < |All(d.values)| ==>
        d.Has(All(d.values)[k]) && (k == Place(a) <==> SameValue(All(d.values)[k], a))
    {
      PlaceOf(a);
      hide All, Domain.Valid;
      forall k | 0 <= k < |All(d.values)|
        ensures d.Has(All(d.values)[k]) && (k == Place(a) <==> SameValue(All(d.values)[k], a))
      {
        NumberOf(k);
      }
    }

    static predicate SameValue(a: Assignment, b: Assignment) {
      a.variable == b.variable && a.index == b.index
    }

    /** The proposition that an assignment stands for. */
    ghost function Prop(a: Assignment): nat {
      if a.variable < |d.values| && Place(a) < |assertions| && |assertions[Place(a)].lits| == 1
      then assertions[Place(a)].lits[0].prop else 0
    }

    ghost predicate Asserts(a: Assignment)
      reads this`current
    {
      a.variable < |current| && current[a.variable] == Some(a.index)
    }

    /** The numbers of the assignments whose clauses are in the theory. */
    ghost function InTheory(): set<nat>
      reads assertions`deleted
    {
      set k | 0 <= k < |assertions| && !assertions[k].deleted
    }

    lemma InTheoryMeans()
      ensures forall k :: k in InTheory() <==> 0 <= k < |assertions| && !assertions[k].deleted
    {
    }

    lemma InTheoryIs(numbers: set<nat>)
      requires forall k: nat :: k in numbers <==> k < |assertions| && !assertions[k].deleted
      ensures InTheory() == numbers
    {
    }

    /** Every value of the domain has its clause, numbered in the datum. */
    ghost predicate Numbering()
      reads ltms`clauses
    {
      && d.Valid() && |assertions| == |All(d.values)| && Listed(ltms, assertions)
      && forall k :: 0 <= k < |assertions| ==> Numbered(assertions, k)
    }

    /** The clauses in the theory are those of the current values. */
    ghost predicate Reflects(numbers: set<nat>)
      reads this`current
    {
      && |current| == |d.values|
      && (forall v :: 0 <= v < |current| && current[v].Some? ==> current[v].value < |d.values[v]|)
      && forall k :: 0 <= k < |All(d.values)| ==> (k in numbers <==> Asserts(All(d.values)[k]))
    }

    ghost predicate Connected()
      reads this`current, ltms`clauses, assertions`deleted
    {
      Numbering() && Reflects(InTheory())
    }

    /** Conflict_db::is_assumption */
    static predicate IsAssumption(c: Tms.Clause) { c.datum > 0 }

    ghost function Background(): set<Disjunction>
      reads ltms`clauses, ltms.clauses`deleted
    {
      ltms.Background(IsAssumption)
    }

    /** No value of the system comes from a volatile clause; so it is before the first question. */
    ghost predicate Unaided()
      reads ltms`trues, ltms`props, ltms.props`supportedBy
    {
      ltms.FromLasting({}, {})
    }

    method RemoveOnly(c: Tms.Clause)
      requires ltms.Usable({}) && c in ltms.clauses && IsAssumption(c)
      modifies ltms`unsatisfied, ltms`undoList, ltms`trues, ltms.fringe, ltms.volatileFringe
      modifies ltms.props`tv, ltms.props`supportedBy
      modifies ltms.clauses`deleted, ltms.clauses`supports, ltms.clauses`satisfyingProp, ltms.clauses`numUnassigned
      modifies ltms.clauses`unsatisfied, ltms.clauses`inFringe, ltms.clauses`fringeIndex
      ensures ltms.Usable({}) && c.deleted && forall b :: b in ltms.clauses && b != c ==> b.deleted == old(b.deleted)
      ensures Background() == old(Background())
      ensures old(Unaided()) ==> Unaided()
    {
      hide Tms.Ltms.Usable, Tms.Ltms.Founded, Tms.Ltms.Theory, Tms.Ltms.FromLasting;
      ltms.RemoveSparing(c);
    }

    method AddOnly(c: Tms.Clause)
      requires ltms.Usable({}) && c in ltms.clauses && IsAssumption(c)
      modifies ltms`unsatisfied, ltms`undoList, ltms`trues, ltms.fringe, ltms.volatileFringe
      modifies ltms.props`tv, ltms.props`supportedBy
      modifies ltms.clauses`deleted, ltms.clauses`supports, ltms.clauses`satisfyingProp, ltms.clauses`numUnassigned
      modifies ltms.clauses`unsatisfied, ltms.clauses`inFringe, ltms.clauses`fringeIndex
      ensures ltms.Usable({}) && !c.deleted && forall b :: b in ltms.clauses && b != c ==> b.deleted == old(b.deleted)
      ensures Background() == old(Background())
      ensures old(Unaided()) ==> Unaided()
    {
      hide Tms.Ltms.Usable, Tms.Ltms.Founded, Tms.Ltms.RestsOn, Tms.Ltms.Undisturbed, Tms.Ltms.Theory;
      ltms.Add(c, {});
    }

    /** No assertion is a clause of the background, and no other one is that with number k. */
    lemma AssertionApart(k: nat)
      requires Numbering() && k < |assertions|
      ensures assertions[k] in ltms.clauses && IsAssumption(assertions[k])
      ensures forall j :: 0 <= j < |assertions| && j != k ==>
        assertions[j] in ltms.clauses && assertions[j] != assertions[k]
    {
      hide Domain.Valid, All;
      assert Numbered(assertions, k);
      forall j | 0 <= j < |assertions| && j != k
        ensures assertions[j] in ltms.clauses && assertions[j] != assertions[k]
      {
        assert Numbered(assertions, j);
      }
    }

    /** Take the clause with this number out of the theory. */
    method Withdraw(k: nat)
      requires Numbering() && ltms.Usable({}) && k < |assertions|
      modifies ltms`unsatisfied, ltms`undoList, ltms`trues, ltms.fringe, ltms.volatileFringe
      modifies ltms.props`tv, ltms.props`supportedBy
      modifies ltms.clauses`deleted, ltms.clauses`supports, ltms.clauses`satisfyingProp, ltms.clauses`numUnassigned
      modifies ltms.clauses`unsatisfied, ltms.clauses`inFringe, ltms.clauses`fringeIndex
      ensures ltms.Usable({}) && Background() == old(Background()) && InTheory() == old(InTheory()) - {k}
      ensures old(Unaided()) ==> Unaided()
    {
      ghost var before := InTheory();
      hide *;
      AssertionApart(k);
      InTheoryMeans();
      RemoveOnly(assertions[k]);
      InTheoryIs(before - {k});
    }

    method Assert(k: nat)
      requires Numbering() && ltms.Usable({}) && k < |assertions|
      modifies ltms`unsatisfied, ltms`undoList, ltms`trues, ltms.fringe, ltms.volatileFringe
      modifies ltms.props`tv, ltms.props`supportedBy
      modifies ltms.clauses`deleted, ltms.clauses`supports, ltms.clauses`satisfyingProp, ltms.clauses`numUnassigned
      modifies ltms.clauses`unsatisfied, ltms.clauses`inFringe, ltms.clauses`fringeIndex
      ensures ltms.Usable({}) && Background() == old(Background()) && InTheory() == old(InTheory()) + {k}
      ensures old(Unaided()) ==> Unaided()
    {
      ghost var before := InTheory();
      hide *;
      AssertionApart(k);
      InTheoryMeans();
      AddOnly(assertions[k]);
      InTheoryIs(before + {k});
    }

    /** Assignable::unassign */
    method Unassign(v: nat)
      requires Connected() && ltms.Usable({}) && v < |current|
      modifies this`current, ltms`unsatisfied, ltms`undoList, ltms`trues, ltms.fringe, ltms.volatileFringe
      modifies ltms.props`tv, ltms.props`supportedBy
      modifies ltms.clauses`deleted, ltms.clauses`supports, ltms.clauses`satisfyingProp, ltms.clauses`numUnassigned
      modifies ltms.clauses`unsatisfied, ltms.clauses`inFringe, ltms.clauses`fringeIndex
      ensures Connected() && ltms.Usable({}) && Background() == old(Background())
      ensures current == old(current)[v := None]
      ensures old(Unaided()) ==> Unaided()
    {
      hide Tms.Ltms.Usable, Unaided, Background, All, InTheory, Place, Listed, Numbered;
      if current[v].Some? {
        var a := d.values[v][current[v].value];
        assert d.Has(a) && SameValue(a, Assignment(v, current[v].value, 0));
        PlaceOf(a);
        NumbersDistinct(a);
        hide Domain.Valid, Domain.Has;
        Withdraw(Place(a));
        current := current[v := None];
      }
    }

    /** Assignable::assign */
    method Assign(a: Assignment)
      requires Connected() && ltms.Usable({}) && d.Has(a)
      modifies this`current, ltms`unsatisfied, ltms`undoList, ltms`trues, ltms.fringe, ltms.volatileFringe
      modifies ltms.props`tv, ltms.props`supportedBy
      modifies ltms.clauses`deleted, ltms.clauses`supports, ltms.clauses`satisfyingProp, ltms.clauses`numUnassigned
      modifies ltms.clauses`unsatisfied, ltms.clauses`inFringe, ltms.clauses`fringeIndex
      ensures Connected() && ltms.Usable({}) && Background() == old(Background())
      ensures current == old(current)[a.variable := Some(a.index)]
      ensures old(Unaided()) ==> Unaided()
    {
      hide Tms.Ltms.Usable, Unaided, Background, All, InTheory, Place, Listed, Numbered;
      PlaceOf(a);
      NumbersDistinct(a);
      hide Domain.Valid, Domain.Has;
      if current[a.variable] != Some(a.index) {
        Unassign(a.variable);
        Assert(Place(a));
        current := current[a.variable := Some(a.index)];
      }
    }

    /** Assumption::restore_default */
    method RestoreDefault(v: nat)
      requires Connected() && ltms.Usable({}) && v < |d.values| && d.values[v] != []
      modifies this`current, ltms`unsatisfied, ltms`undoList, ltms`trues, ltms.fringe, ltms.volatileFringe
      modifies ltms.props`tv, ltms.props`supportedBy
      modifies ltms.clauses`deleted, ltms.clauses`supports, ltms.clauses`satisfyingProp, ltms.clauses`numUnassigned
      modifies ltms.clauses`unsatisfied, ltms.clauses`inFringe, ltms.clauses`fringeIndex
      ensures Connected() && ltms.Usable({}) && Background() == old(Background())
      ensures |current| == |old(current)| == |d.values| && current == old(current)[v := Some(0)]
      ensures old(Unaided()) ==> Unaided()
    {
      ConnectedParts();
      hide *;
      FirstValue(v);
      Assign(d.values[v][0]);
    }

    /** Conflict_db::restore_assumption_defaults */
    method RestoreDefaults()
      requires Connected() && ltms.Usable({})
      modifies this`current, ltms`unsatisfied, ltms`undoList, ltms`trues, ltms.fringe, ltms.volatileFringe
      modifies ltms.props`tv, ltms.props`supportedBy
      modifies ltms.clauses`deleted, ltms.clauses`supports, ltms.clauses`satisfyingProp, ltms.clauses`numUnassigned
      modifies ltms.clauses`unsatisfied, ltms.clauses`inFringe, ltms.clauses`fringeIndex
      ensures Connected() && ltms.Usable({}) && Background() == old(Background()) && Defaults(|d.values|)
      ensures old(Unaided()) ==> Unaided()
    {
      ConnectedParts();
      assert Defaults(0);
      hide *;
      for v := 0 to |d.values|
        invariant Connected() && ltms.Usable({}) && Background() == old(Background()) && Defaults(v)
        invariant old(Unaided()) ==> Unaided()
      {
        ghost var previous := current;
        if d.values[v] != [] {
          RestoreDefault(v);
        }
        OneDefaultMore(previous, v);
      }
    }

    /** The first variables have their default values. */
    ghost predicate Defaults(n: nat)
      reads this`current
    {
      DefaultsIn(current, n)
    }

    ghost predicate DefaultsIn(values: seq<Option<nat>>, n: nat) {
      |values| == |d.values| && forall v :: 0 <= v < n && v < |values| && d.values[v] != [] ==> values[v] == Some(0)
    }

    lemma OneDefaultMore(previous: seq<Option<nat>>, v: nat)
      requires DefaultsIn(previous, v) && v < |d.values|
      requires current == if d.values[v] != [] then previous[v := Some(0)] else previous
      ensures Defaults(v + 1)
    {
    }

    lemma ConnectedParts()
      requires Connected()
      ensures d.Valid() && |current| == |d.values| && |assertions| == |All(d.values)|
    {
    }

    lemma FirstValue(v: nat)
      requires d.Valid() && v < |d.values| && d.values[v] != []
      ensures d.Has(d.values[v][0]) && d.values[v][0].variable == v && d.values[v][0].index == 0
    {
    }

    /** Candidate::assign */
    method AssignAll(c: Candidate)
      requires Connected() && ltms.Usable({}) && Defaults(|d.values|) && d.Admissible(c)
      modifies this`current, ltms`unsatisfied, ltms`undoList, ltms`trues, ltms.fringe, ltms.volatileFringe
      modifies ltms.props`tv, ltms.props`supportedBy
      modifies ltms.clauses`deleted, ltms.clauses`supports, ltms.clauses`satisfyingProp, ltms.clauses`numUnassigned
      modifies ltms.clauses`unsatisfied, ltms.clauses`inFringe, ltms.clauses`fringeIndex
      ensures Connected() && ltms.Usable({}) && Background() == old(Background()) && Matches(c)
      ensures old(Unaided()) ==> Unaided()
    {
      ConnectedParts();
      AdmissibleParts(c);
      ghost var before := current;
      NothingAssigned(before, c);
      hide *;
      for i := 0 to |c|
        invariant Connected() && ltms.Usable({}) && Background() == old(Background())
        invariant AssignedIn(before, current, c, i) && (old(Unaided()) ==> Unaided())
      {
        AssignOne(before, c, i);
      }
      AllAssigned(before, c);
    }

    method AssignOne(ghost before: seq<Option<nat>>, c: Candidate, i: nat)
      requires Connected() && ltms.Usable({}) && AssignedIn(before, current, c, i) && i < |c| && |before| == |d.values|
      requires d.Has(c[i]) && d.OneEach(c)
      modifies this`current, ltms`unsatisfied, ltms`undoList, ltms`trues, ltms.fringe, ltms.volatileFringe
      modifies ltms.props`tv, ltms.props`supportedBy
      modifies ltms.clauses`deleted, ltms.clauses`supports, ltms.clauses`satisfyingProp, ltms.clauses`numUnassigned
      modifies ltms.clauses`unsatisfied, ltms.clauses`inFringe, ltms.clauses`fringeIndex
      ensures Connected() && ltms.Usable({}) && Background() == old(Background())
      ensures AssignedIn(before, current, c, i + 1)
      ensures old(Unaided()) ==> Unaided()
    {
      ghost var previous := current;
      hide *;
      InRange(before, current, c, i);
      Assign(c[i]);
      AssignedNext(before, previous, current, c, i);
    }

    lemma AdmissibleParts(c: Candidate)
      requires d.Admissible(c)
      ensures (forall i :: 0 <= i < |c| ==> d.Has(c[i])) && d.OneEach(c)
    {
      forall i | 0 <= i < |c| ensures d.Has(c[i]) { assert c[i] in c; }
      hide Domain.Has;
    }

    /** The first assignments of the candidate have been made, and the other variables are as they were. */
    static ghost predicate AssignedIn(before: seq<Option<nat>>, now: seq<Option<nat>>, c: Candidate, i: nat) {
      && i <= |c| && |now| == |before|
      && (forall j :: 0 <= j < i ==> c[j].variable < |now| && now[c[j].variable] == Some(c[j].index))
      && (forall v :: 0 <= v < |now| && Unassigned(c[..i], v) ==> now[v] == before[v])
    }

    lemma NothingAssigned(before: seq<Option<nat>>, c: Candidate)
      ensures AssignedIn(before, before, c, 0)
    {
    }

    lemma InRange(before: seq<Option<nat>>, now: seq<Option<nat>>, c: Candidate, i: nat)
      requires AssignedIn(before, now, c, i) && i < |c| && |before| == |d.values| && d.Has(c[i])
      ensures c[i].variable < |now|
    {
    }

    lemma AssignedNext(before: seq<Option<nat>>, previous: seq<Option<nat>>, now: seq<Option<nat>>, c: Candidate,
                       i: nat)
      requires AssignedIn(before, previous, c, i) && i < |c| && c[i].variable < |previous| && d.OneEach(c)
      requires now == previous[c[i].variable := Some(c[i].index)]
      ensures AssignedIn(before, now, c, i + 1)
    {
      assert c[..i+1] == c[..i] + [c[i]];
      assert c[i] in c[..i+1];
    }

    /** The current values are those that the candidate makes. */
    ghost predicate Matches(c: Candidate)
      reads this`current
    {
      forall a :: d.Has(a) ==> (Asserts(a) <==> d.Makes(c, a))
    }

    lemma AllAssigned(before: seq<Option<nat>>, c: Candidate)
      requires AssignedIn(before, current, c, |c|) && d.Valid() && d.Admissible(c) && |before| == |d.values|
      requires forall v :: 0 <= v < |d.values| && d.values[v] != [] ==> before[v] == Some(0)
      ensures Matches(c)
    {
      assert c[..|c|] == c;
      forall a | d.Has(a) ensures Asserts(a) <==> d.Makes(c, a) {
        if !Unassigned(c, a.variable) {
          var b :| b in c && b.variable == a.variable;
          var j :| 0 <= j < |c| && c[j] == b;
          ValuesApart(a, b);
          if a in c { var l :| 0 <= l < |c| && c[l] == a; }
        } else {
          var e := d.values[a.variable][0];
          ValuesApart(a, e);
        }
      }
    }

    /** A variable has one value for each index. */
    lemma ValuesApart(a: Assignment, b: Assignment)
      requires d.Valid() && d.Has(a) && d.Has(b) && a.variable == b.variable
      ensures a.index == b.index <==> a == b
    {
      PlaceOf(a);
      PlaceOf(b);
    }

    /** The assignments that numbered clauses stand for, the last one first. */
    ghost function Mapped(cs: seq<Tms.Clause>): seq<Assignment>
      requires forall c :: c in cs ==> 0 < c.datum <= |All(d.values)|
    {
      if cs == [] then [] else [All(d.values)[cs[|cs|-1].datum - 1]] + Mapped(cs[..|cs|-1])
    }

    /** One of these clauses has the number of the assignment. */
    ghost predicate From(a: Assignment, cs: seq<Tms.Clause>) {
      a.variable < |d.values| && exists c :: c in cs && Place(a) == c.datum - 1
    }

    lemma OneMapped(c: Tms.Clause)
      requires Connected() && c in ltms.clauses && IsAssumption(c) && !c.deleted
      ensures c.datum <= |All(d.values)|
      ensures var a := All(d.values)[c.datum - 1];
              d.Has(a) && Asserts(a) && Place(a) == c.datum - 1 && c.lits == [Literal(Prop(a), true)]
    {
      assert Numbered(assertions, c.datum - 1);
      NumberOf(c.datum - 1);
      hide All, Domain.Valid;
      assert c.datum - 1 in InTheory();
      assert c.lits == [c.lits[0]] && c.lits[0] == Literal(c.lits[0].prop, true);
    }

    /** Clauses that assert assumptions and are in the theory. */
    ghost predicate Asserting(cs: seq<Tms.Clause>)
      reads ltms`clauses, cs`deleted
    {
      forall c :: c in cs ==> c in ltms.clauses && IsAssumption(c) && !c.deleted && c.datum <= |All(d.values)|
    }

    lemma AllAsserting(cs: seq<Tms.Clause>)
      requires Connected() && forall c :: c in cs ==> c in ltms.clauses && IsAssumption(c) && !c.deleted
      ensures Asserting(cs)
    {
      hide Connected, All, Prop, Place, Asserts, Domain.Has;
      forall c | c in cs ensures c.datum <= |All(d.values)| { OneMapped(c); }
    }

    lemma {:induction false} MappedMembers(cs: seq<Tms.Clause>)
      requires Connected() && Asserting(cs)
      ensures forall b :: b in Mapped(cs) ==> d.Has(b) && Asserts(b) && From(b, cs)
    {
      hide Connected, All, Prop, Place, Asserts;
      if cs != [] {
        var n := |cs| - 1;
        MappedMembers(cs[..n]);
        OneMapped(cs[n]);
        assert cs[n] in cs && forall c :: c in cs[..n] ==> c in cs;
      }
    }

    lemma {:induction false} MappedDistinct(cs: seq<Tms.Clause>)
      requires Connected() && Asserting(cs) && NoDuplicates(cs)
      ensures NoDuplicates(Mapped(cs))
    {
      if cs != [] {
        var n := |cs| - 1;
        MappedDistinct(cs[..n]);
        MappedMembers(cs[..n]);
        OneMapped(cs[n]);
        NotMappedYet(All(d.values)[cs[n].datum - 1], cs);
        hide Connected, All, Prop, Place, Asserts, Domain.Has, From;
      }
    }

    lemma {:induction false} MappedUnits(cs: seq<Tms.Clause>)
      requires Connected() && Asserting(cs)
      ensures Units(Mapped(cs), Prop) == Tms.Ltms.Meaning(cs)
    {
      hide Connected, All, Prop, Place, Asserts, Domain.Has;
      if cs != [] {
        var n := |cs| - 1;
        MappedUnits(cs[..n]);
        OneMapped(cs[n]);
        UnitsMore(All(d.values)[cs[n].datum - 1], Mapped(cs[..n]));
        MeaningMore(cs);
        hide Units;
      }
    }

    /** Every number belongs to one clause. */
    lemma NotMappedYet(a: Assignment, cs: seq<Tms.Clause>)
      requires Connected() && NoDuplicates(cs) && cs != [] && a.variable < |d.values|
      requires Place(a) == cs[|cs|-1].datum - 1
      requires forall c :: c in cs ==> c in ltms.clauses && 0 < c.datum
      ensures !From(a, cs[..|cs|-1])
    {
      var n := |cs| - 1;
      hide All, Place;
      forall c | c in cs[..n] ensures c.datum != cs[n].datum {
        assert c in cs;
        assert assertions[c.datum - 1] == c;
      }
    }

    lemma UnitsMore(a: Assignment, rest: seq<Assignment>)
      ensures Units([a] + rest, Prop) == {[Literal(Prop(a), true)]} + Units(rest, Prop)
    {
      hide Prop;
      assert forall b :: b in [a] + rest <==> b == a || b in rest;
    }

    lemma MeaningMore(cs: seq<Tms.Clause>)
      requires cs != []
      ensures Tms.Ltms.Meaning(cs) == {cs[|cs|-1].lits} + Tms.Ltms.Meaning(cs[..|cs|-1])
    {
      assert cs == cs[..|cs|-1] + [cs[|cs|-1]];
    }

    /** Map the clauses onto their assignments. */
    method MapClauses(cs: seq<Tms.Clause>) returns (conflicting: seq<Assignment>)
      requires forall c :: c in cs ==> 0 < c.datum <= |All(d.values)|
      ensures conflicting == Mapped(cs)
    {
      conflicting := [];
      hide All;
      for k := 0 to |cs|
        invariant conflicting == Mapped(cs[..k])
      {
        assert cs[..k+1][..k] == cs[..k];
        conflicting := [All(d.values)[cs[k].datum - 1]] + conflicting;
      }
      assert cs[..|cs|] == cs;
    }

    lemma UnaidedMeans()
      ensures Unaided() <==> ltms.FromLasting({}, {})
    {
    }

    /** What volatile clauses may be blamed for: if the others refute a clause of the theory, at most one assumption is
        blamed, one that they refute; and they derive none that is, unless they contradict one another. */
    ghost predicate Frugal(conflict: Conflict)
      reads ltms`clauses, ltms.clauses`deleted
    {
      && ((exists x :: x in ltms.Theory() && RefutedBy(ltms.Lasting(), x)) ==>
            |conflict| <= 1 && forall b :: b in conflict ==> Derivable(ltms.Lasting(), Literal(Prop(b), false)))
      && (!PropagationConflict(ltms.Lasting()) ==>
            forall b :: b in conflict ==> !Derivable(ltms.Lasting(), Literal(Prop(b), true)))
    }

    lemma FrugalMapped(cs: seq<Tms.Clause>)
      requires Connected() && Asserting(cs) && ltms.BlamesLeast(cs)
      ensures Frugal(Mapped(cs))
    {
      hide Connected, All, Prop, Place, Asserts, RefutedBy, Derivable, PropagationConflict, Tms.Ltms.Lasting;
      hide Tms.Ltms.Theory;
      MappedMembers(cs);
      MappedLength(cs);
      forall b | b in Mapped(cs) ensures exists c :: c in cs && c.lits == [Literal(Prop(b), true)] {
        var c :| c in cs && Place(b) == c.datum - 1;
        OneMapped(c);
        SamePlace(b, All(d.values)[c.datum - 1]);
      }
    }

    lemma SamePlace(a: Assignment, b: Assignment)
      requires a.variable < |d.values| && b.variable < |d.values| && Place(a) == Place(b)
      ensures Prop(a) == Prop(b)
    {
    }

    lemma {:induction false} MappedLength(cs: seq<Tms.Clause>)
      requires forall c :: c in cs ==> 0 < c.datum <= |All(d.values)|
      ensures |Mapped(cs)| == |cs|
    {
      hide All;
      if cs != [] { MappedLength(cs[..|cs|-1]); }
    }

    /** Conflict_db::conflict, up to the point where the conflict is entered into the record */
    method Conflict() returns (answer: Option<Conflict>)
      requires Connected() && ltms.Usable({}) && ltms.timeStamp <= ltms.MAX_TIME_STAMP
      modifies ltms`unsatisfied, ltms`trues, ltms`rank, ltms`timeStamp, ltms.fringe, ltms.volatileFringe
      modifies ltms.props`tv, ltms.props`supportedBy, ltms.props`slot
      modifies ltms.clauses`supports, ltms.clauses`satisfyingProp, ltms.clauses`numUnassigned, ltms.clauses`timeStamp
      modifies ltms.clauses`unsatisfied, ltms.clauses`inFringe, ltms.clauses`fringeIndex
      ensures Connected() && ltms.Usable({}) && ltms.timeStamp <= ltms.MAX_TIME_STAMP
      ensures Background() == old(Background())
      ensures answer.None? <==> !PropagationConflict(ltms.Theory())
      ensures answer.Some? ==> NoDuplicates(answer.value) && forall b :: b in answer.value ==> d.Has(b) && Asserts(b)
      ensures answer.Some? ==> Unsatisfiable(Background() + Units(answer.value, Prop))
      ensures old(Unaided()) && answer.Some? ==> Frugal(answer.value)
    {
      ghost var unaided := Unaided();
      UnaidedMeans();
      hide *;
      ltms.ValidParts();
      ltms.ValidMeans();
      var consistent := ltms.Propagate({}, {});
      if consistent {
        answer := None;
      } else {
        var conflicting := Blame(unaided);
        answer := Some(conflicting);
      }
    }

    /** The part of it that explains the conflict */
    method Blame(ghost unaided: bool) returns (conflicting: Conflict)
      requires Connected() && ltms.Usable({}) && ltms.Founded() && ltms.timeStamp <= ltms.MAX_TIME_STAMP
      requires ltms.unsatisfied != [] && (unaided ==> ltms.FromLasting({}, {}) || ltms.LastingFirst({}))
      modifies ltms`timeStamp, ltms.clauses`timeStamp
      ensures Connected() && ltms.Usable({}) && ltms.timeStamp <= ltms.MAX_TIME_STAMP
      ensures NoDuplicates(conflicting) && forall b :: b in conflicting ==> d.Has(b) && Asserts(b)
      ensures Unsatisfiable(Background() + Units(conflicting, Prop)) && (unaided ==> Frugal(conflicting))
    {
      hide *;
      UnitClauses();
      ltms.FoundedTraceable(IsAssumption, {});
      var cs := ltms.LastConflict(IsAssumption, {});
      BackgroundMeans();
      AllAsserting(cs);
      AssertingParts(cs);
      MappedMembers(cs);
      MappedDistinct(cs);
      MappedUnits(cs);
      if unaided {
        ltms.LeastBlame(IsAssumption, cs);
        FrugalMapped(cs);
      }
      conflicting := MapClauses(cs);
    }

    lemma AssertingParts(cs: seq<Tms.Clause>)
      requires Asserting(cs)
      ensures forall c :: c in cs ==> 0 < c.datum <= |All(d.values)|
    {
      hide All;
    }

    lemma BackgroundMeans()
      ensures Background() == ltms.Background(IsAssumption)
    {
    }

    lemma UnitClauses()
      requires Connected()
      ensures ltms.UnitAssumptions(IsAssumption)
      ensures forall c :: c in ltms.clauses && IsAssumption(c) ==> c.isVolatile && |c.lits| == 1
    {
      hide All, Domain.Valid;
      forall c | c in ltms.clauses && IsAssumption(c) ensures c.isVolatile && |c.lits| == 1 {
        assert Numbered(assertions, c.datum - 1);
      }
    }

    /** What happens between the proposal of a candidate and its expansion: the answer is sound, and there is none
        exactly if propagation finds no conflict in the background with everything that the candidate makes. */
    method Ask(c: Candidate) returns (answer: Option<Conflict>)
      requires Connected() && ltms.Usable({}) && ltms.timeStamp <= ltms.MAX_TIME_STAMP && d.Admissible(c)
      modifies this`current, ltms`unsatisfied, ltms`undoList, ltms`trues, ltms`rank, ltms`timeStamp
      modifies ltms.fringe, ltms.volatileFringe, ltms.props`tv, ltms.props`supportedBy, ltms.props`slot
      modifies ltms.clauses`deleted, ltms.clauses`supports, ltms.clauses`satisfyingProp, ltms.clauses`numUnassigned
      modifies ltms.clauses`unsatisfied, ltms.clauses`inFringe, ltms.clauses`fringeIndex, ltms.clauses`timeStamp
      ensures Connected() && ltms.Usable({}) && ltms.timeStamp <= ltms.MAX_TIME_STAMP
      ensures Background() == old(Background())
      ensures Sound(d, Prop, Background(), c, answer)
      ensures answer.None? <==> !PropagationConflict(Background() + World(d, c, Prop))
      ensures ltms.Theory() == Background() + World(d, c, Prop)
      ensures old(Unaided()) && answer.Some? ==> Frugal(answer.value)
    {
      hide *;
      RestoreDefaults();
      AssignAll(c);
      TheoryOf(c);
      answer := Conflict();
      SoundAnswer(c, answer);
    }

    lemma SoundAnswer(c: Candidate, answer: Option<Conflict>)
      requires Matches(c)
      requires answer.Some? ==> NoDuplicates(answer.value) && forall b :: b in answer.value ==> d.Has(b) && Asserts(b)
      requires answer.Some? ==> Unsatisfiable(Background() + Units(answer.value, Prop))
      ensures Sound(d, Prop, Background(), c, answer)
    {
      hide Unsatisfiable, Units, Background, Asserts, Domain.Has, Domain.Makes, Prop;
    }

    /** The theory is the background with the assertions of what the candidate makes. */
    lemma TheoryOf(c: Candidate)
      requires Connected() && Matches(c) && d.Admissible(c)
      ensures ltms.Theory() == Background() + World(d, c, Prop)
    {
      forall b | b in ltms.clauses && !b.deleted && IsAssumption(b) ensures b.lits in World(d, c, Prop) {
        OneMapped(b);
      }
      forall a | a in All(d.values) && d.Makes(c, a) ensures [Literal(Prop(a), true)] in ltms.Theory() {
        AssertedClause(c, a);
      }
      hide All, Prop, Connected, Matches, Domain.Admissible;
    }

    /** What the candidate makes is asserted by a clause of the theory. */
    lemma AssertedClause(c: Candidate, a: Assignment)
      requires Connected() && Matches(c) && d.Admissible(c) && d.Makes(c, a)
      ensures [Literal(Prop(a), true)] in ltms.Theory()
    {
      assert d.Has(a);
      PlaceOf(a);
      hide All, Matches, Domain.Admissible, Domain.Makes;
      var k := Place(a);
      assert k in InTheory() && Numbered(assertions, k);
      OneMapped(assertions[k]);
    }
  }
}
