/** Propositional clauses, their models, and unit propagation stated from scratch. */
module Logic {
  import opened Sequences

  datatype Literal = Literal(prop: nat, positive: bool) {
    function Negation(): Literal { Literal(prop, !positive) }
  }

  type Disjunction = seq<Literal>

  /** A model is the set of propositions it makes true. */
  type Model = iset<nat>

  ghost predicate Holds(m: Model, l: Literal) {
    (l.prop in m) == l.positive
  }

  ghost predicate Satisfies(m: Model, d: Disjunction) {
    exists i :: 0 <= i < |d| && Holds(m, d[i])
  }

  ghost predicate ModelOf(m: Model, theory: set<Disjunction>) {
    forall d :: d in theory ==> Satisfies(m, d)
  }

  ghost predicate Unsatisfiable(theory: set<Disjunction>) {
    forall m: Model :: !ModelOf(m, theory)
  }

  /** Unit propagation from nothing: l follows in at most n rounds when some clause has every
      other literal refuted in fewer rounds. */
  ghost predicate DerivedIn(theory: set<Disjunction>, l: Literal, n: nat)
    decreases n, 1
  {
    n > 0 && exists d :: d in theory && l in d && RefutedExcept(theory, d, l, n - 1)
  }

  ghost predicate RefutedExcept(theory: set<Disjunction>, d: Disjunction, l: Literal, n: nat)
    decreases n, 2
  {
    forall k :: 0 <= k < |d| && d[k] != l ==> DerivedIn(theory, d[k].Negation(), n)
  }

  ghost predicate Derivable(theory: set<Disjunction>, l: Literal) {
    exists n: nat :: DerivedIn(theory, l, n)
  }

  ghost predicate Refuted(theory: set<Disjunction>, d: Disjunction, n: nat) {
    forall k :: 0 <= k < |d| ==> DerivedIn(theory, d[k].Negation(), n)
  }

  /** Unit propagation from nothing meets a clause whose literals are all refuted. */
  ghost predicate PropagationConflict(theory: set<Disjunction>) {
    exists d, n: nat :: d in theory && Refuted(theory, d, n)
  }

  /** What the counters of a clause are about: `t` are the literals known true, `f` those known false. */
  function Unknowns(d: Disjunction, t: set<Literal>, f: set<Literal>): nat {
    if d == [] then 0 else Unknowns(d[..|d|-1], t, f) + (if d[|d|-1] in t || d[|d|-1] in f then 0 else 1)
  }

  ghost predicate Satisfied(d: Disjunction, t: set<Literal>) {
    exists i :: 0 <= i < |d| && d[i] in t
  }

  lemma UnknownsFrame(d: Disjunction, t: set<Literal>, f: set<Literal>, t': set<Literal>, f': set<Literal>)
    requires forall i :: 0 <= i < |d| ==> (d[i] in t || d[i] in f <==> d[i] in t' || d[i] in f')
    ensures Unknowns(d, t, f) == Unknowns(d, t', f')
  {
    if d != [] { UnknownsFrame(d[..|d|-1], t, f, t', f'); }
  }

  /** Learning the value of one literal of a clause lowers its count of unknown literals by one. */
  lemma UnknownsLearn(d: Disjunction, t: set<Literal>, f: set<Literal>, t': set<Literal>, f': set<Literal>, i: nat)
    requires NoDuplicates(d) && i < |d|
    requires d[i] !in t && d[i] !in f
    requires t' + f' == t + f + {d[i]}
    ensures Unknowns(d, t', f') == Unknowns(d, t, f) - 1
  {
    var p := d[..|d|-1];
    forall l ensures l in t' || l in f' <==> l in t || l in f || l == d[i] {
      assert l in t' + f' <==> l in t + f + {d[i]};
    }
    if i == |d| - 1 {
      UnknownsFrame(p, t, f, t', f');
    } else {
      UnknownsLearn(p, t, f, t', f', i);
    }
  }

  /** No unknown literal left means that every literal has a value; one left means exactly one has not. */
  lemma UnknownsBounds(d: Disjunction, t: set<Literal>, f: set<Literal>)
    ensures Unknowns(d, t, f) <= |d|
    ensures Unknowns(d, t, f) == 0 <==> forall i :: 0 <= i < |d| ==> d[i] in t || d[i] in f
  {
    if d != [] {
      UnknownsBounds(d[..|d|-1], t, f);
    }
  }

  lemma UnknownsOne(d: Disjunction, t: set<Literal>, f: set<Literal>, i: nat)
    requires i < |d| && d[i] !in t && d[i] !in f
    ensures Unknowns(d, t, f) >= 1
    ensures Unknowns(d, t, f) == 1 <==> forall j :: 0 <= j < |d| && j != i ==> d[j] in t || d[j] in f
  {
    var p := d[..|d|-1];
    if i == |d| - 1 {
      UnknownsBounds(p, t, f);
      assert forall j :: 0 <= j < |p| ==> p[j] == d[j];
    } else {
      UnknownsOne(p, t, f, i);
      assert forall j :: 0 <= j < |p| ==> p[j] == d[j];
    }
  }

  function Opposites(t: set<Literal>): set<Literal> {
    set l | l in t :: l.Negation()
  }

  lemma OppositeIn(t: set<Literal>, l: Literal)
    ensures l in Opposites(t) <==> l.Negation() in t
  {
    assert l.Negation().Negation() == l;
  }

  /** The clause forces the literal in its given slot: every other literal is false and was ranked earlier. */
  ghost predicate Forces(d: Disjunction, slot: nat, t: set<Literal>, f: set<Literal>, rank: map<nat, nat>) {
    && slot < |d| && d[slot] in t && d[slot].prop in rank
    && forall j :: 0 <= j < |d| && j != slot ==> d[j] in f && d[j].prop in rank && rank[d[j].prop] < rank[d[slot].prop]
  }

  lemma OppositesLess(t: set<Literal>, l: Literal)
    requires l in t
    ensures Opposites(t) == Opposites(t - {l}) + {l.Negation()}
  {
  }

  lemma ForcesWithout(d: Disjunction, slot: nat, t: set<Literal>, f: set<Literal>, rank: map<nat, nat>, l: Literal)
    requires Forces(d, slot, t, f, rank) && d[slot] != l
    ensures Forces(d, slot, t - {l}, f, rank)
  {
  }

  lemma OppositesMore(t: set<Literal>, l: Literal)
    ensures Opposites(t + {l}) == Opposites(t) + {l.Negation()}
  {
  }

  /** Nothing is known about the proposition. */
  ghost predicate Silent(t: set<Literal>, f: set<Literal>, prop: nat) {
    forall m :: m in t || m in f ==> m.prop != prop
  }

  /** A rank later than that of every proposition of the clause. */
  ghost function LaterThan(d: Disjunction, rank: map<nat, nat>): (r: nat)
    ensures forall j :: 0 <= j < |d| && d[j].prop in rank ==> rank[d[j].prop] < r
  {
    if d == [] then 0
    else
      var r := LaterThan(d[..|d|-1], rank);
      var l := d[|d|-1];
      if l.prop in rank && rank[l.prop] >= r then rank[l.prop] + 1 else r
  }

  lemma ForcesWith(d: Disjunction, slot: nat, t: set<Literal>, f: set<Literal>, rank: map<nat, nat>, l: Literal, r: nat)
    requires Forces(d, slot, t, f, rank)
    requires Silent(t, f, l.prop)
    ensures Forces(d, slot, t + {l}, f + {l.Negation()}, rank[l.prop := r])
  {
  }

  /** Every literal over the first n propositions. */
  function Universe(n: nat): set<Literal> {
    (set k | 0 <= k < n :: Literal(k, true)) + (set k | 0 <= k < n :: Literal(k, false))
  }

  // ---------- unit propagation ----------

  /** Every value is forced by a clause of the theory, in the order of the ranks. */
  ghost predicate Grounded(theory: set<Disjunction>, t: set<Literal>, rank: map<nat, nat>) {
    forall l :: l in t ==> ForcedBy(theory, l, t, rank)
  }

  ghost predicate ForcedBy(theory: set<Disjunction>, l: Literal, t: set<Literal>, rank: map<nat, nat>) {
    exists d, slot: nat :: d in theory && slot < |d| && d[slot] == l && Forces(d, slot, t, Opposites(t), rank)
  }

  /** No clause is falsified or has exactly one way left of becoming true. */
  ghost predicate Closed(theory: set<Disjunction>, t: set<Literal>) {
    forall d :: d in theory ==> Satisfied(d, t) || Unknowns(d, t, Opposites(t)) >= 2
  }

  ghost predicate Consistent(t: set<Literal>) {
    forall l :: l in t ==> l.Negation() !in t
  }

  /** Every grounded value is found by propagation from scratch. */
  lemma {:induction false} GroundedDerived(theory: set<Disjunction>, t: set<Literal>, rank: map<nat, nat>, l: Literal,
                                           n: nat)
    requires Grounded(theory, t, rank) && l in t && (l.prop in rank ==> rank[l.prop] < n)
    requires n > 0
    ensures DerivedIn(theory, l, n)
    decreases n
  {
    assert ForcedBy(theory, l, t, rank);
    var d: Disjunction, slot: nat :|
      d in theory && slot < |d| && d[slot] == l && Forces(d, slot, t, Opposites(t), rank);
    forall k | 0 <= k < |d| && d[k] != l ensures DerivedIn(theory, d[k].Negation(), n - 1) {
      OppositeIn(t, d[k]);
      GroundedDerived(theory, t, rank, d[k].Negation(), n - 1);
    }
    assert RefutedExcept(theory, d, l, n - 1);
  }

  /** Propagation finds no less in more rounds. */
  lemma {:induction false} DerivedMore(theory: set<Disjunction>, l: Literal, n: nat, m: nat)
    requires DerivedIn(theory, l, n) && n <= m
    ensures DerivedIn(theory, l, m)
    decreases n
  {
    var d: Disjunction :| d in theory && l in d && RefutedExcept(theory, d, l, n - 1);
    forall k | 0 <= k < |d| && d[k] != l ensures DerivedIn(theory, d[k].Negation(), m - 1) {
      DerivedMore(theory, d[k].Negation(), n - 1, m - 1);
    }
    assert RefutedExcept(theory, d, l, m - 1);
  }

  /** Rounds enough to refute the literals of the clause up to place i, all but `l`. */
  lemma {:induction false} RoundsFor(theory: set<Disjunction>, d: Disjunction, l: Literal, i: nat) returns (n: nat)
    requires i <= |d| && forall k :: 0 <= k < i && d[k] != l ==> Derivable(theory, d[k].Negation())
    ensures forall k :: 0 <= k < i && d[k] != l ==> DerivedIn(theory, d[k].Negation(), n)
  {
    n := 0;
    if i > 0 {
      var m := RoundsFor(theory, d, l, i - 1);
      n := m;
      if d[i-1] != l {
        var r: nat :| DerivedIn(theory, d[i-1].Negation(), r);
        n := if r < m then m else r;
        DerivedMore(theory, d[i-1].Negation(), r, n);
      }
      forall k | 0 <= k < i - 1 && d[k] != l ensures DerivedIn(theory, d[k].Negation(), n) {
        DerivedMore(theory, d[k].Negation(), m, n);
      }
    }
  }

  /** Every value is forced by a clause of the theory, except for those that are `given`. */
  ghost predicate GroundedExcept(theory: set<Disjunction>, t: set<Literal>, rank: map<nat, nat>, given: set<Literal>) {
    forall l :: l in t && l !in given ==> ForcedBy(theory, l, t, rank)
  }

  /** If propagation finds what is given, it finds everything. */
  lemma {:induction false} GivenDerivable(theory: set<Disjunction>, t: set<Literal>, rank: map<nat, nat>,
                                          given: set<Literal>, l: Literal)
    requires GroundedExcept(theory, t, rank, given) && l in t
    requires forall g :: g in given ==> Derivable(theory, g)
    ensures Derivable(theory, l)
    decreases if l.prop in rank then rank[l.prop] else 0
  {
    if l !in given {
      assert ForcedBy(theory, l, t, rank);
      var d: Disjunction, slot: nat :|
      d in theory && slot < |d| && d[slot] == l && Forces(d, slot, t, Opposites(t), rank);
      forall k | 0 <= k < |d| && d[k] != l ensures Derivable(theory, d[k].Negation()) {
        OppositeIn(t, d[k]);
        GivenDerivable(theory, t, rank, given, d[k].Negation());
      }
      var n := RoundsFor(theory, d, l, |d|);
      assert RefutedExcept(theory, d, l, n);
      assert DerivedIn(theory, l, n + 1);
    }
  }

  /** What propagation finds holds in every model. */
  lemma {:induction false} DerivedHolds(theory: set<Disjunction>, m: Model, l: Literal, n: nat)
    requires DerivedIn(theory, l, n) && ModelOf(m, theory)
    ensures Holds(m, l)
    decreases n
  {
    var d: Disjunction :| d in theory && l in d && RefutedExcept(theory, d, l, n - 1);
    var i :| 0 <= i < |d| && Holds(m, d[i]);
    if d[i] != l {
      DerivedHolds(theory, m, d[i].Negation(), n - 1);
    }
  }

  /** What propagation finds is already known once no clause asks for attention. */
  lemma {:induction false} ClosedComplete(theory: set<Disjunction>, t: set<Literal>, l: Literal, n: nat)
    requires Closed(theory, t) && Consistent(t) && forall d :: d in theory ==> NoDuplicates(d)
    requires DerivedIn(theory, l, n)
    ensures l in t
    decreases n
  {
    var d: Disjunction :| d in theory && l in d && RefutedExcept(theory, d, l, n - 1);
    forall k | 0 <= k < |d| && d[k] != l ensures d[k].Negation() in t && d[k] in Opposites(t) && d[k] !in t {
      ClosedComplete(theory, t, d[k].Negation(), n - 1);
      OppositeIn(t, d[k]);
    }
    var i :| 0 <= i < |d| && d[i] == l;
    if l !in t {
      if l in Opposites(t) {
        UnknownsBounds(d, t, Opposites(t));
      } else {
        UnknownsOne(d, t, Opposites(t), i);
      }
    }
  }

  /** A grounded assignment that falsifies a clause is a conflict that propagation finds from scratch. */
  lemma FalsifiedConflict(theory: set<Disjunction>, t: set<Literal>, rank: map<nat, nat>, d: Disjunction)
    requires Grounded(theory, t, rank) && d in theory
    requires forall k :: 0 <= k < |d| ==> d[k] in Opposites(t)
    ensures PropagationConflict(theory)
  {
    var n := LaterThan(d, rank) + 1;
    forall k | 0 <= k < |d| ensures DerivedIn(theory, d[k].Negation(), n) {
      OppositeIn(t, d[k]);
      GroundedDerived(theory, t, rank, d[k].Negation(), n);
    }
    assert Refuted(theory, d, n);
  }

  lemma ConflictUnsatisfiable(theory: set<Disjunction>)
    requires PropagationConflict(theory)
    ensures Unsatisfiable(theory)
  {
    var d: Disjunction, n: nat :| d in theory && Refuted(theory, d, n);
    forall m: Model ensures !ModelOf(m, theory) {
      if ModelOf(m, theory) {
        var i :| 0 <= i < |d| && Holds(m, d[i]);
        DerivedHolds(theory, m, d[i].Negation(), n);
      }
    }
  }

  lemma ClosedNoConflict(theory: set<Disjunction>, t: set<Literal>)
    requires Closed(theory, t) && Consistent(t) && forall d :: d in theory ==> NoDuplicates(d)
    ensures !PropagationConflict(theory)
  {
    if PropagationConflict(theory) {
      var d: Disjunction, n: nat :| d in theory && Refuted(theory, d, n);
      forall k | 0 <= k < |d| ensures d[k] in Opposites(t) && d[k] !in t {
        ClosedComplete(theory, t, d[k].Negation(), n);
        OppositeIn(t, d[k]);
      }
      UnknownsBounds(d, t, Opposites(t));
    }
  }

  /** Whatever order the clauses were looked at in, a grounded and closed assignment is the same one. */
  lemma Confluence(theory: set<Disjunction>, t1: set<Literal>, rank1: map<nat, nat>, t2: set<Literal>,
                   rank2: map<nat, nat>)
    requires forall d :: d in theory ==> NoDuplicates(d)
    requires Grounded(theory, t1, rank1) && Closed(theory, t1) && Consistent(t1)
    requires Grounded(theory, t2, rank2) && Closed(theory, t2) && Consistent(t2)
    ensures t1 == t2
  {
    forall l ensures l in t1 <==> l in t2 {
      if l in t1 {
        var n := LaterThan([l], rank1) + 1;
        GroundedDerived(theory, t1, rank1, l, n);
        ClosedComplete(theory, t2, l, n);
      }
      if l in t2 {
        var n := LaterThan([l], rank2) + 1;
        GroundedDerived(theory, t2, rank2, l, n);
        ClosedComplete(theory, t1, l, n);
      }
    }
  }

  // ---------- some clauses first ----------

  /** Unit clauses that assert these literals */
  ghost function Facts(given: set<Literal>): set<Disjunction> {
    set l | l in given :: [l]
  }

  lemma FactDerivable(theory: set<Disjunction>, l: Literal)
    requires [l] in theory
    ensures Derivable(theory, l)
  {
    var d := [l];
    assert d[0] == l && RefutedExcept(theory, d, l, 0);
    assert DerivedIn(theory, l, 1);
  }

  lemma ForcedByMore(theory: set<Disjunction>, more: set<Disjunction>, l: Literal, t: set<Literal>, rank: map<nat, nat>)
    requires ForcedBy(theory, l, t, rank) && theory <= more
    ensures ForcedBy(more, l, t, rank)
  {
    hide Forces;
    var d: Disjunction, slot: nat :|
      d in theory && slot < |d| && d[slot] == l && Forces(d, slot, t, Opposites(t), rank);
    assert d in more;
  }

  lemma FactClosed(l: Literal, t: set<Literal>)
    requires l in t
    ensures Satisfied([l], t) && NoDuplicates([l])
  {
    assert [l][0] in t;
  }

  /** Values that are given or forced by these clauses, none of which asks for attention, are what propagation finds
      from the given ones. */
  lemma ClosureFrom(lasting: set<Disjunction>, given: set<Literal>, t: set<Literal>, rank: map<nat, nat>)
    requires given <= t && Consistent(t) && (forall d :: d in lasting ==> NoDuplicates(d)) && Closed(lasting, t)
    requires GroundedExcept(lasting, t, rank, given)
    ensures forall l :: Derivable(lasting + Facts(given), l) <==> l in t
  {
    var theory := lasting + Facts(given);
    hide ForcedBy, Satisfied, Unknowns, NoDuplicates, Consistent, Opposites, DerivedIn;
    forall l | l in t && l !in given ensures ForcedBy(theory, l, t, rank) {
      ForcedByMore(lasting, theory, l, t, rank);
    }
    forall g | g in given ensures Derivable(theory, g) {
      FactDerivable(theory, g);
    }
    forall d | d in theory ensures NoDuplicates(d) && (Satisfied(d, t) || Unknowns(d, t, Opposites(t)) >= 2) {
      if d in Facts(given) {
        var g :| g in given && d == [g];
        FactClosed(g, t);
      }
    }
    forall l ensures Derivable(theory, l) <==> l in t {
      if l in t { GivenDerivable(theory, t, rank, given, l); }
      if Derivable(theory, l) {
        var n: nat :| DerivedIn(theory, l, n);
        ClosedComplete(theory, t, l, n);
      }
    }
  }

  /** Propagation refutes every literal of the clause. */
  ghost predicate RefutedBy(theory: set<Disjunction>, d: Disjunction) {
    forall k :: 0 <= k < |d| ==> Derivable(theory, d[k].Negation())
  }

  /** A literal and its opposite both derived are a conflict. */
  lemma OppositesConflict(theory: set<Disjunction>, l: Literal)
    requires Derivable(theory, l) && Derivable(theory, l.Negation())
    ensures PropagationConflict(theory)
  {
    var n: nat :| DerivedIn(theory, l, n);
    var m: nat :| DerivedIn(theory, l.Negation(), m);
    var d: Disjunction :| d in theory && l in d && RefutedExcept(theory, d, l, n - 1);
    var r := if n < m then m else n;
    DerivedMore(theory, l.Negation(), m, r);
    forall k | 0 <= k < |d| ensures DerivedIn(theory, d[k].Negation(), r) {
      if d[k] != l { DerivedMore(theory, d[k].Negation(), n - 1, r); }
    }
    assert Refuted(theory, d, r);
  }
}
