/** The logic-based truth maintenance system: unit propagation whose conclusions are undone when a clause is
    retracted. */
module Tms {
  import opened Logic
  import opened Sequences

  datatype TruthValue = PFalse | PTrue | Unknown

  class Proposition {
    ghost const id: nat
    var tv: TruthValue
    var supportedBy: Clause?
    var positive: seq<Clause>
    var negative: seq<Clause>
    ghost var slot: nat  // where its literal stands in the supporting clause

    constructor (ghost id: nat)
      ensures this.id == id && tv == Unknown && supportedBy == null && positive == negative == []
    {
      this.id := id;
      tv, supportedBy, positive, negative := Unknown, null, [], [];
    }

    function Occurrences(sense: bool): seq<Clause>
      reads this`positive, this`negative
    {
      if sense then positive else negative
    }
  }

  class Clause {
    const literals: seq<Proposition>
    const numPositive: nat
    const isVolatile: bool
    const datum: nat
    ghost const lits: Disjunction

    var numUnassigned: int
    var supports: int
    var deleted: bool
    var inFringe: bool
    var unsatisfied: bool
    var fringeIndex: nat
    var timeStamp: nat
    var satisfyingProp: Proposition?

    /** The literal array agrees with the ghost clause it stands for. */
    ghost predicate Shape() {
      && numPositive <= |literals| == |lits|
      && NoDuplicates(lits)
      && forall i :: 0 <= i < |lits| ==> lits[i] == Literal(literals[i].id, i < numPositive)
    }

    /** What the propagation bookkeeping caches about this clause. */
    ghost function Status(): ClauseStatus
      reads this`numUnassigned, this`inFringe, this`unsatisfied, this`satisfyingProp
    {
      Cached(numUnassigned, satisfyingProp, inFringe, unsatisfied)
    }

    /** The proposition this clause supports, kept as an index into its literals. */
    function GetSupports(): Proposition?
      requires supports < |literals|
      reads this`supports
    {
      if supports < 0 then null else literals[supports]
    }

    /** A new clause is not in the theory yet. */
    constructor (positives: seq<Proposition>, negatives: seq<Proposition>, isVolatile: bool, datum: nat)
      ensures literals == positives + negatives && numPositive == |positives| && |lits| == |literals|
      ensures forall i :: 0 <= i < |lits| ==> lits[i] == Literal(literals[i].id, i < numPositive)
      ensures this.isVolatile == isVolatile && this.datum == datum
      ensures deleted && !inFringe && !unsatisfied && supports == -1 && timeStamp == 0
    {
      literals, numPositive := positives + negatives, |positives|;
      this.isVolatile, this.datum := isVolatile, datum;
      lits := seq(|positives + negatives|, i requires 0 <= i < |positives + negatives| =>
                Literal((positives + negatives)[i].id, i < |positives|));
      numUnassigned, supports, deleted, inFringe, unsatisfied := 0, -1, true, false, false;
      fringeIndex, timeStamp, satisfyingProp := 0, 0, null;
    }
  }

  datatype ClauseStatus = Cached(numUnassigned: int, satisfyingProp: Proposition?, inFringe: bool, unsatisfied: bool)

  class Fringe {
    var items: seq<Clause>

    ghost predicate Valid()
      reads this, items`inFringe, items`fringeIndex
    {
      forall i :: 0 <= i < |items| ==> items[i].inFringe && items[i].fringeIndex == i
    }

    constructor ()
      ensures items == []
    {
      items := [];
    }

    method Push(c: Clause)
      requires Valid() && c !in items
      modifies this, c`inFringe, c`fringeIndex
      ensures Valid() && items == old(items) + [c] && c.inFringe
    {
      c.inFringe, c.fringeIndex := true, |items|;
      items := items + [c];
    }

    method Pop() returns (c: Clause)
      requires Valid() && items != []
      modifies this, {items[|items|-1]}`inFringe
      ensures Valid() && old(items) == items + [c] && !c.inFringe && c !in items
    {
      c := items[|items|-1];
      items := items[..|items|-1];
      c.inFringe := false;
    }

    method Remove(c: Clause)
      requires Valid() && c in items
      modifies this, c`inFringe, items`fringeIndex
      ensures Valid() && !c.inFringe
      ensures forall d :: d in items <==> d in old(items) && d != c
      ensures old(c.fringeIndex < |items| && items[c.fringeIndex] == c)
      ensures items == Displaced(old(items), old(c.fringeIndex))
    {
      var k := c.fringeIndex;
      if k == |items| - 1 {
        var _ := Pop();
      } else {
        var last := items[|items|-1];
        items := items[..|items|-1][k := last];
        c.inFringe := false;
        items[k].fringeIndex := k;  // its flag is set already
        forall d | d in old(items) && d != c ensures d in items {
          var i :| 0 <= i < |old(items)| && old(items)[i] == d;
          if i < |items| { assert items[i] == d; } else { assert items[k] == d; }
        }
      }
    }
  }

  class Ltms {
    var props: seq<Proposition>
    var clauses: seq<Clause>
    const fringe: Fringe
    const volatileFringe: Fringe
    var unsatisfied: seq<Clause>
    var undoList: seq<Proposition>
    var timeStamp: nat
    ghost var rank: map<nat, nat>  // the order in which the known values were assigned
    ghost var trues: set<Literal>  // the literals whose value is known to be true

    constructor ()
      ensures Valid() && props == [] && clauses == [] && timeStamp == 0
      ensures fresh(fringe) && fresh(volatileFringe)
    {
      fringe := new Fringe();
      volatileFringe := new Fringe();
      props, clauses, unsatisfied, undoList := [], [], [], [];
      timeStamp := 0;
      trues, rank := {}, map[];
    }

    // ---------- invariants ----------

    /** The ids number the propositions, and literals and occurrence lists agree. */
    static ghost predicate Shaped(ps: seq<Proposition>, cs: seq<Clause>)
      reads ps`positive, ps`negative
    {
      && (forall i :: 0 <= i < |ps| ==> ps[i].id == i)
      && NoDuplicates(cs)
      && (forall c :: c in cs ==> c.Shape())
      && (forall c, i :: c in cs && 0 <= i < |c.literals| ==>
            c.Shape() && c.literals[i] in ps && c in c.literals[i].Occurrences(i < c.numPositive))
      && (forall p, sense :: p in ps ==> NoDuplicates(p.Occurrences(sense)))
      && (forall p, sense, c :: p in ps && c in p.Occurrences(sense) ==> c in cs && Literal(p.id, sense) in c.lits)
    }

    ghost predicate Shape()
      reads this`props, this`clauses, props`positive, props`negative
    {
      Shaped(props, clauses)
    }

    ghost predicate Lists()
      reads this`clauses, this`unsatisfied, fringe, volatileFringe
      reads clauses`inFringe, clauses`fringeIndex, clauses`unsatisfied, unsatisfied`unsatisfied
      reads fringe.items`inFringe, volatileFringe.items`inFringe, fringe.items`fringeIndex
      reads volatileFringe.items`fringeIndex
    {
      && fringe != volatileFringe && fringe.Valid() && volatileFringe.Valid()
      && (forall c :: c in fringe.items ==> c in clauses && !c.isVolatile)
      && (forall c :: c in volatileFringe.items ==> c in clauses && c.isVolatile)
      && (forall c :: c in clauses && c.inFringe ==> c in FringeOf(c).items)
      && NoDuplicates(unsatisfied)
      && (forall c :: c in unsatisfied ==> c in clauses && c.unsatisfied)
      && (forall c :: c in clauses && c.unsatisfied ==> c in unsatisfied)
    }

    function FringeOf(c: Clause): Fringe { if c.isVolatile then volatileFringe else fringe }

    /** The cached status of a clause is exact for the known literals; `popped` has just left the fringe. */
    ghost predicate Exact(c: Clause, s: ClauseStatus, t: set<Literal>, f: set<Literal>, popped: Clause?) {
      && s.numUnassigned == Unknowns(c.lits, t, f)
      && (s.satisfyingProp == null <==> !Satisfied(c.lits, t))
      && (s.satisfyingProp != null ==>
            exists i :: 0 <= i < |c.lits| == |c.literals| && c.lits[i] in t && c.literals[i] == s.satisfyingProp)
      && (s.unsatisfied <==> s.satisfyingProp == null && s.numUnassigned == 0)
      && (s.inFringe <==> s.satisfyingProp == null && s.numUnassigned == 1 && c != popped)
    }

    /** The cached status of a clause, or that of one outside the theory: in no fringe and not unsatisfied. */
    ghost predicate UpToDate(c: Clause, deleted: bool, s: ClauseStatus, t: set<Literal>, f: set<Literal>,
                             popped: Clause?) {
      if deleted then !s.inFringe && !s.unsatisfied else Exact(c, s, t, f, popped)
    }

    ghost predicate Caches(t: set<Literal>, f: set<Literal>, popped: Clause?)
      reads this`clauses, clauses`deleted
      reads clauses`numUnassigned, clauses`satisfyingProp, clauses`inFringe, clauses`unsatisfied
    {
      forall c :: c in clauses ==> UpToDate(c, c.deleted, c.Status(), t, f, popped)
    }

    // ---------- structure lemmas ----------

    lemma SameProposition(p: Proposition, q: Proposition)
      requires Shape() && p in props && q in props && p.id == q.id
      ensures p == q
    {
      var j :| 0 <= j < |props| && props[j] == p;
      var k :| 0 <= k < |props| && props[k] == q;
      assert j == k;
    }

    /** A listed occurrence of `p` is a clause of the theory with that literal, standing at one place. */
    lemma Occurrence(p: Proposition, sense: bool, k: nat) returns (i: nat)
      requires Shape() && p in props && k < |p.Occurrences(sense)|
      ensures var c := p.Occurrences(sense)[k];
              c in clauses && c.Shape() && i < |c.lits| && c.lits[i] == Literal(p.id, sense) && c.literals[i] == p
    {
      var c := p.Occurrences(sense)[k];
      assert c in clauses && Literal(p.id, sense) in c.lits;
      i :| 0 <= i < |c.lits| && c.lits[i] == Literal(p.id, sense);
      assert c.literals[i] in props && c.literals[i].id == p.id;
      SameProposition(c.literals[i], p);
    }

    lemma OccurrencesComplete(p: Proposition, sense: bool, c: Clause)
      requires Shape() && p in props && c in clauses && Literal(p.id, sense) in c.lits
      ensures c in p.Occurrences(sense)
    {
      var i :| 0 <= i < |c.lits| && c.lits[i] == Literal(p.id, sense);
      assert c.literals[i] in props && c.literals[i].id == p.id;
      SameProposition(c.literals[i], p);
    }

    lemma OccurrencesDistinct(p: Proposition, sense: bool)
      requires Shape() && p in props
      ensures NoDuplicates(p.Occurrences(sense))
    {
    }

    lemma ExactFrame(c: Clause, s: ClauseStatus, t: set<Literal>, f: set<Literal>, t': set<Literal>, f': set<Literal>,
                     popped: Clause?, popped': Clause?)
      requires Exact(c, s, t, f, popped) && (c == popped <==> c == popped')
      requires forall i :: 0 <= i < |c.lits| ==> (c.lits[i] in t <==> c.lits[i] in t')
      requires forall i :: 0 <= i < |c.lits| ==> (c.lits[i] in f <==> c.lits[i] in f')
      ensures Exact(c, s, t', f', popped')
    {
      hide Unknowns;
      UnknownsFrame(c.lits, t, f, t', f');
      if s.satisfyingProp != null {
        var i :| 0 <= i < |c.lits| == |c.literals| && c.lits[i] in t && c.literals[i] == s.satisfyingProp;
        assert c.lits[i] in t';
      }
    }

    /** Once every clause with the literal `l` has been revisited, the caches are exact for the new values. */
    lemma CachesAfterSweep(p: Proposition, sense: bool, t: set<Literal>, f: set<Literal>, t': set<Literal>,
                           f': set<Literal>, popped: Clause?)
      requires Shape() && p in props
      requires forall x :: x != Literal(p.id, sense) ==> (x in t <==> x in t') && (x in f <==> x in f')
      requires popped != null ==> popped in p.Occurrences(sense)
      requires Swept(Elements(p.Occurrences(sense)), t, f, t', f', popped)
      ensures Caches(t', f', null)
    {
      hide Exact;
      forall c | c in clauses ensures UpToDate(c, c.deleted, c.Status(), t', f', null) {
        if c !in p.Occurrences(sense) && !c.deleted {
          hide Shape;
          if Literal(p.id, sense) in c.lits { OccurrencesComplete(p, sense, c); }
          ExactFrame(c, c.Status(), t, f, t', f', popped, null);
        }
      }
    }

    /** The clauses of `done` have been brought up to date; the others have not been touched. */
    ghost predicate Swept(done: set<Clause>, t: set<Literal>, f: set<Literal>, t': set<Literal>, f': set<Literal>,
                          popped: Clause?)
      reads this`clauses, clauses`deleted
      reads clauses`numUnassigned, clauses`satisfyingProp, clauses`inFringe, clauses`unsatisfied
    {
      forall c :: c in clauses ==>
        if c in done then UpToDate(c, c.deleted, c.Status(), t', f', null)
        else UpToDate(c, c.deleted, c.Status(), t, f, popped)
    }

    lemma SweepNone(t: set<Literal>, f: set<Literal>, t': set<Literal>, f': set<Literal>, popped: Clause?)
      requires Caches(t, f, popped)
      ensures Swept({}, t, f, t', f', popped)
    {
    }

    // ---------- the fringe and the unsatisfied set ----------

    method InsertIntoFringe(c: Clause)
      requires Lists() && c in clauses
      modifies fringe, volatileFringe, c`inFringe, c`fringeIndex
      ensures Lists() && c.inFringe
      ensures FringeOf(c).items == if old(c.inFringe) then old(FringeOf(c).items) else old(FringeOf(c).items) + [c]
    {
      if !c.inFringe {
        if c.isVolatile { volatileFringe.Push(c); } else { fringe.Push(c); }
      }
    }

    method RemoveFromFringe(c: Clause)
      requires Lists() && c in clauses
      modifies fringe, volatileFringe, c`inFringe, clauses`fringeIndex
      ensures Lists() && !c.inFringe
      ensures old(c.inFringe) ==>
        && old(c.fringeIndex < |FringeOf(c).items| && FringeOf(c).items[c.fringeIndex] == c)
        && FringeOf(c).items == Displaced(old(FringeOf(c).items), old(c.fringeIndex))
    {
      if c.inFringe {
        if c.isVolatile { volatileFringe.Remove(c); } else { fringe.Remove(c); }
      }
    }

    method InsertIntoUnsat(c: Clause)
      requires Lists() && c in clauses
      modifies this`unsatisfied, c`unsatisfied
      ensures Lists() && c.unsatisfied
      ensures unsatisfied == if old(c.unsatisfied) then old(unsatisfied) else old(unsatisfied) + [c]
    {
      if !c.unsatisfied {
        unsatisfied := unsatisfied + [c];
        c.unsatisfied := true;
      }
    }

    method RemoveFromUnsat(c: Clause)
      requires Lists() && c in clauses
      modifies this`unsatisfied, c`unsatisfied
      ensures Lists() && !c.unsatisfied
      ensures !old(c.unsatisfied) ==> unsatisfied == old(unsatisfied)
      ensures old(c.unsatisfied) ==>
        exists k :: 0 <= k < |old(unsatisfied)| && old(unsatisfied)[k] == c &&
                    unsatisfied == Displaced(old(unsatisfied), k)
    {
      if c.unsatisfied {
        var k := 0;
        while unsatisfied[k] != c
          decreases |unsatisfied| - k
          invariant 0 <= k < |unsatisfied|
          invariant c in unsatisfied[k..]
        {
          k := k + 1;
        }
        ghost var before := unsatisfied;
        var last := unsatisfied[|unsatisfied|-1];
        if k != |unsatisfied| - 1 { unsatisfied := unsatisfied[k := last]; }
        unsatisfied := unsatisfied[..|unsatisfied|-1];
        assert before[k] == c && unsatisfied == Displaced(before, k);
        c.unsatisfied := false;
        assert forall i :: 0 <= i < |unsatisfied| ==>
          unsatisfied[i] == if i == k then before[|before|-1] else before[i];
        forall d | d in before && d != c ensures d in unsatisfied {
          var i :| 0 <= i < |before| && before[i] == d;
          if i < |unsatisfied| { assert unsatisfied[i] == d; } else { assert unsatisfied[k] == d; }
        }
      }
    }

    // ---------- assigning ----------

    method NoteSatisfied(p: Proposition, c: Clause, ghost i: nat, ghost t: set<Literal>, ghost f: set<Literal>,
                         ghost popped: Clause?)
      requires Lists() && c in clauses && c.Shape()
      requires i < |c.lits| && c.literals[i] == p && c.lits[i] !in t + f
      requires UpToDate(c, c.deleted, c.Status(), t, f, popped)
      modifies fringe, volatileFringe, c`numUnassigned, c`satisfyingProp, c`inFringe, clauses`fringeIndex
      ensures Lists() && UpToDate(c, c.deleted, c.Status(), t + {c.lits[i]}, f, null)
    {
      hide Lists, Unknowns;
      if !c.deleted {
        UnknownsLearn(c.lits, t, f, t + {c.lits[i]}, f, i);
        UnknownsBounds(c.lits, t, f);
        c.numUnassigned := c.numUnassigned - 1;
        if c.satisfyingProp == null {
          c.satisfyingProp := p;
          RemoveFromFringe(c);
        }
      }
    }

    method VisitSatisfied(p: Proposition, c: Clause, ghost i: nat, ghost done: set<Clause>, ghost t: set<Literal>,
                          ghost f: set<Literal>, ghost t': set<Literal>, ghost popped: Clause?)
      requires Lists() && c in clauses && c !in done && c.Shape()
      requires i < |c.lits| && c.literals[i] == p && c.lits[i] !in t + f && t' == t + {c.lits[i]}
      requires Swept(done, t, f, t', f, popped)
      modifies fringe, volatileFringe
      modifies c`numUnassigned, c`satisfyingProp, c`inFringe, clauses`fringeIndex
      ensures Lists() && Swept(done + {c}, t, f, t', f, popped)
    {
      hide Lists, UpToDate, Clause.Shape;
      NoteSatisfied(p, c, i, t, f, popped);
    }

    method SatisfyNext(p: Proposition, sense: bool, k: nat, ghost t: set<Literal>, ghost f: set<Literal>,
                       ghost t': set<Literal>, ghost popped: Clause?)
      requires Shape() && Lists() && p in props && k < |p.Occurrences(sense)|
      requires Literal(p.id, sense) !in t + f && t' == t + {Literal(p.id, sense)}
      requires Swept(Elements(p.Occurrences(sense)[..k]), t, f, t', f, popped)
      modifies fringe, volatileFringe, clauses`numUnassigned, clauses`satisfyingProp, clauses`inFringe
      modifies clauses`fringeIndex
      ensures Lists() && Swept(Elements(p.Occurrences(sense)[..k+1]), t, f, t', f, popped)
    {
      var occurrences := p.Occurrences(sense);
      OccurrencesDistinct(p, sense);
      NextElement(occurrences, k);
      ghost var i := Occurrence(p, sense, k);
      hide *;
      VisitSatisfied(p, occurrences[k], i, Elements(occurrences[..k]), t, f, t', popped);
    }

    method AssignUpdateSameSense(p: Proposition, becomingTrue: bool, ghost t: set<Literal>, ghost f: set<Literal>,
                                 ghost popped: Clause?)
      requires Shape() && Lists() && p in props
      requires popped != null ==> popped in p.Occurrences(becomingTrue)
      requires Literal(p.id, becomingTrue) !in t + f
      requires Caches(t, f, popped)
      modifies fringe, volatileFringe
      modifies clauses`numUnassigned, clauses`satisfyingProp, clauses`inFringe, clauses`fringeIndex
      ensures Lists()
      ensures Caches(t + {Literal(p.id, becomingTrue)}, f, null)
    {
      ghost var t' := t + {Literal(p.id, becomingTrue)};
      SweepNone(t, f, t', f, popped);
      hide *;
      for k := 0 to |p.Occurrences(becomingTrue)|
        invariant Lists() && Swept(Elements(p.Occurrences(becomingTrue)[..k]), t, f, t', f, popped)
      {
        SatisfyNext(p, becomingTrue, k, t, f, t', popped);
      }
      CachesAfterSweep(p, becomingTrue, t, f, t', f, popped);
    }

    method NoteFalsified(c: Clause, ghost i: nat, ghost t: set<Literal>, ghost f: set<Literal>)
      requires Lists() && c in clauses && c.Shape()
      requires i < |c.lits| && c.lits[i] !in t + f
      requires UpToDate(c, c.deleted, c.Status(), t, f, null)
      modifies this`unsatisfied, fringe, volatileFringe, c`numUnassigned, c`unsatisfied, c`inFringe, clauses`fringeIndex
      ensures Lists() && UpToDate(c, c.deleted, c.Status(), t, f + {c.lits[i]}, null)
    {
      hide Lists, Unknowns;
      if !c.deleted {
        UnknownsLearn(c.lits, t, f, t, f + {c.lits[i]}, i);
        c.numUnassigned := c.numUnassigned - 1;
        if c.satisfyingProp == null {
          if c.inFringe {
            RemoveFromFringe(c);
            InsertIntoUnsat(c);
          } else if c.numUnassigned == 1 {
            InsertIntoFringe(c);
          }
        }
      }
    }

    method VisitFalsified(c: Clause, ghost i: nat, ghost done: set<Clause>, ghost t: set<Literal>,
                          ghost f: set<Literal>, ghost f': set<Literal>)
      requires Lists() && c in clauses && c !in done && c.Shape()
      requires i < |c.lits| && c.lits[i] !in t + f && f' == f + {c.lits[i]}
      requires Swept(done, t, f, t, f', null)
      modifies this`unsatisfied, fringe, volatileFringe
      modifies c`numUnassigned, c`inFringe, c`unsatisfied, clauses`fringeIndex
      ensures Lists() && Swept(done + {c}, t, f, t, f', null)
    {
      hide Lists, UpToDate, Clause.Shape;
      NoteFalsified(c, i, t, f);
    }

    method FalsifyNext(p: Proposition, sense: bool, k: nat, ghost t: set<Literal>, ghost f: set<Literal>,
                       ghost f': set<Literal>)
      requires Shape() && Lists() && p in props && k < |p.Occurrences(sense)|
      requires Literal(p.id, sense) !in t + f && f' == f + {Literal(p.id, sense)}
      requires Swept(Elements(p.Occurrences(sense)[..k]), t, f, t, f', null)
      modifies this`unsatisfied, fringe, volatileFringe, clauses`numUnassigned, clauses`inFringe, clauses`unsatisfied
      modifies clauses`fringeIndex
      ensures Lists() && Swept(Elements(p.Occurrences(sense)[..k+1]), t, f, t, f', null)
    {
      var occurrences := p.Occurrences(sense);
      OccurrencesDistinct(p, sense);
      NextElement(occurrences, k);
      ghost var i := Occurrence(p, sense, k);
      hide *;
      VisitFalsified(occurrences[k], i, Elements(occurrences[..k]), t, f, f');
    }

    method AssignUpdateOppositeSense(p: Proposition, becomingTrue: bool, ghost t: set<Literal>, ghost f: set<Literal>)
      requires Shape() && Lists() && p in props
      requires Literal(p.id, !becomingTrue) !in t + f
      requires Caches(t, f, null)
      modifies this`unsatisfied, fringe, volatileFringe
      modifies clauses`numUnassigned, clauses`inFringe, clauses`unsatisfied, clauses`fringeIndex
      ensures Lists()
      ensures Caches(t, f + {Literal(p.id, !becomingTrue)}, null)
    {
      ghost var f' := f + {Literal(p.id, !becomingTrue)};
      SweepNone(t, f, t, f', null);
      hide *;
      for k := 0 to |p.Occurrences(!becomingTrue)|
        invariant Lists() && Swept(Elements(p.Occurrences(!becomingTrue)[..k]), t, f, t, f', null)
      {
        FalsifyNext(p, !becomingTrue, k, t, f, f');
      }
      CachesAfterSweep(p, !becomingTrue, t, f, t, f', null);
    }

    // ---------- support ----------

    static ghost predicate Valued(ps: seq<Proposition>, t: set<Literal>)
      reads ps`tv
    {
      && (forall p :: p in ps ==>
            (p.tv == PTrue <==> Literal(p.id, true) in t) && (p.tv == PFalse <==> Literal(p.id, false) in t))
      && (forall l :: l in t ==> l.prop < |ps|)
    }

    /** The true literals are those of the propositions' values. */
    ghost predicate Values(t: set<Literal>)
      reads this`props, props`tv
    {
      Valued(props, t)
    }

    static ghost predicate WellFoundedIn(ps: seq<Proposition>, cs: seq<Clause>, rank: map<nat, nat>, t: set<Literal>,
                                         f: set<Literal>, loose: set<Proposition>)
      reads cs`deleted, ps`tv, ps`supportedBy, ps`slot
    {
      && (forall p :: p in ps && p.tv != Unknown ==> p.id in rank)
      && forall p :: p in ps && p.tv != Unknown && p !in loose ==>
           && p.supportedBy in cs && !p.supportedBy.deleted
           && Forces(p.supportedBy.lits, p.slot, t, f, rank) && p.supportedBy.lits[p.slot].prop == p.id
    }

    /** Every value outside `loose` is forced by a clause of the theory, in some order of assignment. */
    ghost predicate WellFounded(t: set<Literal>, f: set<Literal>, loose: set<Proposition>)
      reads this`props, this`clauses, this`rank, clauses`deleted, props`tv, props`supportedBy, props`slot
    {
      WellFoundedIn(props, clauses, rank, t, f, loose)
    }

    static ghost predicate LinkedIn(ps: seq<Proposition>, cs: seq<Clause>, loose: set<Proposition>)
      reads cs`supports, cs`deleted, ps`tv, ps`supportedBy
    {
      && (forall p :: p in ps ==> (p.tv == Unknown <==> p.supportedBy == null))
      && (forall p :: p in ps && p.tv != Unknown && p !in loose ==>
            && p.supportedBy in cs
            && p.supportedBy.supports < |p.supportedBy.literals| && p.supportedBy.GetSupports() == p)
      && (forall c :: c in cs ==>
            c.supports < |c.literals| && (c.GetSupports() != null ==>
              !c.deleted && c.GetSupports() in ps && c.GetSupports() !in loose && c.GetSupports().supportedBy == c))
    }

    /** A clause and the proposition it supports point at each other, except for `loose` propositions. */
    ghost predicate Linked(loose: set<Proposition>)
      reads this`props, this`clauses, clauses`supports, clauses`deleted, props`tv, props`supportedBy
    {
      LinkedIn(props, clauses, loose)
    }

    ghost predicate Pending()
      reads this`undoList, this`props, props`tv
    {
      && NoDuplicates(undoList)
      && forall p :: p in undoList ==> p in props && p.tv != Unknown
    }

    ghost function Queued(): set<Proposition>
      reads this`undoList
    {
      set p | p in undoList
    }

    /** The supports hold except for the propositions queued to be unassigned and those of `extra`. */
    ghost predicate Support(t: set<Literal>, f: set<Literal>, extra: set<Proposition>)
      reads this`props, this`clauses, this`rank, this`undoList
      reads clauses`deleted, clauses`supports, props`tv, props`supportedBy, props`slot
    {
      && Pending() && Queued() !! extra
      && Linked(Queued() + extra)
      && WellFounded(t, f, Queued() + extra)
    }

    ghost function PropsExcept(p: Proposition): set<Proposition>
      reads this`props
    {
      set q | q in props && q != p
    }

    /** What the supports say about these propositions; no clause supports any other. */
    ghost predicate SupportExcept(others: set<Proposition>, t: set<Literal>, f: set<Literal>, loose: set<Proposition>,
                                  rank: map<nat, nat>)
      reads this`props, this`clauses, clauses`deleted, clauses`supports
      reads others`tv, others`supportedBy, others`slot
    {
      && (forall q :: q in others ==> (q.tv == Unknown <==> q.supportedBy == null))
      && (forall q :: q in others && q.tv != Unknown ==> q.id in rank)
      && (forall q :: q in others && q.tv != Unknown && q !in loose ==>
            q.supportedBy in clauses && !q.supportedBy.deleted &&
            q.supportedBy.supports < |q.supportedBy.literals| && q.supportedBy.GetSupports() == q &&
            Forces(q.supportedBy.lits, q.slot, t, f, rank) && q.supportedBy.lits[q.slot].prop == q.id)
      && (forall c :: c in clauses ==>
            c.supports < |c.literals| && (c.GetSupports() != null ==>
              !c.deleted && c.GetSupports() in others && c.GetSupports() !in loose && c.GetSupports().supportedBy == c))
    }

    lemma SupportExceptFrom(p: Proposition, t: set<Literal>, f: set<Literal>, loose: set<Proposition>)
      requires Linked(loose) && WellFounded(t, f, loose) && p in props && (p in loose || p.supportedBy == null)
      ensures SupportExcept(PropsExcept(p), t, f, loose - {p}, rank)
    {
      hide Forces;
    }

    lemma SupportExceptInto(p: Proposition, others: set<Proposition>, t: set<Literal>, f: set<Literal>,
                            loose: set<Proposition>)
      requires others == PropsExcept(p) && SupportExcept(others, t, f, loose - {p}, rank)
      requires p.tv == Unknown <==> p.supportedBy == null
      requires p.tv == Unknown || (p.id in rank && p in loose)
      ensures Linked(loose) && WellFounded(t, f, loose)
    {
      hide Forces;
    }

    /** Giving a value to a proposition that had none disturbs no other support. */
    lemma SupportExceptWith(p: Proposition, l: Literal, t: set<Literal>, f: set<Literal>, loose: set<Proposition>,
                            rank: map<nat, nat>, r: nat)
      requires SupportExcept(PropsExcept(p), t, f, loose, rank) && l.prop == p.id
      requires Silent(t, f, p.id)
      ensures SupportExcept(PropsExcept(p), t + {l}, f + {l.Negation()}, loose, rank[p.id := r])
    {
      hide Forces;
      forall q | q in PropsExcept(p) && q.tv != Unknown && q !in loose
        ensures Forces(q.supportedBy.lits, q.slot, t + {l}, f + {l.Negation()}, rank[p.id := r])
      {
        ForcesWith(q.supportedBy.lits, q.slot, t, f, rank, l, r);
      }
    }

    /** Nothing but `p` itself has a value that needs the literal of `p` to be true. */
    lemma SupportExceptWithout(p: Proposition, l: Literal, t: set<Literal>, f: set<Literal>, loose: set<Proposition>)
      requires Shape() && p in props && SupportExcept(PropsExcept(p), t, f, loose, rank) && l.prop == p.id
      ensures SupportExcept(PropsExcept(p), t - {l}, f, loose, rank)
    {
      hide Forces, Shape;
      forall q | q in PropsExcept(p) && q.tv != Unknown && q !in loose
        ensures Forces(q.supportedBy.lits, q.slot, t - {l}, f, rank)
      {
        if q.id == p.id { SameProposition(p, q); }
        ForcesWithout(q.supportedBy.lits, q.slot, t, f, rank, l);
      }
    }

    lemma SupportParts(t: set<Literal>, f: set<Literal>, extra: set<Proposition>, loose: set<Proposition>)
      requires loose == Queued() + extra
      ensures Support(t, f, extra) <==> Pending() && Queued() !! extra && Linked(loose) && WellFounded(t, f, loose)
    {
      hide Pending, Linked, WellFounded;
    }

    ghost function Others(c: Clause): set<Clause>
      reads this`clauses
    {
      set d | d in clauses && d != c
    }

    /** No value outside `loose` rests on a clause that is not among `others`. */
    ghost predicate SupportBy(others: set<Clause>, t: set<Literal>, f: set<Literal>, loose: set<Proposition>)
      reads this`props, this`rank, others`deleted, others`supports, props`tv, props`supportedBy, props`slot
    {
      && (forall p :: p in props ==> (p.tv == Unknown <==> p.supportedBy == null))
      && (forall p :: p in props && p.tv != Unknown ==> p.id in rank)
      && (forall p :: p in props && p.tv != Unknown && p !in loose ==>
            p.supportedBy in others && !p.supportedBy.deleted &&
            p.supportedBy.supports < |p.supportedBy.literals| && p.supportedBy.GetSupports() == p &&
            Forces(p.supportedBy.lits, p.slot, t, f, rank) && p.supportedBy.lits[p.slot].prop == p.id)
      && (forall c :: c in others ==>
            c.supports < |c.literals| && (c.GetSupports() != null ==>
              !c.deleted && c.GetSupports() in props && c.GetSupports() !in loose && c.GetSupports().supportedBy == c))
    }

    /** Whatever the clause supported becomes loose. */
    lemma SupportByFrom(c: Clause, t: set<Literal>, f: set<Literal>, loose: set<Proposition>)
      requires c in clauses && Linked(loose) && WellFounded(t, f, loose)
      ensures c.supports < |c.literals|
      ensures c.GetSupports() != null ==>
        c.GetSupports() in props && c.GetSupports().tv != Unknown && c.GetSupports() !in loose
      ensures SupportBy(Others(c), t, f, loose + if c.GetSupports() != null then {c.GetSupports()} else {})
    {
      hide Forces;
    }

    lemma SupportByInto(c: Clause, others: set<Clause>, t: set<Literal>, f: set<Literal>, loose: set<Proposition>)
      requires c in clauses && others == Others(c) && SupportBy(others, t, f, loose) && c.supports < 0
      ensures Linked(loose) && WellFounded(t, f, loose)
    {
      hide Forces;
    }

    /** These values rest only on each other, and none of them is about to be undone; an orphan may rest on anything. */
    ghost predicate Spared(keep: set<Proposition>, orphans: set<Proposition>)
      reads this`undoList, keep`tv, keep`supportedBy
    {
      && (forall p :: p in keep ==> p.tv != Unknown && p !in undoList)
      && (forall p, q ::
            p in keep && p !in orphans && p.supportedBy != null && q in p.supportedBy.literals && q != p ==> q in keep)
    }

    /** A clause with an unknown literal supports none of the spared values. */
    lemma ReleasesNone(c: Clause, i: nat, keep: set<Proposition>, orphans: set<Proposition>, t: set<Literal>,
                       f: set<Literal>)
      requires c in clauses && Support(t, f, orphans) && Spared(keep, orphans) && i < |c.literals|
      requires c.literals[i].tv == Unknown
      ensures c.supports < |c.literals| && c.GetSupports() !in keep
    {
      hide WellFounded;
    }

    /** LTMS::enqueue_for_undo, for what the clause supported; from now on it supports nothing. */
    method Release(c: Clause, ghost keep: set<Proposition>, ghost orphans: set<Proposition>) returns (released: bool)
      requires Pending() && Spared(keep, orphans) && c.supports < |c.literals| && c.GetSupports() !in keep
      requires c.GetSupports() != null ==>
        c.GetSupports() in props && c.GetSupports().tv != Unknown && c.GetSupports() !in Queued()
      modifies this`undoList, c`supports
      ensures Pending() && Spared(keep, orphans) && c.supports < 0 && (released <==> undoList != old(undoList))
      ensures Queued() == old(Queued()) + if old(c.GetSupports()) != null then {old(c.GetSupports())} else {}
    {
      var supported := c.GetSupports();
      released := supported != null;
      if released {
        undoList := undoList + [supported];
        c.supports := -1;
      }
    }

    // ---------- unassigning ----------

    /** Clause::find_satisfying_prop */
    method FindSatisfyingProp(c: Clause, ghost t: set<Literal>) returns (r: Proposition?)
      requires Shape() && c in clauses && Values(t)
      ensures r == null <==> !Satisfied(c.lits, t)
      ensures r != null ==> exists i :: 0 <= i < |c.lits| == |c.literals| && c.lits[i] in t && c.literals[i] == r
    {
      for k := 0 to |c.literals|
        invariant forall j :: 0 <= j < k ==> c.lits[j] !in t
      {
        var p := c.literals[k];
        assert p in props && c.lits[k] == Literal(p.id, k < c.numPositive);
        if (k < c.numPositive && p.tv == PTrue) || (k >= c.numPositive && p.tv == PFalse) {
          return p;
        }
      }
      return null;
    }

    lemma UnknownMeansNoTrueLiteral(p: Proposition, c: Clause, t: set<Literal>)
      requires p in props && Values(t) && p.tv == Unknown && c.Shape()
      ensures forall j :: 0 <= j < |c.lits| && c.literals[j] == p ==> c.lits[j] !in t
    {
    }

    method NoteUnsatisfied(p: Proposition, c: Clause, ghost i: nat, ghost t: set<Literal>, ghost f: set<Literal>)
      requires Shape() && Lists() && c in clauses && c.Shape() && Values(t)
      requires i < |c.lits| && c.literals[i] == p && c.lits[i] !in t + f
      requires forall j :: 0 <= j < |c.lits| && c.literals[j] == p ==> c.lits[j] !in t
      requires UpToDate(c, c.deleted, c.Status(), t + {c.lits[i]}, f, null)
      modifies fringe, volatileFringe, c`numUnassigned, c`satisfyingProp, c`inFringe, c`fringeIndex
      ensures Lists() && UpToDate(c, c.deleted, c.Status(), t, f, null)
    {
      hide Lists, Unknowns, Values, Shape;
      if !c.deleted {
        UnknownsLearn(c.lits, t, f, t + {c.lits[i]}, f, i);
        UnknownsOne(c.lits, t, f, i);
        assert Satisfied(c.lits, t + {c.lits[i]});
        c.numUnassigned := c.numUnassigned + 1;
        if c.satisfyingProp == p {
          c.satisfyingProp := FindSatisfyingProp(c, t);
          if c.satisfyingProp == null {
            if c.numUnassigned == 1 {
              InsertIntoFringe(c);
            }
          }
        }
      }
    }

    method VisitUnsatisfied(p: Proposition, c: Clause, ghost i: nat, ghost done: set<Clause>, ghost t: set<Literal>,
                            ghost t': set<Literal>, ghost f: set<Literal>)
      requires Shape() && Lists() && c in clauses && c !in done && c.Shape() && p in props && Values(t')
      requires p.tv == Unknown
      requires i < |c.lits| && c.literals[i] == p && c.lits[i] !in t' + f && t == t' + {c.lits[i]}
      requires Swept(done, t, f, t', f, null)
      modifies fringe, volatileFringe
      modifies c`numUnassigned, c`satisfyingProp, c`inFringe, c`fringeIndex
      ensures Lists() && Swept(done + {c}, t, f, t', f, null)
    {
      UnknownMeansNoTrueLiteral(p, c, t');
      hide Lists, UpToDate, Clause.Shape, Shape, Values;
      NoteUnsatisfied(p, c, i, t', f);
    }

    method UnsatisfyNext(p: Proposition, sense: bool, k: nat, ghost t: set<Literal>, ghost t': set<Literal>,
                         ghost f: set<Literal>)
      requires Shape() && Lists() && p in props && k < |p.Occurrences(sense)|
      requires Values(t') && p.tv == Unknown
      requires Literal(p.id, sense) !in t' + f && t == t' + {Literal(p.id, sense)}
      requires Swept(Elements(p.Occurrences(sense)[..k]), t, f, t', f, null)
      modifies fringe, volatileFringe, clauses`numUnassigned, clauses`satisfyingProp, clauses`inFringe
      modifies clauses`fringeIndex
      ensures Lists() && Swept(Elements(p.Occurrences(sense)[..k+1]), t, f, t', f, null)
    {
      var occurrences := p.Occurrences(sense);
      OccurrencesDistinct(p, sense);
      NextElement(occurrences, k);
      ghost var i := Occurrence(p, sense, k);
      hide *;
      VisitUnsatisfied(p, occurrences[k], i, Elements(occurrences[..k]), t, t', f);
    }

    method UnassignUpdateSameSense(p: Proposition, wasTrue: bool, ghost t: set<Literal>, ghost f: set<Literal>)
      requires Shape() && Lists() && p in props && Values(t) && p.tv == Unknown
      requires Literal(p.id, wasTrue) !in t + f
      requires Caches(t + {Literal(p.id, wasTrue)}, f, null)
      modifies fringe, volatileFringe
      modifies clauses`numUnassigned, clauses`satisfyingProp, clauses`inFringe, clauses`fringeIndex
      ensures Lists()
      ensures Caches(t, f, null)
    {
      ghost var t0 := t + {Literal(p.id, wasTrue)};
      SweepNone(t0, f, t, f, null);
      hide *;
      for k := 0 to |p.Occurrences(wasTrue)|
        invariant Lists() && Swept(Elements(p.Occurrences(wasTrue)[..k]), t0, f, t, f, null)
      {
        UnsatisfyNext(p, wasTrue, k, t0, t, f);
      }
      CachesAfterSweep(p, wasTrue, t0, f, t, f, null);
    }

    /** Queue the proposition that the clause supports, if any, and forget the support. */
    method ReleaseSupport(c: Clause, ghost t: set<Literal>, ghost f: set<Literal>, ghost keep: set<Proposition>,
                          ghost orphans: set<Proposition>)
      requires c in clauses && Support(t, f, orphans) && Spared(keep, orphans) && c.supports < |c.literals|
      requires c.GetSupports() !in keep
      modifies this`undoList, c`supports
      ensures Support(t, f, orphans) && Spared(keep, orphans) && c.supports < 0
    {
      hide Pending, Linked, WellFounded, SupportBy, Queued, Forces, Spared;
      SupportByFrom(c, t, f, Queued() + orphans);
      ghost var others := Others(c);
      var _ := Release(c, keep, orphans);
      assert Queued() + orphans ==
        old(Queued()) + orphans + if old(c.GetSupports()) != null then {old(c.GetSupports())} else {};
      SupportByInto(c, others, t, f, Queued() + orphans);
    }

    /** What forgetting a false literal does to the status of its clause. */
    lemma ExactForget(c: Clause, s: ClauseStatus, i: nat, t: set<Literal>, f: set<Literal>)
      requires c.Shape() && i < |c.lits| && c.lits[i] !in t + f
      requires Exact(c, s, t, f + {c.lits[i]}, null)
      ensures var s' := s.(numUnassigned := s.numUnassigned + 1, inFringe := s.unsatisfied, unsatisfied := false);
              Exact(c, s', t, f, null)
    {
      hide Unknowns;
      UnknownsLearn(c.lits, t, f, t, f + {c.lits[i]}, i);
    }

    /** A clause with one more unknown literal: it was unsatisfied, or in the fringe, or may have supported
        something. */
    method SettleUnknown(c: Clause, ghost t: set<Literal>, ghost f: set<Literal>, ghost keep: set<Proposition>,
                         ghost orphans: set<Proposition>)
      requires Lists() && c in clauses && Support(t, f, orphans) && (c.supports >= 0 ==> !c.unsatisfied && !c.inFringe)
      requires Spared(keep, orphans) && c.supports < |c.literals| && c.GetSupports() !in keep
      modifies this`unsatisfied, this`undoList, fringe, volatileFringe
      modifies c`unsatisfied, c`inFringe, c`supports, clauses`fringeIndex
      ensures Lists() && Support(t, f, orphans) && Spared(keep, orphans) && c.supports < 0
      ensures !c.unsatisfied && c.inFringe == old(c.unsatisfied)
    {
      hide *;
      if c.unsatisfied {
        RemoveFromUnsat(c);
        InsertIntoFringe(c);
      } else if c.inFringe {
        RemoveFromFringe(c);
      } else {
        ReleaseSupport(c, t, f, keep, orphans);
      }
    }

    method NoteUnknown(c: Clause, ghost i: nat, ghost t: set<Literal>, ghost f: set<Literal>,
                       ghost keep: set<Proposition>, ghost orphans: set<Proposition>)
      requires Lists() && c in clauses && c.Shape()
      requires i < |c.lits| && c.lits[i] !in t + f
      requires UpToDate(c, c.deleted, c.Status(), t, f + {c.lits[i]}, null)
      requires Support(t, f + {c.lits[i]}, orphans)
      requires Spared(keep, orphans) && i < |c.literals| && c.literals[i].tv == Unknown
      modifies this`unsatisfied, this`undoList, fringe, volatileFringe
      modifies c`numUnassigned, c`unsatisfied, c`inFringe, c`supports, clauses`fringeIndex
      ensures Lists() && UpToDate(c, c.deleted, c.Status(), t, f, null)
      ensures Support(t, f + {c.lits[i]}, orphans) && Spared(keep, orphans) && c.supports < 0
    {
      NoteFacts(c, i, t, f, keep, orphans);
      hide *;
      if !c.deleted {
        c.numUnassigned := c.numUnassigned + 1;
        SettleUnknown(c, t, f + {c.lits[i]}, keep, orphans);
      }
      UpToDateNow(c, t, f);
    }

    lemma NoteFacts(c: Clause, i: nat, t: set<Literal>, f: set<Literal>, keep: set<Proposition>,
                    orphans: set<Proposition>)
      requires c in clauses && c.Shape() && i < |c.lits| && c.lits[i] !in t + f
      requires UpToDate(c, c.deleted, c.Status(), t, f + {c.lits[i]}, null) && Support(t, f + {c.lits[i]}, orphans)
      requires Spared(keep, orphans) && c.literals[i].tv == Unknown
      ensures c.supports < |c.literals| && c.GetSupports() !in keep
      ensures (c.supports >= 0 ==> !c.deleted && !c.unsatisfied && !c.inFringe)
      ensures c.deleted ==> !c.inFringe && !c.unsatisfied
      ensures !c.deleted ==>
        Exact(c, Cached(c.numUnassigned + 1, c.satisfyingProp, c.unsatisfied, false), t, f, null)
    {
      SupportsKnown(c, t, f + {c.lits[i]}, orphans);
      ReleasesNone(c, i, keep, orphans, t, f + {c.lits[i]});
      hide Support, Spared, Exact;
      if !c.deleted { ExactForget(c, c.Status(), i, t, f); }
    }

    lemma UpToDateNow(c: Clause, t: set<Literal>, f: set<Literal>)
      ensures UpToDate(c, c.deleted, c.Status(), t, f, null) <==>
        if c.deleted then !c.inFringe && !c.unsatisfied
        else Exact(c, Cached(c.numUnassigned, c.satisfyingProp, c.inFringe, c.unsatisfied), t, f, null)
    {
      hide Exact;
    }

    lemma SupportsKnown(c: Clause, t: set<Literal>, f: set<Literal>, orphans: set<Proposition>)
      requires c in clauses && Support(t, f, orphans) && UpToDate(c, c.deleted, c.Status(), t, f, null)
      ensures c.supports >= 0 ==> !c.deleted && !c.unsatisfied && !c.inFringe
    {
    }

    /** None of these clauses supports anything. */
    ghost predicate Released(cs: set<Clause>)
      reads cs`supports
    {
      forall c :: c in cs ==> c.supports < 0
    }

    method VisitUnknown(c: Clause, ghost i: nat, ghost done: set<Clause>, ghost t: set<Literal>, ghost f: set<Literal>,
                        ghost f': set<Literal>, ghost keep: set<Proposition>, ghost orphans: set<Proposition>)
      requires Lists() && c in clauses && c !in done && c.Shape()
      requires i < |c.lits| && c.lits[i] !in t + f' && f == f' + {c.lits[i]}
      requires Swept(done, t, f, t, f', null) && Support(t, f, orphans) && Released(done)
      requires Spared(keep, orphans) && i < |c.literals| && c.literals[i].tv == Unknown
      modifies this`unsatisfied, this`undoList, fringe, volatileFringe
      modifies c`numUnassigned, c`inFringe, c`unsatisfied, c`supports, clauses`fringeIndex
      ensures Lists() && Swept(done + {c}, t, f, t, f', null) && Support(t, f, orphans) && Released(done + {c})
      ensures Spared(keep, orphans)
    {
      hide Lists, UpToDate, Clause.Shape, Support, Spared;
      NoteUnknown(c, i, t, f', keep, orphans);
    }

    method ForgetNext(p: Proposition, sense: bool, k: nat, ghost t: set<Literal>, ghost f: set<Literal>,
                      ghost f': set<Literal>, ghost keep: set<Proposition>, ghost orphans: set<Proposition>)
      requires Shape() && Lists() && p in props && k < |p.Occurrences(sense)|
      requires Literal(p.id, sense) !in t + f' && f == f' + {Literal(p.id, sense)}
      requires Swept(Elements(p.Occurrences(sense)[..k]), t, f, t, f', null)
      requires Support(t, f, orphans) && Released(Elements(p.Occurrences(sense)[..k]))
      requires Spared(keep, orphans) && p.tv == Unknown
      modifies this`unsatisfied, this`undoList, fringe, volatileFringe, clauses`numUnassigned, clauses`inFringe
      modifies clauses`unsatisfied, clauses`fringeIndex, clauses`supports
      ensures Lists() && Swept(Elements(p.Occurrences(sense)[..k+1]), t, f, t, f', null)
      ensures Spared(keep, orphans) && Support(t, f, orphans) && Released(Elements(p.Occurrences(sense)[..k+1]))
    {
      var occurrences := p.Occurrences(sense);
      OccurrencesDistinct(p, sense);
      NextElement(occurrences, k);
      ghost var i := Occurrence(p, sense, k);
      hide *;
      VisitUnknown(occurrences[k], i, Elements(occurrences[..k]), t, f, f', keep, orphans);
    }

    method UnassignUpdateOppositeSense(p: Proposition, wasTrue: bool, ghost t: set<Literal>, ghost f: set<Literal>,
                                       ghost keep: set<Proposition>, ghost orphans: set<Proposition>)
      requires Shape() && Lists() && p in props
      requires Literal(p.id, !wasTrue) !in t + f
      requires Caches(t, f + {Literal(p.id, !wasTrue)}, null)
      requires Support(t, f + {Literal(p.id, !wasTrue)}, orphans)
      requires Spared(keep, orphans) && p.tv == Unknown
      modifies this`unsatisfied, this`undoList, fringe, volatileFringe
      modifies clauses`numUnassigned, clauses`inFringe, clauses`unsatisfied, clauses`fringeIndex, clauses`supports
      ensures Spared(keep, orphans) && Lists() && Caches(t, f, null)
      ensures Support(t, f, orphans)
    {
      ghost var f0 := f + {Literal(p.id, !wasTrue)};
      SweepNone(t, f0, t, f, null);
      hide *;
      for k := 0 to |p.Occurrences(!wasTrue)|
        invariant Lists() && Swept(Elements(p.Occurrences(!wasTrue)[..k]), t, f0, t, f, null)
        invariant Support(t, f0, orphans)
        invariant Spared(keep, orphans) && Released(Elements(p.Occurrences(!wasTrue)[..k]))
      {
        ForgetNext(p, !wasTrue, k, t, f0, f, keep, orphans);
      }
      CachesAfterSweep(p, !wasTrue, t, f0, t, f, null);
      SupportAfterSweep(p, !wasTrue, t, f0, f, orphans);
    }

    /** Once no clause with the literal supports anything, no remaining value rests on it. */
    lemma SupportAfterSweep(p: Proposition, sense: bool, t: set<Literal>, f: set<Literal>, f': set<Literal>,
                            orphans: set<Proposition>)
      requires Shape() && p in props && f == f' + {Literal(p.id, sense)}
      requires Support(t, f, orphans)
      requires Released(Elements(p.Occurrences(sense)))
      ensures Support(t, f', orphans)
    {
      hide Shape;
      forall q | q in props && q.tv != Unknown && q !in Queued() + orphans
        ensures Forces(q.supportedBy.lits, q.slot, t, f', rank)
      {
        var c := q.supportedBy;
        if Literal(p.id, sense) in c.lits { OccurrencesComplete(p, sense, c); }
      }
    }

    /** Everything holds except the support of the propositions queued to be unassigned and those of `extra`. */
    ghost predicate Coherent(extra: set<Proposition>)
      reads this`props, this`clauses, this`unsatisfied, this`undoList, this`trues, this`rank
      reads fringe, volatileFringe, fringe.items`inFringe, volatileFringe.items`inFringe
      reads fringe.items`fringeIndex, volatileFringe.items`fringeIndex, unsatisfied`unsatisfied
      reads props`positive, props`negative, props`tv, props`supportedBy, props`slot
      reads clauses`deleted, clauses`supports, clauses`inFringe, clauses`fringeIndex, clauses`unsatisfied
      reads clauses`numUnassigned, clauses`satisfyingProp
    {
      && Shape() && Lists() && Values(trues)
      && Caches(trues, Opposites(trues), null)
      && Support(trues, Opposites(trues), extra)
    }

    /** Proposition::initialize, for a proposition that nothing rests on any more. */
    method ClearValue(p: Proposition, ghost l: Literal, ghost t: set<Literal>, ghost f: set<Literal>,
                      ghost orphans: set<Proposition>)
      requires Shape() && p in props && l.prop == p.id && p !in orphans && Support(t, f, orphans + {p})
      modifies p`tv, p`supportedBy
      ensures p.tv == Unknown && Support(t - {l}, f, orphans)
    {
      ghost var loose := Queued() + orphans;
      assert Queued() + (orphans + {p}) == loose + {p};
      SupportParts(t, f, orphans + {p}, loose + {p});
      SupportExceptFrom(p, t, f, loose + {p});
      assert loose + {p} - {p} == loose - {p} == loose;
      SupportExceptWithout(p, l, t, f, loose);
      ghost var others := PropsExcept(p);
      assert p !in others;
      hide Linked, WellFounded, SupportExcept, Support, Queued, PropsExcept;
      p.tv, p.supportedBy := Unknown, null;
      SupportExceptInto(p, others, t - {l}, f, loose);
      SupportParts(t - {l}, f, orphans, loose);
    }

    method ForgetValue(p: Proposition, ghost l: Literal, ghost orphans: set<Proposition>)
      requires Shape() && Lists() && Values(trues) && p in props && p !in undoList && p !in orphans
      requires l == Literal(p.id, p.tv == PTrue) && p.tv != Unknown
      requires Caches(trues, Opposites(trues), null) && Support(trues, Opposites(trues), orphans + {p})
      modifies p`tv, p`supportedBy, this`trues
      ensures Shape() && Lists()
      ensures p.tv == Unknown && l in old(trues) && trues == old(trues) - {l} && Values(trues)
      ensures l !in trues + (Opposites(trues) + {l.Negation()}) && l.Negation() !in trues + Opposites(trues)
      ensures Caches(trues + {l}, Opposites(trues) + {l.Negation()}, null)
      ensures Support(trues, Opposites(trues) + {l.Negation()}, orphans)
    {
      hide Caches, Support, Lists, Shape;
      forall q | q in props && q.id == p.id ensures q == p { SameProposition(p, q); }
      ClearValue(p, l, trues, Opposites(trues), orphans);
      trues := trues - {l};
      assert trues + {l} == old(trues);
      OppositesLess(old(trues), l);
      OppositeIn(trues, l);
      OppositeIn(trues, l.Negation());
    }

    method UnassignUpdates(p: Proposition, wasTrue: bool, ghost l: Literal, ghost t: set<Literal>,
                           ghost f: set<Literal>,
                           ghost keep: set<Proposition>, ghost orphans: set<Proposition>)
      requires Shape() && Lists() && p in props && p.tv == Unknown && Values(t) && l == Literal(p.id, wasTrue)
      requires l !in t + (f + {l.Negation()}) && l.Negation() !in t + f
      requires Caches(t + {l}, f + {l.Negation()}, null) && Support(t, f + {l.Negation()}, orphans)
      requires Spared(keep, orphans)
      modifies this`unsatisfied, this`undoList, fringe, volatileFringe
      modifies clauses`numUnassigned, clauses`satisfyingProp, clauses`inFringe, clauses`unsatisfied, clauses`fringeIndex
      modifies clauses`supports
      ensures Spared(keep, orphans) && Shape() && Values(t) && Lists() && Caches(t, f, null) && Support(t, f, orphans)
    {
      hide Spared, Shape, Lists, Values, Caches, Support, Opposites, Queued;
      UnassignUpdateSameSense(p, wasTrue, t, f + {l.Negation()});
      UnassignUpdateOppositeSense(p, wasTrue, t, f, keep, orphans);
    }

    method Forget(p: Proposition, ghost keep: set<Proposition>, ghost orphans: set<Proposition>)
      requires Spared(keep, orphans) && p !in keep && p !in orphans && p in props && p.tv != Unknown && p !in undoList
      requires Shape() && Lists() && Values(trues)
      requires Caches(trues, Opposites(trues), null) && Support(trues, Opposites(trues), orphans + {p})
      modifies this`unsatisfied, this`undoList, this`trues, fringe, volatileFringe, p`tv, p`supportedBy
      modifies clauses`numUnassigned, clauses`satisfyingProp, clauses`inFringe, clauses`unsatisfied, clauses`fringeIndex
      modifies clauses`supports
      ensures Spared(keep, orphans) && Shape() && Lists() && Values(trues) && trues < old(trues) && p.tv == Unknown
      ensures Caches(trues, Opposites(trues), null) && Support(trues, Opposites(trues), orphans)
    {
      hide *;
      var wasTrue := p.tv == PTrue;
      ghost var l := Literal(p.id, wasTrue);
      ForgetValue(p, l, orphans);
      UnassignUpdates(p, wasTrue, l, trues, Opposites(trues), keep, orphans);
    }

    lemma Parts(extra: set<Proposition>)
      ensures Coherent(extra) <==>
        && Shape() && Lists() && Values(trues)
        && Caches(trues, Opposites(trues), null) && Support(trues, Opposites(trues), extra)
    {
      hide Shape, Lists, Values, Caches, Support, Opposites;
    }

    method Unassign(p: Proposition, ghost keep: set<Proposition>, ghost orphans: set<Proposition>)
      requires Spared(keep, orphans) && p !in keep + orphans && Coherent(orphans + {p})
      requires p in props && p.tv != Unknown && p !in undoList
      modifies this`unsatisfied, this`undoList, this`trues, fringe, volatileFringe, p`tv, p`supportedBy
      modifies clauses`numUnassigned, clauses`satisfyingProp, clauses`inFringe, clauses`unsatisfied, clauses`fringeIndex
      modifies clauses`supports
      ensures Spared(keep, orphans) && Coherent(orphans) && trues < old(trues) && p.tv == Unknown
    {
      Parts(orphans + {p});
      hide *;
      Forget(p, keep, orphans);
      Parts(orphans);
    }

    method UndoPropagations(ghost keep: set<Proposition>, ghost orphans: set<Proposition>)
      requires Spared(keep, orphans) && Coherent(orphans)
      modifies this`unsatisfied, this`undoList, this`trues, fringe, volatileFringe, props`tv, props`supportedBy
      modifies clauses`numUnassigned, clauses`satisfyingProp, clauses`inFringe, clauses`unsatisfied, clauses`fringeIndex
      modifies clauses`supports
      ensures forall p :: p in props && p.tv != Unknown ==> p.tv == old(p.tv) && p.supportedBy == old(p.supportedBy)
      ensures Spared(keep, orphans) && Coherent(orphans) && undoList == [] && trues <= old(trues)
    {
      hide *;
      while undoList != []
        invariant forall p :: p in props && p.tv != Unknown ==> p.tv == old(p.tv) && p.supportedBy == old(p.supportedBy)
        invariant Spared(keep, orphans) && Coherent(orphans) && trues <= old(trues)
        decreases trues
      {
        UndoOne(keep, orphans);
      }
    }

    method UndoOne(ghost keep: set<Proposition>, ghost orphans: set<Proposition>)
      requires Spared(keep, orphans) && Coherent(orphans) && undoList != []
      modifies this`unsatisfied, this`undoList, this`trues, fringe, volatileFringe, props`tv, props`supportedBy
      modifies clauses`numUnassigned, clauses`satisfyingProp, clauses`inFringe, clauses`unsatisfied, clauses`fringeIndex
      modifies clauses`supports
      ensures forall p :: p in props && p.tv != Unknown ==> p.tv == old(p.tv) && p.supportedBy == old(p.supportedBy)
      ensures Spared(keep, orphans) && Coherent(orphans) && trues < old(trues)
    {
      hide *;
      var p := PopUndo(keep, orphans);
      Unassign(p, keep, orphans);
    }

    method PopUndo(ghost keep: set<Proposition>, ghost orphans: set<Proposition>) returns (p: Proposition)
      requires Spared(keep, orphans) && Coherent(orphans) && undoList != []
      modifies this`undoList
      ensures Spared(keep, orphans) && p !in keep + orphans && Coherent(orphans + {p})
      ensures p in props && p.tv != Unknown && p !in undoList
    {
      hide Shape, Lists, Values, Caches, Linked, WellFounded, Opposites;
      p := undoList[|undoList|-1];
      undoList := undoList[..|undoList|-1];
      assert old(Queued()) + orphans == Queued() + (orphans + {p});
    }

    // ---------- adding and removing clauses ----------

    ghost function Theory(): set<Disjunction>
      reads this`clauses, clauses`deleted
    {
      set c | c in clauses && !c.deleted :: c.lits
    }

    ghost predicate Stamped()
      reads this`clauses, this`timeStamp, clauses`timeStamp
    {
      forall c :: c in clauses ==> c.timeStamp <= timeStamp
    }

    /** A state between two calls: every value is supported, and the clause that supports it knows, except for the
        values that partial_propagate assigned to the `orphans`. */
    ghost predicate Usable(orphans: set<Proposition>)
      reads this, fringe, volatileFringe, fringe.items`inFringe, volatileFringe.items`inFringe
      reads fringe.items`fringeIndex, volatileFringe.items`fringeIndex, unsatisfied`unsatisfied
      reads props`positive, props`negative, props`tv, props`supportedBy, props`slot, orphans`tv
      reads clauses`deleted, clauses`supports, clauses`inFringe, clauses`fringeIndex, clauses`unsatisfied
      reads clauses`numUnassigned, clauses`satisfyingProp, clauses`timeStamp
    {
      Coherent(orphans) && Known(orphans) && undoList == [] && Stamped() && orphans <= Elements(props)
    }

    /** No clause is unaware of what it supports. */
    ghost predicate Valid()
      reads this, fringe, volatileFringe, fringe.items`inFringe, volatileFringe.items`inFringe
      reads fringe.items`fringeIndex, volatileFringe.items`fringeIndex, unsatisfied`unsatisfied
      reads props`positive, props`negative, props`tv, props`supportedBy, props`slot
      reads clauses`deleted, clauses`supports, clauses`inFringe, clauses`fringeIndex, clauses`unsatisfied
      reads clauses`numUnassigned, clauses`satisfyingProp, clauses`timeStamp
    {
      Usable({})
    }

    /** Every value, also that of an orphan, is forced by its clause. */
    ghost predicate Founded()
      reads this`props, this`clauses, this`rank, this`trues, clauses`deleted, props`tv, props`supportedBy, props`slot
    {
      WellFounded(trues, Opposites(trues), {})
    }

    lemma UsableParts(orphans: set<Proposition>)
      ensures Usable(orphans) <==>
        Coherent(orphans) && Known(orphans) && undoList == [] && Stamped() && orphans <= Elements(props)
    {
      hide Coherent, Stamped, Known;
    }

    /** Without orphans every value is forced. */
    lemma ValidParts()
      ensures Valid() <==> Coherent({}) && undoList == [] && Stamped()
      ensures Valid() ==> Usable({}) && Founded()
    {
      hide Coherent, Stamped, WellFounded, Opposites;
      NobodyKnown();
      if Usable({}) {
        Parts({});
        AllFounded();
      }
    }

    /** Ptheory::remove: from now on the clause is ignored; nothing may rest on it any more. */
    method Disown(c: Clause, ghost t: set<Literal>, ghost f: set<Literal>, ghost keep: set<Proposition>,
                  ghost orphans: set<Proposition>)
      returns (released: bool)
      requires c in clauses && !c.deleted && Support(t, f, orphans) && Spared(keep, orphans)
      requires c.supports < |c.literals| && c.GetSupports() !in keep
      modifies c`deleted, c`supports, this`undoList
      ensures Spared(keep, orphans) && c.deleted && c.supports < 0 && Support(t, f, orphans)
      ensures released <==> undoList != old(undoList)
      ensures Theory() + {c.lits} == old(Theory()) && Theory() <= old(Theory())
    {
      hide Pending, Linked, WellFounded, SupportBy, Queued, Forces, Spared;
      SupportByFrom(c, t, f, Queued() + orphans);
      ghost var others := Others(c);
      c.deleted := true;
      released := Release(c, keep, orphans);
      assert Queued() + orphans ==
        old(Queued()) + orphans + if old(c.GetSupports()) != null then {old(c.GetSupports())} else {};
      SupportByInto(c, others, t, f, Queued() + orphans);
    }

    ghost predicate CachesExcept(others: set<Clause>, t: set<Literal>, f: set<Literal>)
      reads others`deleted, others`numUnassigned, others`satisfyingProp, others`inFringe, others`unsatisfied
    {
      forall d :: d in others ==> UpToDate(d, d.deleted, d.Status(), t, f, null)
    }

    /** Leave the clause in neither list of clauses that ask for attention. */
    method Unlist(c: Clause, ghost others: set<Clause>, ghost t: set<Literal>, ghost f: set<Literal>)
      requires Lists() && c in clauses && c.deleted && !(c.inFringe && c.unsatisfied)
      requires others == Others(c) && CachesExcept(others, t, f)
      modifies this`unsatisfied, fringe, volatileFringe, c`unsatisfied, c`inFringe, clauses`fringeIndex
      ensures Lists() && Caches(t, f, null)
    {
      hide Lists, Exact;
      if c.inFringe {
        RemoveFromFringe(c);
      } else if c.unsatisfied {
        RemoveFromUnsat(c);
      }
    }

    // ---------- what rests on a clause ----------

    /** The value of `p` was forced by `c`, or with the help of a value that rests on it; an orphan does not count as
        resting on anything. */
    ghost predicate RestsIn(p: Proposition, c: Clause, orphans: set<Proposition>, n: nat)
      reads this`props, props`supportedBy
      decreases n
    {
      && n > 0 && p in props && p !in orphans && p.supportedBy != null
      && (p.supportedBy == c ||
          exists q :: q in p.supportedBy.literals && q in props && q != p && RestsIn(q, c, orphans, n - 1))
    }

    ghost predicate RestsOn(p: Proposition, c: Clause, orphans: set<Proposition>)
      reads this`props, props`supportedBy
    {
      exists n: nat :: RestsIn(p, c, orphans, n)
    }

    ghost function Dependents(c: Clause, orphans: set<Proposition>): set<Proposition>
      reads this`props, props`supportedBy
    {
      set p | p in props && RestsOn(p, c, orphans)
    }

    ghost function Independents(c: Clause, orphans: set<Proposition>): set<Proposition>
      reads this`props, props`tv, props`supportedBy
    {
      set p | p in props && p.tv != Unknown && !RestsOn(p, c, orphans)
    }

    /** No orphan was forced by `c` or with the help of a value that rests on it. */
    ghost predicate Undisturbed(c: Clause, orphans: set<Proposition>)
      reads this`props, props`supportedBy, orphans`supportedBy
    {
      forall p :: p in orphans && p.supportedBy != null ==> (
        p.supportedBy != c && forall q :: q in p.supportedBy.literals && q != p ==> !RestsOn(q, c, orphans))
    }

    lemma RestsDirectly(p: Proposition, c: Clause, orphans: set<Proposition>)
      requires p in props && p !in orphans && p.supportedBy == c
      ensures RestsOn(p, c, orphans)
    {
      assert RestsIn(p, c, orphans, 1);
    }

    lemma RestsIndirectly(p: Proposition, q: Proposition, c: Clause, orphans: set<Proposition>)
      requires p in props && p !in orphans && p.supportedBy != null && q in p.supportedBy.literals && q in props
      requires q != p
      requires RestsOn(q, c, orphans)
      ensures RestsOn(p, c, orphans)
    {
      var n: nat :| RestsIn(q, c, orphans, n);
      assert RestsIn(p, c, orphans, n + 1);
    }

    lemma RestsBecause(p: Proposition, c: Clause, orphans: set<Proposition>)
      requires RestsOn(p, c, orphans)
      ensures p in props && p !in orphans && p.supportedBy != null
      ensures p.supportedBy == c ||
        exists q :: q in p.supportedBy.literals && q in props && q != p && RestsOn(q, c, orphans)
    {
      var n: nat :| RestsIn(p, c, orphans, n);
      if p.supportedBy != c {
        var q :| q in p.supportedBy.literals && q in props && q != p && RestsIn(q, c, orphans, n - 1);
        assert RestsOn(q, c, orphans);
      }
    }

    /** A value helps to force another only if it was there earlier. */
    lemma HelperKnown(p: Proposition, q: Proposition, loose: set<Proposition>)
      requires Shape() && Values(trues) && WellFounded(trues, Opposites(trues), loose)
      requires p in props && p.tv != Unknown && p !in loose && p.supportedBy != null
      requires q in p.supportedBy.literals && q != p
      ensures p.supportedBy in clauses && !p.supportedBy.deleted
      ensures q in props && q.tv != Unknown && q.id in rank && p.id in rank && rank[q.id] < rank[p.id]
    {
      var c := p.supportedBy;
      ShapeOf(c);
      var j :| 0 <= j < |c.literals| && c.literals[j] == q;
      hide Shape, Values, Opposites;
      KnownLiteral(c, j, trues);
      if j == p.slot { UniqueId(p, q); }
    }

    lemma UniqueId(p: Proposition, q: Proposition)
      requires Shape() && p in props && q in props
      ensures p.id == q.id <==> p == q
    {
      if p.id == q.id { SameProposition(p, q); }
    }

    lemma IndependentsSpared(c: Clause, orphans: set<Proposition>)
      requires Coherent(orphans) && undoList == []
      ensures Spared(Independents(c, orphans), orphans)
    {
      NothingQueued(orphans);
      hide Lists, Caches, RestsOn;
      forall p, q |
          p in Independents(c, orphans) && p !in orphans &&
          p.supportedBy != null && q in p.supportedBy.literals && q != p
        ensures q in Independents(c, orphans)
      {
        hide Shape, Values, WellFounded, Opposites;
        HelperKnown(p, q, orphans);
        if RestsOn(q, c, orphans) { RestsIndirectly(p, q, c, orphans); }
      }
    }

    /** What is left of these values was forced by `c` or by one another. */
    ghost predicate Resting(ps: set<Proposition>, c: Clause, orphans: set<Proposition>)
      reads ps`tv, ps`supportedBy
    {
      forall p :: p in ps && p.tv != Unknown ==>
        && p !in orphans && p.supportedBy != null
        && (p.supportedBy == c || exists q :: q in p.supportedBy.literals && q in ps && q != p)
    }

    lemma DependentsResting(c: Clause, orphans: set<Proposition>)
      ensures Resting(Dependents(c, orphans), c, orphans)
    {
      hide RestsOn;
      forall p | p in Dependents(c, orphans)
        ensures p !in orphans && p.supportedBy != null
        ensures p.supportedBy == c || exists q :: q in p.supportedBy.literals && q in Dependents(c, orphans) && q != p
      {
        RestsBecause(p, c, orphans);
      }
    }

    /** Once `c` is gone and nothing is queued, nothing that rested on it is left. */
    lemma {:induction false} Gone(p: Proposition, ps: set<Proposition>, c: Clause, orphans: set<Proposition>)
      requires Shape() && Values(trues) && WellFounded(trues, Opposites(trues), orphans)
      requires Resting(ps, c, orphans) && p in ps && p in props && c.deleted
      ensures p.tv == Unknown
      decreases if p.id in rank then rank[p.id] else 0
    {
      hide Shape, Values, Opposites;
      if p.tv != Unknown {
        if p.supportedBy != c {
          var q :| q in p.supportedBy.literals && q in ps && q != p;
          HelperKnown(p, q, orphans);
          Gone(q, ps, c, orphans);
        }
        assert false;
      }
    }

    lemma {:induction false} NotResting(p: Proposition, c: Clause, orphans: set<Proposition>, n: nat)
      requires Linked(orphans) && WellFounded(trues, Opposites(trues), orphans) && c.deleted
      ensures !RestsIn(p, c, orphans, n)
    {
      hide Forces;
      if RestsIn(p, c, orphans, n) {
        var q :| q in p.supportedBy.literals && q in props && q != p && RestsIn(q, c, orphans, n - 1);
        NotResting(q, c, orphans, n - 1);
      }
    }

    /** Nothing rests on a clause that is not in the theory. */
    lemma NothingRests(c: Clause, orphans: set<Proposition>)
      requires Usable(orphans) && c in clauses && c.deleted
      ensures forall p :: !RestsOn(p, c, orphans)
      ensures Founded() ==> Undisturbed(c, orphans)
    {
      NothingQueued(orphans);
      hide Shape, Lists, Caches, Values, RestsIn, Stamped;
      forall p, n: nat ensures !RestsIn(p, c, orphans, n) {
        NotResting(p, c, orphans, n);
      }
    }

    // ---------- removing a clause ----------

    ghost predicate ForcedAt(p: Proposition, t: set<Literal>)
      reads this`clauses, this`rank, p`supportedBy, p`slot
    {
      && p.supportedBy in clauses
      && Forces(p.supportedBy.lits, p.slot, t, Opposites(t), rank) && p.supportedBy.lits[p.slot].prop == p.id
    }

    /** When the true literals were those of `t`, every orphan was forced by a clause of the theory. */
    ghost predicate WereForced(orphans: set<Proposition>, c: Clause, t: set<Literal>)
      reads this`clauses, this`rank, clauses`deleted, orphans`supportedBy, orphans`slot
    {
      forall p :: p in orphans ==> ForcedAt(p, t) && (p.supportedBy != c ==> !p.supportedBy.deleted)
    }

    /** Whatever forced an orphan is kept. */
    ghost predicate Untouched(orphans: set<Proposition>, c: Clause, keep: set<Proposition>)
      reads orphans`supportedBy
    {
      forall p :: p in orphans && p.supportedBy != null ==> (
        p.supportedBy != c && forall q :: q in p.supportedBy.literals && q != p ==> q in keep)
    }

    lemma BeforeRemoval(c: Clause, orphans: set<Proposition>)
      requires Usable(orphans) && c in clauses
      ensures Spared(Independents(c, orphans), orphans) && Resting(Dependents(c, orphans), c, orphans)
      ensures orphans <= Independents(c, orphans) && Dependents(c, orphans) <= Elements(props)
      ensures forall p :: p in props ==> (p in Independents(c, orphans) <==> p.tv != Unknown && !RestsOn(p, c, orphans))
      ensures forall p :: p in props ==> (p in Dependents(c, orphans) <==> RestsOn(p, c, orphans))
      ensures c.supports < |c.literals| && c.GetSupports() !in Independents(c, orphans)
      ensures Consistent(trues)
      ensures Founded() ==> WereForced(orphans, c, trues)
      ensures Founded() ==> (Undisturbed(c, orphans) <==> Untouched(orphans, c, Independents(c, orphans)))
    {
      UsableParts(orphans);
      hide *;
      IndependentsSpared(c, orphans);
      DependentsResting(c, orphans);
      Members(c, orphans);
      SupporteeRests(c, orphans);
      ConsistentValues(orphans);
      if Founded() {
        OrphansForced(c, orphans);
        UndisturbedMeans(c, orphans);
      }
    }

    lemma Members(c: Clause, orphans: set<Proposition>)
      requires Known(orphans) && orphans <= Elements(props)
      ensures orphans <= Independents(c, orphans) && Dependents(c, orphans) <= Elements(props)
      ensures forall p :: p in props ==> (p in Independents(c, orphans) <==> p.tv != Unknown && !RestsOn(p, c, orphans))
      ensures forall p :: p in props ==> (p in Dependents(c, orphans) <==> RestsOn(p, c, orphans))
    {
      hide RestsOn;
      forall p | p in orphans ensures !RestsOn(p, c, orphans) {
        if RestsOn(p, c, orphans) { RestsBecause(p, c, orphans); }
      }
    }

    lemma SupporteeRests(c: Clause, orphans: set<Proposition>)
      requires Coherent(orphans) && undoList == [] && c in clauses
      ensures c.supports < |c.literals| && c.GetSupports() !in Independents(c, orphans)
    {
      NothingQueued(orphans);
      hide Shape, Lists, Values, Caches, WellFounded, Opposites, RestsOn;
      var p := c.GetSupports();
      if p != null { RestsDirectly(p, c, orphans); }
    }

    lemma ConsistentValues(orphans: set<Proposition>)
      requires Coherent(orphans)
      ensures Consistent(trues)
    {
      hide Lists, Caches, Support;
      forall l | l in trues ensures l.Negation() !in trues {
        if l.Negation() in trues { TrueOnce(l, l.Negation()); }
      }
    }

    lemma OrphansForced(c: Clause, orphans: set<Proposition>)
      requires Founded() && Known(orphans) && orphans <= Elements(props)
      ensures WereForced(orphans, c, trues)
    {
      hide Forces, Opposites;
    }

    lemma UndisturbedMeans(c: Clause, orphans: set<Proposition>)
      requires Coherent(orphans) && Founded() && Known(orphans) && orphans <= Elements(props)
      ensures Undisturbed(c, orphans) <==> Untouched(orphans, c, Independents(c, orphans))
    {
      hide RestsOn, Lists, Caches, Support;
      forall p, q | p in orphans && p.supportedBy != null && q in p.supportedBy.literals && q != p
        ensures q in Independents(c, orphans) <==> !RestsOn(q, c, orphans)
      {
        hide Shape, Values, WellFounded, Opposites;
        HelperKnown(p, q, {});
      }
    }

    method RemoveClause(c: Clause, ghost keep: set<Proposition>, ghost deps: set<Proposition>, ghost t: set<Literal>,
                        ghost orphans: set<Proposition>)
      requires Usable(orphans) && c in clauses && !c.deleted && c.supports < |c.literals| && c.GetSupports() !in keep
      requires Spared(keep, orphans) && orphans <= keep && Resting(deps, c, orphans) && deps <= Elements(props)
      modifies this`unsatisfied, this`undoList, this`trues, fringe, volatileFringe, props`tv, props`supportedBy
      modifies c`deleted
      modifies clauses`numUnassigned, clauses`satisfyingProp, clauses`inFringe, clauses`unsatisfied, clauses`fringeIndex
      modifies clauses`supports
      ensures Usable(orphans) && c.deleted && trues <= old(trues)
      ensures Spared(keep, orphans) && Resting(deps, c, orphans)
      ensures forall p :: p in props && p.tv != Unknown ==> p.tv == old(p.tv) && p.supportedBy == old(p.supportedBy)
      ensures WereForced(orphans, c, t) == old(WereForced(orphans, c, t))
      ensures Untouched(orphans, c, keep) == old(Untouched(orphans, c, keep))
      ensures Theory() + {c.lits} == old(Theory()) && Theory() <= old(Theory())
    {
      hide Forces, Opposites, Theory, Shape, Lists, Values, Caches, Support, Coherent, Stamped;
      DetachAndUndo(c, keep, orphans);
    }

    method DetachAndUndo(c: Clause, ghost keep: set<Proposition>, ghost orphans: set<Proposition>)
      requires Coherent(orphans) && Stamped() && c in clauses && !c.deleted && c.supports < |c.literals|
      requires c.GetSupports() !in keep
      requires Spared(keep, orphans)
      modifies this`unsatisfied, this`undoList, this`trues, fringe, volatileFringe, props`tv, props`supportedBy
      modifies c`deleted
      modifies clauses`numUnassigned, clauses`satisfyingProp, clauses`inFringe, clauses`unsatisfied, clauses`fringeIndex
      modifies clauses`supports
      ensures Coherent(orphans) && Stamped() && undoList == [] && c.deleted && trues <= old(trues)
      ensures Spared(keep, orphans)
      ensures forall p :: p in props && p.tv != Unknown ==> p.tv == old(p.tv) && p.supportedBy == old(p.supportedBy)
      ensures Theory() + {c.lits} == old(Theory()) && Theory() <= old(Theory())
    {
      hide *;
      Detach(c, keep, orphans);
      UndoPropagations(keep, orphans);
    }

    lemma AfterRemoval(c: Clause, keep: set<Proposition>, deps: set<Proposition>, orphans: set<Proposition>)
      requires Usable(orphans) && c.deleted && Spared(keep, orphans) && Resting(deps, c, orphans)
      requires forall p :: p in props && p.tv != Unknown ==> p in keep || p in deps
      ensures forall p :: p in props ==> (p.tv != Unknown <==> p in keep)
    {
      NothingQueued(orphans);
      hide Shape, Lists, Values, Caches, WellFounded, Linked, Opposites, Resting;
      forall p | p in props && p in deps ensures p.tv == Unknown {
        Gone(p, deps, c, orphans);
      }
    }

    /** An orphan is still forced if its clause is in the theory and everything that helped to force it is still
        known. */
    lemma OrphanStands(p: Proposition, t: set<Literal>)
      requires Shape() && Values(trues) && trues <= t && Consistent(t) && ForcedAt(p, t)
      requires p in props && p.tv != Unknown
      ensures Forces(p.supportedBy.lits, p.slot, trues, Opposites(trues), rank) <==>
        forall q :: q in p.supportedBy.literals && q != p ==> q.tv != Unknown
    {
      var c := p.supportedBy;
      ShapeOf(c);
      hide Shape, Values, Opposites;
      forall j | 0 <= j < |c.lits|
        ensures c.literals[j] == p <==> j == p.slot
        ensures j != p.slot ==> (c.lits[j] in Opposites(trues) <==> c.literals[j].tv != Unknown)
        ensures j == p.slot ==> c.lits[j] in trues
      {
        KnownLiteral(c, j, trues);
        UniqueId(p, c.literals[j]);
        OppositeIn(trues, c.lits[j]);
        OppositeIn(t, c.lits[j]);
      }
    }

    lemma FoundedAgain(c: Clause, keep: set<Proposition>, t: set<Literal>, orphans: set<Proposition>)
      requires Usable(orphans) && c.deleted && trues <= t && Consistent(t) && WereForced(orphans, c, t)
      requires forall p :: p in props ==> (p.tv != Unknown <==> p in keep)
      ensures Founded() <==> Untouched(orphans, c, keep)
    {
      NothingQueued(orphans);
      assert orphans <= Elements(props) && Known(orphans);
      forall p, q | p in orphans && q in p.supportedBy.literals ensures q in props {
        var j :| 0 <= j < |p.supportedBy.literals| && p.supportedBy.literals[j] == q;
        hide Lists, Values, Caches, Support, Opposites;
        KnownLiteral(p.supportedBy, j, trues);
      }
      hide Lists, Caches, Linked, Forces, Opposites;
      forall p | p in orphans
        ensures Forces(p.supportedBy.lits, p.slot, trues, Opposites(trues), rank) <==>
          forall q :: q in p.supportedBy.literals && q != p ==> q in keep
      {
        OrphanStands(p, t);
      }
    }

    /** LTMS::remove: of the values, exactly those stay that do not rest on the clause. They are all still forced by
        their clauses if and only if no orphan was disturbed. */
    method Remove(c: Clause, ghost orphans: set<Proposition>)
      requires Usable(orphans) && c in clauses
      modifies this`unsatisfied, this`undoList, this`trues, fringe, volatileFringe, props`tv, props`supportedBy
      modifies c`deleted
      modifies clauses`numUnassigned, clauses`satisfyingProp, clauses`inFringe, clauses`unsatisfied, clauses`fringeIndex
      modifies clauses`supports
      ensures Usable(orphans) && c.deleted && trues <= old(trues)
      ensures forall p :: p in props ==> (p.tv != Unknown <==> old(p.tv != Unknown && !RestsOn(p, c, orphans)))
      ensures forall p :: p in props && p.tv != Unknown ==> p.tv == old(p.tv) && p.supportedBy == old(p.supportedBy)
      ensures old(Founded()) ==> (Founded() <==> old(Undisturbed(c, orphans)))
      ensures !old(c.deleted) ==> Theory() <= old(Theory()) == Theory() + {c.lits}
      ensures old(c.deleted) ==> Theory() == old(Theory())
    {
      hide *;
      if c.deleted {
        NothingRests(c, orphans);
      } else {
        ghost var keep, deps, t := Independents(c, orphans), Dependents(c, orphans), trues;
        BeforeRemoval(c, orphans);
        RemoveClause(c, keep, deps, t, orphans);
        AfterRemoval(c, keep, deps, orphans);
        if old(Founded()) { FoundedAgain(c, keep, t, orphans); }
      }
    }

    method Detach(c: Clause, ghost keep: set<Proposition>, ghost orphans: set<Proposition>)
      requires Coherent(orphans) && Stamped() && c in clauses && !c.deleted
      requires Spared(keep, orphans) && c.supports < |c.literals| && c.GetSupports() !in keep
      modifies this`unsatisfied, this`undoList, fringe, volatileFringe, c`deleted, c`supports, c`unsatisfied, c`inFringe
      modifies clauses`fringeIndex
      ensures Spared(keep, orphans) && Coherent(orphans) && c.deleted && Stamped()
      ensures Theory() + {c.lits} == old(Theory()) && Theory() <= old(Theory())
    {
      Parts(orphans);
      hide *;
      DetachParts(c, trues, Opposites(trues), keep, orphans);
      Parts(orphans);
    }

    method DetachParts(c: Clause, ghost t: set<Literal>, ghost f: set<Literal>, ghost keep: set<Proposition>,
                       ghost orphans: set<Proposition>)
      requires Lists() && Caches(t, f, null) && Support(t, f, orphans) && c in clauses && !c.deleted
      requires Spared(keep, orphans) && c.supports < |c.literals| && c.GetSupports() !in keep
      modifies this`unsatisfied, this`undoList, fringe, volatileFringe, c`deleted, c`supports, c`unsatisfied, c`inFringe
      modifies clauses`fringeIndex
      ensures Spared(keep, orphans) && Lists() && Caches(t, f, null) && Support(t, f, orphans) && c.deleted
      ensures Theory() + {c.lits} == old(Theory()) && Theory() <= old(Theory())
    {
      hide Shape, Lists, Values, Caches, Support, CachesExcept, Opposites;
      DetachFacts(c, t, f);
      ghost var others := Others(c);
      var _ := Disown(c, t, f, keep, orphans);
      Unlist(c, others, t, f);
    }

    lemma DetachFacts(c: Clause, t: set<Literal>, f: set<Literal>)
      requires Caches(t, f, null) && c in clauses
      ensures !c.deleted ==> !(c.inFringe && c.unsatisfied)
      ensures c !in Others(c) && CachesExcept(Others(c), t, f)
    {
    }

    /** Clause::count_unassigned */
    method CountUnassigned(c: Clause, ghost t: set<Literal>) returns (n: nat)
      requires Shape() && c in clauses && Values(t)
      ensures n == Unknowns(c.lits, t, Opposites(t))
    {
      n := 0;
      ShapeOf(c);
      assert c.lits[..0] == [];
      hide Values, Shape, Opposites, Clause.Shape;
      for k := 0 to |c.literals|
        invariant n == Unknowns(c.lits[..k], t, Opposites(t))
      {
        UnknownsNext(c, k, t);
        if c.literals[k].tv == Unknown {
          n := n + 1;
        }
      }
      assert c.lits[..|c.lits|] == c.lits;
    }

    lemma UnknownsNext(c: Clause, k: nat, t: set<Literal>)
      requires Shape() && c in clauses && Values(t) && k < |c.literals| == |c.lits|
      ensures Unknowns(c.lits[..k+1], t, Opposites(t)) ==
        Unknowns(c.lits[..k], t, Opposites(t)) + if c.literals[k].tv == Unknown then 1 else 0
    {
      KnownLiteral(c, k, t);
      assert c.lits[..k+1][..k] == c.lits[..k];
      hide Values, Shape, Opposites, Clause.Shape;
    }

    /** The returning clause supports nothing yet. */
    method Revive(c: Clause, ghost t: set<Literal>, ghost f: set<Literal>, ghost orphans: set<Proposition>)
      requires Support(t, f, orphans) && c in clauses && c.deleted
      modifies c`deleted, c`supports
      ensures Support(t, f, orphans) && !c.deleted
      ensures Theory() == old(Theory()) + {c.lits}
    {
      hide Forces, Pending;
      c.deleted := false;
      c.supports := -1;
    }

    /** The rest of Ptheory::add and LTMS::add: bring the status of the clause up to date. */
    method Refresh(c: Clause, ghost others: set<Clause>, ghost t: set<Literal>, ghost f: set<Literal>)
      requires Shape() && Lists() && Values(t) && f == Opposites(t) && c in clauses && !c.deleted
      requires others == Others(c) && CachesExcept(others, t, f) && !c.inFringe && !c.unsatisfied
      modifies this`unsatisfied, fringe, volatileFringe
      modifies c`satisfyingProp, c`numUnassigned, c`unsatisfied, c`inFringe, c`fringeIndex
      ensures Lists() && Caches(t, f, null)
    {
      hide Lists, Shape, Values, Unknowns, Satisfied;
      c.satisfyingProp := FindSatisfyingProp(c, t);
      c.numUnassigned := CountUnassigned(c, t);
      c.unsatisfied := false;
      if c.satisfyingProp == null {
        if c.numUnassigned == 1 {
          InsertIntoFringe(c);
        } else if c.numUnassigned == 0 {
          InsertIntoUnsat(c);
        }
      }
    }

    lemma AttachFacts(c: Clause, t: set<Literal>, f: set<Literal>)
      requires Caches(t, f, null) && c in clauses && c.deleted
      ensures c !in Others(c) && CachesExcept(Others(c), t, f) && !c.inFringe && !c.unsatisfied
    {
    }

    method Attach(c: Clause, ghost t: set<Literal>, ghost f: set<Literal>, ghost orphans: set<Proposition>)
      requires Shape() && Lists() && Values(t) && f == Opposites(t) && c in clauses && c.deleted
      requires Caches(t, f, null) && Support(t, f, orphans)
      modifies this`unsatisfied, fringe, volatileFringe
      modifies c`deleted, c`supports, c`satisfyingProp, c`numUnassigned, c`unsatisfied, c`inFringe, c`fringeIndex
      ensures Lists() && Caches(t, f, null) && Support(t, f, orphans) && !c.deleted
      ensures Theory() == old(Theory()) + {c.lits}
    {
      hide Shape, Lists, Values, Caches, Support, CachesExcept, Opposites;
      AttachFacts(c, t, f);
      ghost var others := Others(c);
      Revive(c, t, f, orphans);
      Refresh(c, others, t, f);
    }

    /** LTMS::add */
    method Add(c: Clause, ghost orphans: set<Proposition>)
      requires Usable(orphans) && c in clauses
      modifies this`unsatisfied, fringe, volatileFringe
      modifies c`deleted, c`supports, c`satisfyingProp, c`numUnassigned, c`unsatisfied, c`inFringe, c`fringeIndex
      ensures Usable(orphans) && !c.deleted && Theory() == old(Theory()) + {c.lits}
      ensures old(Founded()) ==> Founded()
    {
      hide *;
      if c.deleted {
        UsableParts(orphans);
        Parts(orphans);
        ghost var others := Others(c);
        FoundedBy(c);
        assert Founded() ==> FoundedOn(others);
        Attach(c, trues, Opposites(trues), orphans);
        assert old(Founded()) ==> FoundedOn(others);
        FoundedAlso(c, others);
        Parts(orphans);
        UsableParts(orphans);
      } else {
        InTheory(c);
      }
    }

    /** No value rests on a clause that is not in the theory. */
    lemma FoundedBy(c: Clause)
      requires c in clauses && c.deleted
      ensures c !in Others(c) && (Founded() ==> FoundedOn(Others(c)))
    {
      hide Forces, Opposites;
    }

    ghost predicate FoundedOn(others: set<Clause>)
      reads this`props, this`rank, this`trues, others`deleted, props`tv, props`supportedBy, props`slot
    {
      forall p :: p in props && p.tv != Unknown ==>
        && p.id in rank && p.supportedBy in others && !p.supportedBy.deleted
        && Forces(p.supportedBy.lits, p.slot, trues, Opposites(trues), rank) && p.supportedBy.lits[p.slot].prop == p.id
    }

    lemma FoundedAlso(c: Clause, others: set<Clause>)
      requires others == Others(c)
      ensures FoundedOn(others) ==> Founded()
    {
      hide Forces, Opposites;
    }

    lemma InTheory(c: Clause)
      requires c in clauses && !c.deleted
      ensures Theory() == Theory() + {c.lits}
    {
    }

    // ---------- propagation ----------

    ghost predicate NoFringe()
      reads this`clauses, clauses`inFringe
    {
      forall d :: d in clauses ==> !d.inFringe
    }

    /** The clause just taken from the fringe has one literal left, and it must be true. */
    ghost predicate Unit(c: Clause, t: set<Literal>, f: set<Literal>)
      reads this`clauses, c`deleted
    {
      c in clauses && !c.deleted && Unknowns(c.lits, t, f) == 1 && !Satisfied(c.lits, t)
    }

    lemma PoppedExact(c: Clause, d: Clause, deleted: bool, s: ClauseStatus, t: set<Literal>, f: set<Literal>)
      requires UpToDate(d, deleted, s, t, f, null)
      ensures d != c ==> UpToDate(d, deleted, s, t, f, c)
      ensures d == c && s.inFringe ==>
        && !deleted && Unknowns(d.lits, t, f) == 1 && !Satisfied(d.lits, t)
        && UpToDate(d, deleted, s.(inFringe := false), t, f, c)
    {
    }

    static ghost predicate Last(cs: seq<Clause>, c: Clause) {
      cs != [] && c == cs[|cs|-1]
    }

    method GetFringeClause(ghost t: set<Literal>, ghost f: set<Literal>) returns (c: Clause?)
      requires Lists() && Caches(t, f, null)
      modifies fringe, volatileFringe, clauses`inFringe
      ensures Lists() && Caches(t, f, c)
      ensures c == null <==> old(NoFringe())
      ensures c == null ==> NoFringe()
      ensures c != null ==> Unit(c, t, f) && (c.isVolatile <==> old(fringe.items) == [])
      ensures c != null ==> Last(old(if fringe.items != [] then fringe.items else volatileFringe.items), c)
    {
      c := PopFringe();
      hide Lists, UpToDate, Unknowns, Satisfied;
      forall d | d in clauses ensures UpToDate(d, d.deleted, d.Status(), t, f, c) {
        assert old(UpToDate(d, d.deleted, d.Status(), t, f, null));
        if c != null { PoppedExact(c, d, d.deleted, old(d.Status()), t, f); }
      }
      if c != null { PoppedExact(c, c, c.deleted, old(c.Status()), t, f); }
    }

    method PopFringe() returns (c: Clause?)
      requires Lists()
      modifies fringe, volatileFringe, clauses`inFringe
      ensures Lists()
      ensures c == null <==> old(NoFringe())
      ensures c == null ==> NoFringe()
      ensures c != null ==>
        c in clauses && old(c.inFringe) && !c.inFringe && (c.isVolatile <==> old(fringe.items) == [])
      ensures c != null ==> Last(old(if fringe.items != [] then fringe.items else volatileFringe.items), c)
      ensures forall d :: d in clauses && d != c ==> d.inFringe == old(d.inFringe)
    {
      if fringe.items != [] {
        c := fringe.Pop();
      } else if volatileFringe.items != [] {
        c := volatileFringe.Pop();
      } else {
        c := null;
      }
    }

    method GetUnassignedLiteral(c: Clause, ghost t: set<Literal>, ghost f: set<Literal>) returns (i: nat)
      requires Shape() && c in clauses && Values(t) && f == Opposites(t) && Unit(c, t, f)
      ensures i < |c.literals| == |c.lits| && c.literals[i] in props && c.literals[i].tv == Unknown
      ensures c.lits[i] !in t + f && c.lits[i] == Literal(c.literals[i].id, i < c.numPositive)
      ensures forall j :: 0 <= j < |c.lits| && j != i ==> c.lits[j] in f
    {
      ghost var u := UnknownPlace(c, t, f);
      hide *;
      i := 0;
      while c.literals[i].tv != Unknown
        decreases u - i
        invariant i <= u
      {
        i := i + 1;
      }
    }

    /** A clause with one unknown literal has it at one place, and every other place is false. */
    lemma UnknownPlace(c: Clause, t: set<Literal>, f: set<Literal>) returns (u: nat)
      requires Shape() && c in clauses && Values(t) && f == Opposites(t)
      requires Unknowns(c.lits, t, f) == 1 && !Satisfied(c.lits, t)
      ensures u < |c.literals| == |c.lits| && c.literals[u] in props && c.literals[u].tv == Unknown
      ensures c.lits[u] !in t + f && c.lits[u] == Literal(c.literals[u].id, u < c.numPositive)
      ensures forall j :: 0 <= j < |c.lits| && j != u ==> c.lits[j] in f
      ensures forall j :: 0 <= j < u ==> c.literals[j].tv != Unknown
    {
      hide Unknowns, Values, Shape, Opposites, Clause.Shape;
      UnknownsBounds(c.lits, t, f);
      u :| 0 <= u < |c.lits| && c.lits[u] !in t && c.lits[u] !in f;
      UnknownsOne(c.lits, t, f, u);
      ShapeOf(c);
      KnownLiteral(c, u, t);
      forall j | 0 <= j < u ensures c.literals[j].tv != Unknown {
        KnownLiteral(c, j, t);
      }
    }

    lemma ShapeOf(c: Clause)
      requires Shape() && c in clauses
      ensures c.Shape() && |c.literals| == |c.lits|
    {
    }

    lemma KnownLiteral(c: Clause, i: nat, t: set<Literal>)
      requires Shape() && c in clauses && Values(t) && i < |c.literals|
      ensures i < |c.lits| && c.literals[i] in props && c.lits[i] == Literal(c.literals[i].id, i < c.numPositive)
      ensures c.literals[i].tv == Unknown <==> c.lits[i] !in t && c.lits[i] !in Opposites(t)
    {
      OppositeIn(t, c.lits[i]);
    }

    lemma UnknownValue(p: Proposition, t: set<Literal>, f: set<Literal>)
      requires Shape() && Values(t) && p in props && p.tv == Unknown && f == Opposites(t)
      ensures Silent(t, f, p.id)
    {
      forall m | m in t + f ensures m.prop != p.id {
        OppositeIn(t, m);
      }
    }

    lemma FalseRanked(c: Clause, j: nat, t: set<Literal>, extra: set<Proposition>)
      requires Shape() && Values(t) && c in clauses && Support(t, Opposites(t), extra)
      requires j < |c.lits| && c.lits[j] in Opposites(t)
      ensures c.lits[j].prop in rank
    {
      hide Opposites, Forces, Pending, Linked, Queued;
      OppositeIn(t, c.lits[j]);
      ShapeOf(c);
      assert c.lits[j] == Literal(c.literals[j].id, j < c.numPositive);
    }

    ghost predicate ValuesExcept(others: set<Proposition>, t: set<Literal>)
      reads this`props, others`tv
    {
      && (forall q :: q in others ==>
            (q.tv == PTrue <==> Literal(q.id, true) in t) && (q.tv == PFalse <==> Literal(q.id, false) in t))
      && (forall l :: l in t ==> l.prop < |props|)
    }

    lemma ValuesFrom(p: Proposition, t: set<Literal>)
      requires Shape() && Values(t) && p in props && p.tv == Unknown
      ensures ValuesExcept(PropsExcept(p), t) && p.id < |props|
    {
    }

    lemma ValuesInto(p: Proposition, others: set<Proposition>, l: Literal, t: set<Literal>)
      requires Shape() && p in props && others == PropsExcept(p) && ValuesExcept(others, t) && l.prop == p.id < |props|
      requires l !in t && l.Negation() !in t && p.tv == if l.positive then PTrue else PFalse
      ensures Values(t + {l})
    {
      forall q | q in props && q.id == p.id ensures q == p { SameProposition(p, q); }
      hide Shape;
    }

    /** Everything but the fields of `p` is ready for `l` to become true, with rank r. */
    ghost predicate ReadyFor(others: set<Proposition>, l: Literal, t: set<Literal>, f: set<Literal>,
                             loose: set<Proposition>, rank: map<nat, nat>)
      reads this`props, this`clauses, clauses`deleted, clauses`supports
      reads others`tv, others`supportedBy, others`slot
    {
      && l !in t && l.Negation() !in t && l.prop < |props| && l.prop in rank
      && ValuesExcept(others, t)
      && SupportExcept(others, t + {l}, f + {l.Negation()}, loose, rank)
    }

    lemma BeforeSet(p: Proposition, l: Literal, t: set<Literal>, f: set<Literal>, r: nat, extra: set<Proposition>)
      requires Shape() && Values(t) && Support(t, f, extra) && p in props && p.tv == Unknown && p !in extra
      requires Silent(t, f, p.id) && l.prop == p.id
      ensures ReadyFor(PropsExcept(p), l, t, f, Queued() + extra, rank[p.id := r])
      ensures Pending() && p !in PropsExcept(p) && p !in undoList && Queued() !! extra
    {
      ghost var loose := Queued() + extra;
      SupportParts(t, f, extra, loose);
      NotPending(p, loose);
      assert (loose + {p}) - {p} == loose - {p} == loose;
      hide Linked, WellFounded, Shape;
      SupportExceptFrom(p, t, f, loose);
      hide SupportExcept, Support;
      SupportExceptWith(p, l, t, f, loose, rank, r);
      ValuesFrom(p, t);
    }

    lemma AfterSet(p: Proposition, others: set<Proposition>, l: Literal, t: set<Literal>, f: set<Literal>,
                   extra: set<Proposition>)
      requires Shape() && Pending() && p in props && p !in undoList && p !in extra && others == PropsExcept(p)
      requires Queued() !! extra
      requires ReadyFor(others, l, t, f, Queued() + extra, rank) && l.prop == p.id
      requires p.tv == (if l.positive then PTrue else PFalse) && p.supportedBy != null
      ensures Values(t + {l}) && Support(t + {l}, f + {l.Negation()}, extra + {p})
    {
      ghost var loose := Queued() + extra;
      assert (loose + {p}) - {p} == loose;
      assert Queued() + (extra + {p}) == loose + {p};
      hide Linked, WellFounded, SupportExcept, ValuesExcept, Support, Shape;
      SupportExceptInto(p, others, t + {l}, f + {l.Negation()}, loose + {p});
      SupportParts(t + {l}, f + {l.Negation()}, extra + {p}, loose + {p});
      ValuesInto(p, others, l, t);
    }

    /** Proposition::set_value and set_supported_by. */
    method SetValue(p: Proposition, becomingTrue: bool, c: Clause, ghost l: Literal, ghost t: set<Literal>,
                    ghost f: set<Literal>, ghost r: nat, ghost slot: nat, ghost extra: set<Proposition>)
      requires Shape() && Values(t) && Support(t, f, extra) && p in props && p.tv == Unknown && p !in extra
      requires Silent(t, f, p.id) && l == Literal(p.id, becomingTrue)
      modifies p`tv, p`supportedBy, p`slot, this`rank
      ensures p.tv == (if becomingTrue then PTrue else PFalse) && p.supportedBy == c && p.slot == slot
      ensures rank == old(rank)[p.id := r]
      ensures Shape() && Values(t + {l})
      ensures Support(t + {l}, f + {l.Negation()}, extra + {p})
    {
      hide Shape, Values, Support, Silent, ReadyFor, Queued, PropsExcept, NoDuplicates;
      ghost var others := PropsExcept(p);
      BeforeSet(p, l, t, f, r, extra);
      p.tv := if becomingTrue then PTrue else PFalse;
      p.supportedBy := c;
      p.slot := slot;
      rank := rank[p.id := r];
      AfterSet(p, others, l, t, f, extra);
    }

    lemma NotPending(p: Proposition, loose: set<Proposition>)
      requires Pending() && p.tv == Unknown && p in props && Linked(loose)
      ensures p !in Queued() && p.supportedBy == null
    {
    }

    /** What the clause must look like to force the value it is about to give. */
    lemma ForcesNow(c: Clause, i: nat, t: set<Literal>, extra: set<Proposition>)
      requires Shape() && Values(t) && c in clauses && Support(t, Opposites(t), extra) && i < |c.lits|
      requires forall j :: 0 <= j < |c.lits| && j != i ==> c.lits[j] in Opposites(t)
      requires Silent(t, Opposites(t), c.lits[i].prop)
      ensures Forces(c.lits, i, t + {c.lits[i]}, Opposites(t) + {c.lits[i].Negation()},
                     rank[c.lits[i].prop := LaterThan(c.lits, rank)])
    {
      hide Opposites, Support, Values, Shape;
      forall j | 0 <= j < |c.lits| && j != i ensures c.lits[j].prop in rank {
        FalseRanked(c, j, t, extra);
      }
    }

    lemma AssignFacts(p: Proposition, c: Clause, i: nat, t: set<Literal>, extra: set<Proposition>)
      requires Shape() && Values(t) && Support(t, Opposites(t), extra)
      requires p in props && p.tv == Unknown && c in clauses && i < |c.lits| && c.lits[i].prop == p.id
      requires forall j :: 0 <= j < |c.lits| && j != i ==> c.lits[j] in Opposites(t)
      ensures Silent(t, Opposites(t), p.id)
      ensures c.lits[i] !in t && c.lits[i].Negation() !in t && p.id < |props| && ValuesExcept(PropsExcept(p), t)
      ensures Forces(c.lits, i, t + {c.lits[i]}, Opposites(t) + {c.lits[i].Negation()},
                     rank[p.id := LaterThan(c.lits, rank)])
    {
      hide Support, Forces, Opposites;
      UnknownValue(p, t, Opposites(t));
      ValuesFrom(p, t);
      hide Shape, Values, ValuesExcept;
      ForcesNow(c, i, t, extra);
    }

    /** LTMS::assign without the clause updates: `c` leaves no other value for `p`. */
    method AssignValue(p: Proposition, becomingTrue: bool, c: Clause, ghost l: Literal, ghost i: nat,
                       ghost t: set<Literal>, ghost f: set<Literal>, ghost extra: set<Proposition>)
      requires Shape() && Values(t) && t == trues && f == Opposites(t) && Support(t, f, extra)
      requires p in props && p.tv == Unknown && p !in extra && c in clauses && !c.deleted
      requires i < |c.lits| && c.lits[i] == l == Literal(p.id, becomingTrue)
      requires forall j :: 0 <= j < |c.lits| && j != i ==> c.lits[j] in f
      modifies p`tv, p`supportedBy, p`slot, this`trues, this`rank
      ensures trues == t + {l} && Shape() && Values(t + {l}) && p.tv != Unknown && p.supportedBy == c && p.slot == i
      ensures Support(t + {l}, f + {l.Negation()}, extra + {p})
      ensures old(WellFounded(t, f, {})) ==> WellFounded(t + {l}, f + {l.Negation()}, {})
      ensures Forces(c.lits, i, t + {l}, f + {l.Negation()}, rank)
    {
      hide *;
      AssignFacts(p, c, i, t, extra);
      SetForced(p, becomingTrue, c, l, i, t, f, LaterThan(c.lits, rank), extra);
      trues := t + {l};
    }

    /** The new value is forced by its clause and the others are still forced by theirs. */
    method SetForced(p: Proposition, becomingTrue: bool, c: Clause, ghost l: Literal, ghost i: nat,
                     ghost t: set<Literal>, ghost f: set<Literal>, ghost r: nat, ghost extra: set<Proposition>)
      requires Shape() && Values(t) && Support(t, f, extra) && p in props && p.tv == Unknown && p !in extra
      requires Silent(t, f, p.id) && l == Literal(p.id, becomingTrue) && c in clauses && !c.deleted
      requires Forces(c.lits, i, t + {l}, f + {l.Negation()}, rank[p.id := r]) && c.lits[i] == l
      modifies p`tv, p`supportedBy, p`slot, this`rank
      ensures p.tv != Unknown && p.supportedBy == c && p.slot == i && rank == old(rank)[p.id := r]
      ensures Shape() && Values(t + {l}) && Support(t + {l}, f + {l.Negation()}, extra + {p})
      ensures old(WellFounded(t, f, {})) ==> WellFounded(t + {l}, f + {l.Negation()}, {})
    {
      ghost var others := PropsExcept(p);
      hide Shape, Values, Support, Silent, Forces, AllForced, WellFounded, PropsExcept;
      ghost var rank' := rank[p.id := r];
      ForcedBefore(p, l, t, f, r);
      assert WellFounded(t, f, {}) ==> AllForced(others, t + {l}, f + {l.Negation()}, rank');
      SetValue(p, becomingTrue, c, l, t, f, r, i, extra);
      assert old(WellFounded(t, f, {})) ==> AllForced(others, t + {l}, f + {l.Negation()}, rank');
      ForcedAfter(p, others, t + {l}, f + {l.Negation()});
    }

    /** Every value among `others` is forced by its clause. */
    ghost predicate AllForced(others: set<Proposition>, t: set<Literal>, f: set<Literal>, rank: map<nat, nat>)
      reads this`clauses, clauses`deleted, others`tv, others`supportedBy, others`slot
    {
      forall q :: q in others && q.tv != Unknown ==>
        && q.id in rank && q.supportedBy in clauses && !q.supportedBy.deleted
        && Forces(q.supportedBy.lits, q.slot, t, f, rank) && q.supportedBy.lits[q.slot].prop == q.id
    }

    lemma ForcedBefore(p: Proposition, l: Literal, t: set<Literal>, f: set<Literal>, r: nat)
      requires Silent(t, f, p.id) && l.prop == p.id
      ensures p !in PropsExcept(p)
      ensures WellFounded(t, f, {}) ==> AllForced(PropsExcept(p), t + {l}, f + {l.Negation()}, rank[p.id := r])
    {
      hide Forces;
      forall q | WellFounded(t, f, {}) && q in PropsExcept(p) && q.tv != Unknown
        ensures Forces(q.supportedBy.lits, q.slot, t + {l}, f + {l.Negation()}, rank[p.id := r])
      {
        ForcesWith(q.supportedBy.lits, q.slot, t, f, rank, l, r);
      }
    }

    lemma ForcedAfter(p: Proposition, others: set<Proposition>, t: set<Literal>, f: set<Literal>)
      requires others == PropsExcept(p) && p.id in rank
      requires p.supportedBy in clauses && !p.supportedBy.deleted
      requires Forces(p.supportedBy.lits, p.slot, t, f, rank) && p.supportedBy.lits[p.slot].prop == p.id
      ensures AllForced(others, t, f, rank) ==> WellFounded(t, f, {})
    {
      hide Forces;
    }

    method AssignUpdates(p: Proposition, becomingTrue: bool, c: Clause, ghost l: Literal, ghost t: set<Literal>,
                         ghost f: set<Literal>, ghost extra: set<Proposition>)
      requires Shape() && Lists() && p in props && c in p.Occurrences(becomingTrue) && Values(t + {l})
      requires l == Literal(p.id, becomingTrue) && l !in t + f && l.Negation() !in (t + {l}) + f
      requires Caches(t, f, c) && Support(t + {l}, f + {l.Negation()}, extra)
      modifies this`unsatisfied, fringe, volatileFringe
      modifies clauses`numUnassigned, clauses`satisfyingProp, clauses`inFringe, clauses`unsatisfied, clauses`fringeIndex
      ensures Shape() && Values(t + {l}) && Lists()
      ensures Caches(t + {l}, f + {l.Negation()}, null) && Support(t + {l}, f + {l.Negation()}, extra)
    {
      hide Shape, Lists, Values, Caches, Support;
      AssignUpdateSameSense(p, becomingTrue, t, f, c);
      AssignUpdateOppositeSense(p, becomingTrue, t + {l}, f);
    }

    lemma AssignLiteralFacts(p: Proposition, becomingTrue: bool, c: Clause, t: set<Literal>)
      requires Shape() && Values(t) && p in props && p.tv == Unknown && c in clauses
      requires Literal(p.id, becomingTrue) in c.lits
      ensures var l := Literal(p.id, becomingTrue);
              && l !in t + Opposites(t) && l.Negation() !in (t + {l}) + Opposites(t)
              && Opposites(t + {l}) == Opposites(t) + {l.Negation()}
              && c in p.Occurrences(becomingTrue)
    {
      UnknownValue(p, t, Opposites(t));
      OccurrencesComplete(p, becomingTrue, c);
      OppositesMore(t, Literal(p.id, becomingTrue));
    }

    lemma FoundedMeans()
      ensures Founded() <==> WellFounded(trues, Opposites(trues), {})
    {
      hide WellFounded, Opposites;
    }

    method Assign(p: Proposition, becomingTrue: bool, c: Clause, ghost i: nat, ghost extra: set<Proposition>)
      requires Shape() && Lists() && Values(trues) && Caches(trues, Opposites(trues), c)
      requires Support(trues, Opposites(trues), extra)
      requires p in props && p.tv == Unknown && p !in extra && c in clauses
      requires i < |c.lits| && c.lits[i] == Literal(p.id, becomingTrue)
      requires forall j :: 0 <= j < |c.lits| && j != i ==> c.lits[j] in Opposites(trues)
      requires !c.deleted
      modifies p`tv, p`supportedBy, p`slot, this`trues, this`rank
      modifies this`unsatisfied, fringe, volatileFringe
      modifies clauses`numUnassigned, clauses`satisfyingProp, clauses`inFringe, clauses`unsatisfied, clauses`fringeIndex
      ensures Coherent(extra + {p}) && trues == old(trues) + {c.lits[i]} && (old(Founded()) ==> Founded())
      ensures p.tv != Unknown && p.supportedBy == c && p.slot == i && Forces(c.lits, i, trues, Opposites(trues), rank)
      ensures Supporting() == old(Supporting())[p.id := c]
    {
      ghost var t, f, source := trues, Opposites(trues), Supporting();
      hide *;
      FoundedMeans();
      AssignLiteralFacts(p, becomingTrue, c, trues);
      ghost var l := c.lits[i];
      AssignValue(p, becomingTrue, c, l, i, t, f, extra);
      AssignUpdates(p, becomingTrue, c, l, t, f, extra + {p});
      Parts(extra + {p});
      FoundedMeans();
      OneNewSource(source, p, c);
    }

    /** Where every value comes from */
    ghost function Supporting(): (source: map<nat, Clause?>)
      reads this`props, props`supportedBy
      ensures forall k: nat :: k in source <==> k < |props|
      ensures forall k: nat :: k < |props| ==> source[k] == props[k].supportedBy
    {
      map i: nat | 0 <= i < |props| :: props[i].supportedBy
    }

    lemma OneNewSource(source: map<nat, Clause?>, p: Proposition, c: Clause)
      requires Shape() && p in props && p.supportedBy == c
      requires forall k: nat :: k in source <==> k < |props|
      requires forall k: nat :: k < |props| && props[k] != p ==> source[k] == props[k].supportedBy
      ensures Supporting() == source[p.id := c]
    {
      assert forall k :: 0 <= k < |props| ==> props[k].id == k;
      hide Shape;
    }

    // ---------- supports ----------

    /** Clause::set_supports */
    method SetSupports(c: Clause, p: Proposition)
      requires p in c.literals
      modifies c`supports
      ensures 0 <= c.supports < |c.literals| && c.literals[c.supports] == p
    {
      var index := 0;
      while c.literals[index] != p
        decreases |c.literals| - index
        invariant 0 <= index < |c.literals| && p !in c.literals[..index]
      {
        index := index + 1;
      }
      c.supports := index;
    }

    lemma WellFoundedWith(p: Proposition, t: set<Literal>, f: set<Literal>, loose: set<Proposition>)
      requires WellFounded(t, f, loose + {p}) && p in props && p.supportedBy in clauses && !p.supportedBy.deleted
      requires Forces(p.supportedBy.lits, p.slot, t, f, rank) && p.supportedBy.lits[p.slot].prop == p.id
      ensures WellFounded(t, f, loose)
    {
      hide Forces;
    }

    method Link(c: Clause, p: Proposition, ghost loose: set<Proposition>)
      requires Linked(loose + {p}) && p in props && p.tv != Unknown && p !in loose && p in c.literals
      requires c in clauses && !c.deleted && c.supports < 0 && p.supportedBy == c
      modifies c`supports
      ensures Linked(loose)
    {
      SetSupports(c, p);
    }

    lemma NothingQueued(extra: set<Proposition>)
      requires undoList == []
      ensures Queued() + extra == extra && Queued() !! extra
    {
    }

    method LinkSupport(c: Clause, p: Proposition, ghost t: set<Literal>, ghost f: set<Literal>,
                       ghost extra: set<Proposition>)
      requires Support(t, f, extra + {p}) && undoList == [] && p in props && p.tv != Unknown && p !in extra
      requires p in c.literals
      requires c in clauses && !c.deleted && c.supports < 0
      requires p.supportedBy == c && Forces(c.lits, p.slot, t, f, rank) && c.lits[p.slot].prop == p.id
      modifies c`supports
      ensures Support(t, f, extra)
    {
      NothingQueued(extra + {p});
      NothingQueued(extra);
      hide *;
      SupportParts(t, f, extra + {p}, extra + {p});
      WellFoundedWith(p, t, f, extra);
      Link(c, p, extra);
      SupportParts(t, f, extra, extra);
    }

    /** Recording the support makes the link between the clause and its proposition complete. */
    method RecordSupport(c: Clause, p: Proposition, ghost extra: set<Proposition>)
      requires Coherent(extra + {p}) && undoList == [] && p in props && p.tv != Unknown && p !in extra
      requires p in c.literals
      requires c in clauses && !c.deleted && c.supports < 0
      requires p.supportedBy == c && Forces(c.lits, p.slot, trues, Opposites(trues), rank)
      requires c.lits[p.slot].prop == p.id
      modifies c`supports
      ensures Coherent(extra)
    {
      hide *;
      Parts(extra + {p});
      LinkSupport(c, p, trues, Opposites(trues), extra);
      Parts(extra);
    }

    ghost predicate Known(ps: set<Proposition>)
      reads ps`tv
    {
      forall p :: p in ps ==> p.tv != Unknown
    }

    lemma UnitSupportsNothing(c: Clause, t: set<Literal>, f: set<Literal>, extra: set<Proposition>)
      requires Unit(c, t, f) && Support(t, f, extra)
      ensures c in clauses && !c.deleted && c.supports < 0
    {
      hide Unknowns, Pending;
    }

    lemma NotYetKnown(p: Proposition, extra: set<Proposition>)
      requires Known(extra) && p.tv == Unknown
      ensures p !in extra
    {
    }

    lemma NotYetTrue(p: Proposition)
      requires Shape() && Values(trues) && p in props && p.tv == Unknown
      ensures forall l :: l in trues ==> l.prop != p.id
    {
      UnknownValue(p, trues, Opposites(trues));
      hide Shape, Values, Opposites;
    }

    lemma OneMoreKnown(p: Proposition, extra: set<Proposition>)
      requires Known(extra) && p.tv != Unknown
      ensures Known(extra + {p})
    {
    }

    /** Give the last unknown literal of the clause the value the clause needs. */
    method PropagateClause(c: Clause, ghost extra: set<Proposition>) returns (p: Proposition)
      requires Shape() && Lists() && Values(trues) && Caches(trues, Opposites(trues), c)
      requires Support(trues, Opposites(trues), extra) && Known(extra) && Unit(c, trues, Opposites(trues))
      modifies props`tv, props`supportedBy, props`slot, this`trues, this`rank
      modifies this`unsatisfied, fringe, volatileFringe
      modifies clauses`numUnassigned, clauses`satisfyingProp, clauses`inFringe, clauses`unsatisfied, clauses`fringeIndex
      ensures Coherent(extra + {p}) && old(trues) < trues && (old(Founded()) ==> Founded())
      ensures p in props && p !in extra && p in c.literals && p.tv != Unknown && p.supportedBy == c
      ensures Forces(c.lits, p.slot, trues, Opposites(trues), rank) && c.lits[p.slot].prop == p.id
      ensures c in clauses && !c.deleted && c.supports < 0 && Known(extra + {p})
      ensures p.slot < |c.lits| && trues == old(trues) + {c.lits[p.slot]}
      ensures forall l :: l in old(trues) ==> l.prop != p.id
      ensures Supporting() == old(Supporting())[p.id := c]
      ensures old(unsatisfied) == [] ==> StoppedAtOnce(old(trues))
    {
      ghost var t := trues;
      hide *;
      if unsatisfied == [] { NoneFalsified(c); }
      UnitSupportsNothing(c, trues, Opposites(trues), extra);
      var i := GetUnassignedLiteral(c, trues, Opposites(trues));
      p := c.literals[i];
      NotYetKnown(p, extra);
      NotYetTrue(p);
      Assign(p, i < c.numPositive, c, i, extra);
      OneMoreKnown(p, extra);
      JustFalsified(c.lits[i], t, extra + {p});
    }

    /** No clause is unsatisfied, or all that are have been falsified by the literal that became true last. */
    ghost predicate StoppedAtOnce(before: set<Literal>)
      reads this`trues, this`unsatisfied
    {
      unsatisfied != [] ==> exists l :: l in trues && l !in before && AllDeny(l)
    }

    ghost predicate AllDeny(l: Literal)
      reads this`unsatisfied
    {
      forall c :: c in unsatisfied ==> l.Negation() in c.lits
    }

    /** Every literal of the clause is false. */
    static ghost predicate Falsified(d: Disjunction, t: set<Literal>) {
      forall k :: 0 <= k < |d| ==> d[k].Negation() in t
    }

    ghost predicate NoneFalsifiedBy(t: set<Literal>)
      reads this`clauses, clauses`deleted
    {
      forall c :: c in clauses && !c.deleted ==> !Falsified(c.lits, t)
    }

    lemma NoneFalsified(popped: Clause?)
      requires Shape() && Lists() && Values(trues) && Caches(trues, Opposites(trues), popped) && unsatisfied == []
      ensures NoneFalsifiedBy(trues)
    {
      ConsistentTrues();
      hide Shape, Values;
      forall c | c in clauses && !c.deleted ensures !Falsified(c.lits, trues) {
        assert UpToDate(c, c.deleted, c.Status(), trues, Opposites(trues), popped);
        hide Unknowns;
        if Falsified(c.lits, trues) {
          forall k | 0 <= k < |c.lits| ensures c.lits[k] in Opposites(trues) && c.lits[k] !in trues {
            OppositeIn(trues, c.lits[k]);
          }
          UnknownsBounds(c.lits, trues, Opposites(trues));
        }
      }
    }

    lemma ConsistentTrues()
      requires Shape() && Values(trues)
      ensures forall l :: l in trues ==> l.Negation() !in trues
    {
      forall l | l in trues ensures l.Negation() !in trues {
        if l.Negation() in trues { TrueOnce(l, l.Negation()); }
      }
    }

    lemma JustFalsified(l: Literal, t: set<Literal>, extra: set<Proposition>)
      requires Coherent(extra) && trues == t + {l} && l !in t
      ensures NoneFalsifiedBy(t) ==> StoppedAtOnce(t)
    {
      if NoneFalsifiedBy(t) {
        forall c | c in unsatisfied ensures l.Negation() in c.lits {
          UnsatisfiedFalse(c, extra);
          var k :| 0 <= k < |c.lits| && c.lits[k].Negation() !in t;
          assert l.Negation() == c.lits[k];
        }
        assert l in trues && AllDeny(l);
      }
    }

    lemma UnsatisfiedFalse(c: Clause, extra: set<Proposition>)
      requires Coherent(extra) && c in unsatisfied
      ensures c in clauses && !c.deleted && Falsified(c.lits, trues)
    {
      assert UpToDate(c, c.deleted, c.Status(), trues, Opposites(trues), null);
      hide Shape, Values, Support, Unknowns;
      UnknownsBounds(c.lits, trues, Opposites(trues));
      forall k | 0 <= k < |c.lits| ensures c.lits[k].Negation() in trues {
        OppositeIn(trues, c.lits[k]);
      }
    }

    // ---------- clauses that are not volatile come first ----------

    /** The clauses of the theory that are not volatile */
    ghost function Lasting(): set<Disjunction>
      reads this`clauses, clauses`deleted
    {
      set c | c in clauses && !c.deleted && !c.isVolatile :: c.lits
    }

    /** Every value that is not given comes from a clause that is not volatile, and such a support is recorded. */
    static ghost predicate OnlyLasting(given: set<Literal>, orphans: set<Proposition>, t: set<Literal>,
                                       source: map<nat, Clause?>) {
      forall l :: l in t && l !in given ==>
        && l.prop in source && source[l.prop] != null && !source[l.prop].isVolatile
        && forall p :: p in orphans ==> p.id != l.prop
    }

    ghost predicate FromLasting(given: set<Literal>, orphans: set<Proposition>)
      reads this`trues, this`props, props`supportedBy
    {
      OnlyLasting(given, orphans, trues, Supporting())
    }

    /** The literal has its value from a clause that is not volatile and whose other literals propagation refutes from
        these clauses already. */
    static ghost predicate Rests(lasting: set<Disjunction>, l: Literal, source: map<nat, Clause?>) {
      && l.prop in source && source[l.prop] != null && !source[l.prop].isVolatile && l in source[l.prop].lits
      && forall k :: 0 <= k < |source[l.prop].lits| && source[l.prop].lits[k] != l ==>
           Derivable(lasting, source[l.prop].lits[k].Negation())
    }

    /** What propagation finds from these clauses is known and rests on such clauses alone, but for what was given; and
        it refutes no clause of the theory. */
    static ghost predicate Exhausted(lasting: set<Disjunction>, given: set<Literal>, theory: set<Disjunction>,
                                     t: set<Literal>, source: map<nat, Clause?>) {
      && (forall l :: Derivable(lasting, l) ==> l in t && (l in given || Rests(lasting, l, source)))
      && forall d :: d in theory ==> !RefutedBy(lasting, d)
    }

    /** All that the clauses that are not volatile have to say, from what was given, has been said first. */
    ghost predicate LastingFirst(given: set<Literal>)
      reads this`clauses, clauses`deleted, this`trues, this`props, props`supportedBy
    {
      Exhausted(Lasting() + Facts(given), given, Theory(), trues, Supporting())
    }

    static lemma StaysExhausted(lasting: set<Disjunction>, given: set<Literal>, theory: set<Disjunction>,
                                t: set<Literal>, source: map<nat, Clause?>, t': set<Literal>,
                                source': map<nat, Clause?>)
      requires Exhausted(lasting, given, theory, t, source) && t <= t'
      requires forall l :: l in t && l.prop in source ==> l.prop in source' && source'[l.prop] == source[l.prop]
      ensures Exhausted(lasting, given, theory, t', source')
    {
      hide Derivable, RefutedBy;
      forall l | Derivable(lasting, l) ensures l in t' && (l in given || Rests(lasting, l, source')) {
        assert l in t;
      }
    }

    lemma LastingForced(l: Literal, orphans: set<Proposition>, given: set<Literal>)
      requires Shape() && Values(trues) && WellFounded(trues, Opposites(trues), orphans)
      requires FromLasting(given, orphans) && l in trues && l !in given
      ensures ForcedBy(Lasting(), l, trues, rank)
      ensures var source := Supporting();
              l.prop in source && source[l.prop] != null && !source[l.prop].isVolatile && l in source[l.prop].lits
      ensures var d := Supporting()[l.prop].lits;
              forall k :: 0 <= k < |d| && d[k] != l ==> d[k].Negation() in trues
    {
      hide Opposites, NoDuplicates;
      var p := props[l.prop];
      assert p in props && p.id == l.prop && l == Literal(p.id, l.positive);
      assert l.Negation() == Literal(p.id, !l.positive);
      assert p.tv != Unknown && p !in orphans && Supporting()[l.prop] == p.supportedBy;
      var d := p.supportedBy.lits;
      assert d in Lasting();
      assert d[p.slot].prop == l.prop;
      assert d[p.slot] == Literal(l.prop, d[p.slot].positive);
      assert Forces(d, p.slot, trues, Opposites(trues), rank);
      forall k | 0 <= k < |d| && d[k] != l ensures d[k].Negation() in trues { OppositeIn(trues, d[k]); }
    }

    /** With no clause waiting but volatile ones */
    lemma LastingClosed(orphans: set<Proposition>)
      requires Coherent(orphans) && fringe.items == [] && unsatisfied == []
      ensures Closed(Lasting(), trues)
      ensures forall d: Disjunction :: d in Theory() ==> !forall k :: 0 <= k < |d| ==> d[k].Negation() in trues
    {
      forall d | d in Lasting() ensures Satisfied(d, trues) || Unknowns(d, trues, Opposites(trues)) >= 2 {
        var c :| c in clauses && !c.deleted && !c.isVolatile && c.lits == d;
        hide Shape, Values, Support, Unknowns, Satisfied;
        assert UpToDate(c, c.deleted, c.Status(), trues, Opposites(trues), null);
        assert !c.inFringe && !c.unsatisfied;
      }
      forall d: Disjunction | d in Theory() ensures !forall k :: 0 <= k < |d| ==> d[k].Negation() in trues {
        var c :| c in clauses && !c.deleted && c.lits == d;
        ConsistentValues(orphans);
        hide Shape, Values, Support, Unknowns;
        if forall k :: 0 <= k < |d| ==> d[k].Negation() in trues {
          assert UpToDate(c, c.deleted, c.Status(), trues, Opposites(trues), null);
          forall k | 0 <= k < |d| ensures d[k] in Opposites(trues) && d[k] !in trues { OppositeIn(trues, d[k]); }
          UnknownsBounds(d, trues, Opposites(trues));
        }
      }
    }

    lemma NowExhausted(given: set<Literal>, orphans: set<Proposition>)
      requires Coherent(orphans) && undoList == [] && fringe.items == [] && unsatisfied == []
      requires given <= trues && FromLasting(given, orphans)
      ensures LastingFirst(given)
    {
      var lasting, source := Lasting() + Facts(given), Supporting();
      hide *;
      Parts(orphans);
      SupportMeans(orphans);
      ConsistentValues(orphans);
      LastingClosed(orphans);
      LastingDistinct(orphans);
      forall l | l in trues && l !in given ensures ForcedBy(Lasting(), l, trues, rank) {
        LastingForced(l, orphans, given);
      }
      GroundedMeans(Lasting(), given);
      ClosureFrom(Lasting(), given, trues, rank);
      forall l | l in trues && l !in given ensures Rests(lasting, l, source) {
        LastingForced(l, orphans, given);
        RestsMeans(lasting, l, source);
      }
      forall d | d in Theory() ensures !RefutedBy(lasting, d) {
        NotRefuted(lasting, d);
      }
      ExhaustedMeans(lasting, given, source);
    }

    lemma SupportMeans(orphans: set<Proposition>)
      requires Coherent(orphans) && undoList == []
      ensures WellFounded(trues, Opposites(trues), orphans)
    {
      NothingQueued(orphans);
      hide Shape, Lists, Values, Caches, Opposites, WellFounded, Linked;
    }

    lemma LastingDistinct(orphans: set<Proposition>)
      requires Coherent(orphans)
      ensures forall d :: d in Lasting() ==> NoDuplicates(d)
    {
      hide Lists, Caches, Support, Values, NoDuplicates;
    }

    lemma GroundedMeans(theory: set<Disjunction>, given: set<Literal>)
      requires forall l :: l in trues && l !in given ==> ForcedBy(theory, l, trues, rank)
      ensures GroundedExcept(theory, trues, rank, given)
    {
      hide ForcedBy;
    }

    lemma RestsMeans(lasting: set<Disjunction>, l: Literal, source: map<nat, Clause?>)
      requires l.prop in source && source[l.prop] != null && !source[l.prop].isVolatile && l in source[l.prop].lits
      requires var d := source[l.prop].lits;
               forall k :: 0 <= k < |d| && d[k] != l ==> d[k].Negation() in trues
      requires forall k :: Derivable(lasting, k) <==> k in trues
      ensures Rests(lasting, l, source)
    {
      hide Derivable;
    }

    lemma NotRefuted(lasting: set<Disjunction>, d: Disjunction)
      requires forall k :: Derivable(lasting, k) <==> k in trues
      requires !forall k :: 0 <= k < |d| ==> d[k].Negation() in trues
      ensures !RefutedBy(lasting, d)
    {
      hide Derivable;
    }

    lemma ExhaustedMeans(lasting: set<Disjunction>, given: set<Literal>, source: map<nat, Clause?>)
      requires lasting == Lasting() + Facts(given) && source == Supporting()
      requires forall l :: Derivable(lasting, l) <==> l in trues
      requires forall l :: l in trues && l !in given ==> Rests(lasting, l, source)
      requires forall d :: d in Theory() ==> !RefutedBy(lasting, d)
      ensures LastingFirst(given)
    {
      hide Derivable, Rests, RefutedBy, Theory, Lasting, Facts, Supporting;
    }

    /** One more value, from this clause */
    static lemma OneMoreSource(c: Clause, l: Literal, orphans: set<Proposition>, given: set<Literal>, t: set<Literal>,
                               source: map<nat, Clause?>)
      requires (forall k :: k in t ==> k.prop != l.prop) && forall p :: p in orphans ==> p.id != l.prop
      ensures OnlyLasting(given, orphans, t, source) && !c.isVolatile ==>
        OnlyLasting(given, orphans, t + {l}, source[l.prop := c])
      ensures forall lasting, theory ::
        Exhausted(lasting, given, theory, t, source) ==> Exhausted(lasting, given, theory, t + {l}, source[l.prop := c])
    {
      hide Exhausted;
      forall lasting, theory | Exhausted(lasting, given, theory, t, source)
        ensures Exhausted(lasting, given, theory, t + {l}, source[l.prop := c])
      {
        StaysExhausted(lasting, given, theory, t, source, t + {l}, source[l.prop := c]);
      }
    }

    lemma LawMeans(given: set<Literal>, orphans: set<Proposition>)
      ensures FromLasting(given, orphans) <==> OnlyLasting(given, orphans, trues, Supporting())
      ensures LastingFirst(given) <==> Exhausted(Lasting() + Facts(given), given, Theory(), trues, Supporting())
    {
      hide Exhausted, OnlyLasting, Lasting, Facts, Theory, Supporting;
    }

    lemma OtherIds(p: Proposition, extra: set<Proposition>)
      requires Shape() && p in props && p !in extra && extra <= Elements(props)
      ensures forall q :: q in extra ==> q.id != p.id
    {
      forall q | q in extra ensures q.id != p.id {
        if q.id == p.id { SameProposition(p, q); }
      }
    }

    /** Propagate a unit clause; the values there were keep their clauses. */
    method PropagateUnit(c: Clause, ghost extra: set<Proposition>, ghost given: set<Literal>) returns (p: Proposition)
      requires Shape() && Lists() && Values(trues) && Caches(trues, Opposites(trues), c)
      requires Support(trues, Opposites(trues), extra) && Known(extra) && Unit(c, trues, Opposites(trues))
      requires extra <= Elements(props)
      modifies props`tv, props`supportedBy, props`slot, this`trues, this`rank
      modifies this`unsatisfied, fringe, volatileFringe
      modifies clauses`numUnassigned, clauses`satisfyingProp, clauses`inFringe, clauses`unsatisfied, clauses`fringeIndex
      ensures Coherent(extra + {p}) && old(trues) < trues && (old(Founded()) ==> Founded())
      ensures p in props && p !in extra && p in c.literals && p.tv != Unknown && p.supportedBy == c
      ensures Forces(c.lits, p.slot, trues, Opposites(trues), rank) && c.lits[p.slot].prop == p.id
      ensures c in clauses && !c.deleted && c.supports < 0 && Known(extra + {p})
      ensures old(LastingFirst(given)) ==> LastingFirst(given)
      ensures old(FromLasting(given, extra)) && !c.isVolatile ==> FromLasting(given, extra)
      ensures old(unsatisfied) == [] ==> StoppedAtOnce(old(trues))
    {
      hide *;
      LawMeans(given, extra);
      ghost var t, source := trues, Supporting();
      p := PropagateClause(c, extra);
      Parts(extra + {p});
      OtherIds(p, extra);
      OneMoreSource(c, c.lits[p.slot], extra, given, t, source);
      LawMeans(given, extra);
    }

    /** Propagate a unit clause, and tell it that it supports the new value. */
    method PropagateLinked(c: Clause, ghost orphans: set<Proposition>, ghost given: set<Literal>)
      requires Shape() && Lists() && Values(trues) && Caches(trues, Opposites(trues), c)
      requires Support(trues, Opposites(trues), orphans) && Known(orphans) && Unit(c, trues, Opposites(trues))
      requires orphans <= Elements(props) && undoList == []
      modifies props`tv, props`supportedBy, props`slot, this`trues, this`rank
      modifies this`unsatisfied, fringe, volatileFringe
      modifies clauses`numUnassigned, clauses`satisfyingProp, clauses`inFringe, clauses`unsatisfied, clauses`fringeIndex
      modifies clauses`supports
      ensures Coherent(orphans) && Known(orphans) && old(trues) < trues && (old(Founded()) ==> Founded())
      ensures old(LastingFirst(given)) ==> LastingFirst(given)
      ensures old(FromLasting(given, orphans)) && !c.isVolatile ==> FromLasting(given, orphans)
      ensures old(unsatisfied) == [] ==> StoppedAtOnce(old(trues))
    {
      hide *;
      var p := PropagateUnit(c, orphans, given);
      RecordSupport(c, p, orphans);
      FewerKnown(orphans, p);
    }

    /** One round of LTMS::propagate. */
    method PropagateOne(ghost orphans: set<Proposition>, ghost given: set<Literal>) returns (done: bool)
      requires Coherent(orphans) && Known(orphans) && undoList == [] && orphans <= Elements(props)
      modifies props`tv, props`supportedBy, props`slot, this`trues, this`rank
      modifies this`unsatisfied, fringe, volatileFringe
      modifies clauses`numUnassigned, clauses`satisfyingProp, clauses`inFringe, clauses`unsatisfied, clauses`fringeIndex
      modifies clauses`supports
      ensures Coherent(orphans) && Known(orphans) && (old(Founded()) ==> Founded())
      ensures if done then trues == old(trues) && unsatisfied == old(unsatisfied) && NoFringe() else old(trues) < trues
      ensures old(LastingFirst(given)) ==> LastingFirst(given)
      ensures old(FromLasting(given, orphans) && fringe.items != []) ==> FromLasting(given, orphans)
      ensures old(unsatisfied) == [] ==> StoppedAtOnce(old(trues))
    {
      hide *;
      Parts(orphans);
      var c := GetFringeClause(trues, Opposites(trues));
      if c != null {
        PropagateLinked(c, orphans, given);
        done := false;
      } else {
        Parts(orphans);
        NotStopped();
        done := true;
      }
    }

    lemma FewerKnown(extra: set<Proposition>, p: Proposition)
      requires Known(extra + {p})
      ensures Known(extra)
    {
    }

    lemma AllFounded()
      requires Support(trues, Opposites(trues), {}) && undoList == []
      ensures WellFounded(trues, Opposites(trues), {})
    {
      NothingQueued({});
      hide WellFounded, Linked;
    }

    lemma NobodyKnown()
      ensures Known({})
    {
    }

    lemma TruesBounded()
      requires Shape() && Values(trues)
      ensures trues <= Universe(|props|)
    {
      forall l | l in trues ensures l in Universe(|props|) {
        assert l == Literal(l.prop, l.positive);
      }
    }

    // ---------- what the values mean ----------

    lemma GroundedTheory(extra: set<Proposition>)
      requires Coherent(extra)
      ensures Consistent(trues) && forall d :: d in Theory() ==> NoDuplicates(d)
      ensures Founded() ==> Grounded(Theory(), trues, rank)
    {
      ConsistentValues(extra);
      forall l | Founded() && l in trues ensures ForcedBy(Theory(), l, trues, rank) {
        hide Lists, Caches, Forces, Linked, Opposites;
        TrueForced(l, {});
      }
    }

    lemma TrueForced(l: Literal, loose: set<Proposition>)
      requires Shape() && Values(trues) && WellFounded(trues, Opposites(trues), loose)
      requires l in trues && props[l.prop] !in loose
      ensures ForcedBy(Theory(), l, trues, rank)
    {
      hide Opposites, NoDuplicates;
      var p := props[l.prop];
      assert p in props && p.id == l.prop && l == Literal(p.id, l.positive);
      assert l.Negation() == Literal(p.id, !l.positive);
      var d := p.supportedBy.lits;
      assert d in Theory();
      assert d[p.slot].prop == l.prop;
      assert d[p.slot] == Literal(l.prop, d[p.slot].positive);
      assert Forces(d, p.slot, trues, Opposites(trues), rank);
    }

    lemma ClosedTheory(extra: set<Proposition>)
      requires Coherent(extra) && NoFringe() && unsatisfied == []
      ensures Closed(Theory(), trues)
    {
      forall d | d in Theory() ensures Satisfied(d, trues) || Unknowns(d, trues, Opposites(trues)) >= 2 {
        var c :| c in clauses && !c.deleted && c.lits == d;
        hide Shape, Values, Support, Unknowns, Satisfied;
        assert UpToDate(c, c.deleted, c.Status(), trues, Opposites(trues), null);
        assert !c.inFringe && !c.unsatisfied;
      }
    }

    lemma FalsifiedTheory(extra: set<Proposition>) returns (d: Disjunction)
      requires Coherent(extra) && unsatisfied != []
      ensures d in Theory() && forall k :: 0 <= k < |d| ==> d[k] in Opposites(trues)
    {
      var c := unsatisfied[0];
      d := c.lits;
      hide Shape, Values, Support, Unknowns;
      assert UpToDate(c, c.deleted, c.Status(), trues, Opposites(trues), null);
      UnknownsBounds(d, trues, Opposites(trues));
    }

    /** Nothing is left to propagate. */
    ghost predicate Settled()
      reads this`unsatisfied, this`clauses, clauses`inFringe
    {
      unsatisfied == [] && NoFringe()
    }

    /** What a caller of propagate may conclude from its answer, and what it may conclude if every value is forced. */
    lemma Outcome(extra: set<Proposition>)
      requires Coherent(extra)
      ensures Settled() <==> unsatisfied == [] && NoFringe()
      ensures Settled() ==> !PropagationConflict(Theory()) && forall l :: Derivable(Theory(), l) ==> l in trues
      ensures Founded() ==> forall l :: l in trues ==> Derivable(Theory(), l)
      ensures Founded() && unsatisfied != [] ==> PropagationConflict(Theory()) && Unsatisfiable(Theory())
    {
      GroundedTheory(extra);
      hide Coherent, Grounded, Founded, Opposites;
      if Settled() {
        ClosedTheory(extra);
        ClosedNoConflict(Theory(), trues);
        forall l | Derivable(Theory(), l) ensures l in trues {
          var n: nat :| DerivedIn(Theory(), l, n);
          ClosedComplete(Theory(), trues, l, n);
        }
      }
      if Founded() {
        forall l | l in trues ensures Derivable(Theory(), l) {
          var n := LaterThan([l], rank) + 1;
          GroundedDerived(Theory(), trues, rank, l, n);
        }
        if unsatisfied != [] {
          var d := FalsifiedTheory(extra);
          FalsifiedConflict(Theory(), trues, rank, d);
          ConflictUnsatisfiable(Theory());
        }
      }
    }

    /** LTMS::propagate; clauses that are not volatile are preferred: from any part of the old values that leaves the
        others to such clauses, a volatile clause gives a value only when they have nothing more to say. */
    method Propagate(ghost orphans: set<Proposition>, ghost given: set<Literal>) returns (consistent: bool)
      requires Usable(orphans)
      modifies props`tv, props`supportedBy, props`slot, this`trues, this`rank
      modifies this`unsatisfied, fringe, volatileFringe
      modifies clauses`numUnassigned, clauses`satisfyingProp, clauses`inFringe, clauses`unsatisfied, clauses`fringeIndex
      modifies clauses`supports
      ensures Usable(orphans) && old(trues) <= trues && (old(Founded()) ==> Founded())
      ensures if consistent then Settled() else unsatisfied != []
      ensures consistent ==> !PropagationConflict(Theory()) && forall l :: Derivable(Theory(), l) ==> l in trues
      ensures old(Founded()) ==> forall l :: l in trues ==> Derivable(Theory(), l)
      ensures old(Founded()) && !consistent ==> PropagationConflict(Theory()) && Unsatisfiable(Theory())
      ensures given <= old(trues) && old(FromLasting(given, orphans)) ==>
        FromLasting(given, orphans) || LastingFirst(given)
      ensures if old(unsatisfied) == [] then StoppedAtOnce(old(trues)) else trues == old(trues)
    {
      hide *;
      UsableParts(orphans);
      consistent := PropagateAll(orphans, given);
      UsableParts(orphans);
      UsableOutcome(orphans);
    }

    method PropagateAll(ghost orphans: set<Proposition>, ghost given: set<Literal>) returns (done: bool)
      requires Coherent(orphans) && Known(orphans) && undoList == [] && orphans <= Elements(props)
      modifies props`tv, props`supportedBy, props`slot, this`trues, this`rank
      modifies this`unsatisfied, fringe, volatileFringe
      modifies clauses`numUnassigned, clauses`satisfyingProp, clauses`inFringe, clauses`unsatisfied, clauses`fringeIndex
      modifies clauses`supports
      ensures Coherent(orphans) && Known(orphans) && old(trues) <= trues && (old(Founded()) ==> Founded())
      ensures if done then unsatisfied == [] && NoFringe() else unsatisfied != []
      ensures given <= old(trues) && old(FromLasting(given, orphans)) ==>
        FromLasting(given, orphans) || LastingFirst(given)
      ensures if old(unsatisfied) == [] then StoppedAtOnce(old(trues)) else trues == old(trues)
    {
      hide *;
      done := false;
      NotStopped();
      ghost var first := given <= trues && FromLasting(given, orphans);
      while unsatisfied == []
        invariant Coherent(orphans) && Known(orphans) && old(trues) <= trues && (old(Founded()) ==> Founded())
        invariant first ==> FromLasting(given, orphans) || LastingFirst(given)
        invariant if old(unsatisfied) == [] then StoppedAtOnce(old(trues)) else trues == old(trues) && unsatisfied != []
        decreases Universe(|props|) - trues
      {
        if first && FromLasting(given, orphans) && fringe.items == [] { NowExhausted(given, orphans); }
        ghost var t := trues;
        done := PropagateOne(orphans, given);
        StoppedSince(t, old(trues));
        Parts(orphans);
        TruesBounded();
        if done { return; }
      }
      done := false;
    }

    lemma NotStopped()
      ensures unsatisfied == [] ==> forall before :: StoppedAtOnce(before)
    {
    }

    lemma StoppedSince(t: set<Literal>, before: set<Literal>)
      requires StoppedAtOnce(t) && before <= t
      ensures StoppedAtOnce(before)
    {
      hide AllDeny;
    }

    /** The law holds of all the old values. */
    lemma AllGiven(orphans: set<Proposition>)
      requires Usable(orphans)
      ensures FromLasting(trues, orphans)
    {
      hide Shape, Lists, Caches, Support, Stamped, Known;
    }

    // ---------- explaining a conflict ----------

    /** Tracing back from `root` never leaves this set, except beyond a clause that satisfies the wanted predicate. */
    ghost predicate Traced(s: set<Clause>, root: Clause, wanted: Clause -> bool)
      reads this`clauses, this`props, props`supportedBy
    {
      forall d, q :: (d == root || (d in s && !wanted(d))) && d in clauses && q in d.literals && q in props ==>
        q.supportedBy == d || q.supportedBy in s
    }

    ghost predicate InEveryTrace(c: Clause, root: Clause, wanted: Clause -> bool)
      reads this`clauses, this`props, props`supportedBy
    {
      forall s | s <= Elements(clauses) :: Traced(s, root, wanted) ==> c in s
    }

    /** The clauses that tracing back from `root` cannot do without. */
    ghost function Trace(root: Clause, wanted: Clause -> bool): set<Clause>
      reads this`clauses, this`props, props`supportedBy
    {
      set c | c in clauses && InEveryTrace(c, root, wanted)
    }

    lemma TraceWithin(s: set<Clause>, root: Clause, wanted: Clause -> bool)
      requires s <= Elements(clauses) && Traced(s, root, wanted)
      ensures Trace(root, wanted) <= s
    {
      hide Traced;
    }

    /** Every value that is met on the way back has a supporting clause; the program stops with an error otherwise. */
    ghost predicate Traceable(root: Clause, wanted: Clause -> bool)
      reads this`clauses, this`props, props`supportedBy
    {
      exists s | s <= Elements(clauses) :: Traced(s, root, wanted)
    }

    /** The clauses stamped in this round are those of `visited`. */
    ghost predicate Cohort(visited: set<Clause>)
      reads this`clauses, this`timeStamp, clauses`timeStamp
    {
      && (forall c :: c in visited ==> c in clauses)
      && (forall c :: c in clauses ==> c.timeStamp <= timeStamp && (c.timeStamp == timeStamp <==> c in visited))
    }

    /** Every proposition of the clause has a value and a supporting clause. */
    ghost predicate Explained(c: Clause)
      reads this`props, this`clauses, props`tv, props`supportedBy
    {
      c in clauses && forall q :: q in c.literals ==> q in props && q.supportedBy in clauses
    }

    /** A proposition has a supporting clause exactly if it has a value. */
    ghost predicate Assigned()
      reads this`props, props`tv, props`supportedBy
    {
      forall p :: p in props ==> (p.tv == Unknown <==> p.supportedBy == null)
    }

    lemma FoundedFacts(orphans: set<Proposition>)
      requires Coherent(orphans) && Founded()
      ensures Shape() && Values(trues) && Assigned() && WellFounded(trues, Opposites(trues), {})
    {
      hide Shape, Values, Lists, Caches, WellFounded, Opposites;
    }

    lemma SupporterExplained(q: Proposition)
      requires Shape() && Values(trues) && Assigned() && WellFounded(trues, Opposites(trues), {}) && q in props
      requires q.tv != Unknown
      ensures q.supportedBy in clauses && Explained(q.supportedBy)
    {
      var c := q.supportedBy;
      ShapeOf(c);
      forall r | r in c.literals ensures r in props && r.supportedBy in clauses {
        var j :| 0 <= j < |c.literals| && c.literals[j] == r;
        hide Shape, Values, Opposites, Clause.Shape;
        KnownLiteral(c, j, trues);
        assert j == q.slot || c.lits[j] in Opposites(trues);
        assert r.tv != Unknown;
      }
    }

    /** Ptheory::initialize_time_stamps */
    method InitializeTimeStamps()
      requires Stamped()
      modifies this`timeStamp, clauses`timeStamp
      ensures timeStamp == 0 && Cohort(Elements(clauses))
    {
      timeStamp := 0;
      for k := 0 to |clauses|
        invariant timeStamp == 0 && forall j :: 0 <= j < k ==> clauses[j].timeStamp == 0
      {
        clauses[k].timeStamp := 0;
      }
    }

    const MAX_TIME_STAMP: nat := 65535

    /** Start a new cohort: no clause has its stamp yet. */
    method NewCohort()
      requires Stamped() && timeStamp <= MAX_TIME_STAMP
      modifies this`timeStamp, clauses`timeStamp
      ensures Cohort({}) && timeStamp <= MAX_TIME_STAMP
    {
      if timeStamp == MAX_TIME_STAMP {
        InitializeTimeStamps();
      }
      timeStamp := timeStamp + 1;
    }

    /** The state of the trace: what is on the stack, what has been found and what has been visited. */
    ghost predicate Tracing(stack: seq<Clause>, result: seq<Clause>, visited: set<Clause>, root: Clause,
                            wanted: Clause -> bool, current: set<Clause>)
      reads this`clauses, this`props, props`supportedBy
    {
      && (forall c :: c in stack ==> c == root || (c in visited && !wanted(c)))
      && NoDuplicates(result)
      && (forall c :: c in result ==> c in visited && wanted(c))
      && (forall c :: c in visited && wanted(c) ==> c in result)
      && (forall d, q ::
            (d == root || (d in visited && !wanted(d))) && d !in stack && d !in current && d in clauses
            && q in d.literals && q in props ==>
              q.supportedBy == d || q.supportedBy in visited)
    }

    /** Look at the clause that supports one literal of `current`. */
    method TraceSupport(current: Clause, q: Proposition, wanted: Clause -> bool, stack: seq<Clause>,
                        result: seq<Clause>,
                        ghost visited: set<Clause>, ghost root: Clause, ghost least: set<Clause>)
      returns (stack': seq<Clause>, result': seq<Clause>, ghost visited': set<Clause>)
      requires Cohort(visited) && Tracing(stack, result, visited, root, wanted, {current})
      requires Traced(least, root, wanted) && least <= Elements(clauses) && visited <= least
      requires current in clauses && q in current.literals && q in props
      requires current == root || (current in visited && !wanted(current))
      modifies clauses`timeStamp
      ensures Cohort(visited') && Tracing(stack', result', visited', root, wanted, {current})
      ensures visited <= visited' <= least && (q.supportedBy == current || q.supportedBy in visited')
      ensures visited' == visited ==> stack' == stack
    {
      stack', result', visited' := stack, result, visited;
      var parent := q.supportedBy;
      SupporterOf(current, q, wanted, root, least);
      hide Traced;
      if parent != current && parent.timeStamp != timeStamp {
        parent.timeStamp := timeStamp;
        visited' := visited + {parent};
        if wanted(parent) {
          result' := [parent] + result;
        } else {
          stack' := stack + [parent];
        }
      }
    }

    lemma SupporterOf(current: Clause, q: Proposition, wanted: Clause -> bool, root: Clause, least: set<Clause>)
      requires Traced(least, root, wanted) && least <= Elements(clauses)
      requires current in clauses && q in current.literals && q in props
      requires current == root || (current in least && !wanted(current))
      ensures q.supportedBy == current || (q.supportedBy in least && q.supportedBy in clauses)
    {
    }

    /** Look at the supports of every literal of the clause on top of the stack. */
    method TraceClause(stack: seq<Clause>, wanted: Clause -> bool, result: seq<Clause>, ghost visited: set<Clause>,
                       ghost root: Clause, ghost least: set<Clause>)
      returns (stack': seq<Clause>, result': seq<Clause>, ghost visited': set<Clause>)
      requires stack != [] && root in clauses && Shape()
      requires Traced(least, root, wanted) && least <= Elements(clauses) && visited <= least
      requires Cohort(visited) && Tracing(stack, result, visited, root, wanted, {})
      modifies clauses`timeStamp
      ensures Cohort(visited') && Tracing(stack', result', visited', root, wanted, {})
      ensures visited <= visited' <= least && (visited' == visited ==> |stack'| < |stack|)
    {
      var current := stack[|stack|-1];
      hide *;
      TraceStart(stack, result, visited, root, wanted);
      LiteralsListed(current);
      stack', result', visited' := stack[..|stack|-1], result, visited;
      NoneFound(current, visited);
      for k := 0 to |current.literals|
        invariant Cohort(visited') && Tracing(stack', result', visited', root, wanted, {current})
        invariant visited <= visited' <= least && (visited' == visited ==> stack' == stack[..|stack|-1])
        invariant SupportsFound(current, k, visited')
      {
        ghost var before := visited';
        stack', result', visited' :=
          TraceSupport(current, current.literals[k], wanted, stack', result', visited', root, least);
        NextFound(current, k, before, visited');
      }
      TracedCurrent(current, wanted, stack', result', visited', root);
    }

    lemma LiteralsListed(c: Clause)
      requires Shape() && c in clauses
      ensures forall q :: q in c.literals ==> q in props
    {
      ShapeOf(c);
    }

    lemma TraceStart(stack: seq<Clause>, result: seq<Clause>, visited: set<Clause>, root: Clause,
                     wanted: Clause -> bool)
      requires stack != [] && Tracing(stack, result, visited, root, wanted, {}) && root in clauses && Cohort(visited)
      ensures var current := stack[|stack|-1];
              && (current == root || (current in visited && !wanted(current))) && current in clauses
              && Tracing(stack[..|stack|-1], result, visited, root, wanted, {current})
    {
      hide NoDuplicates;
      var current := stack[|stack|-1];
      assert forall c :: c in stack ==> c == current || c in stack[..|stack|-1];
    }

    lemma TracedCurrent(current: Clause, wanted: Clause -> bool, stack: seq<Clause>, result: seq<Clause>,
                        visited: set<Clause>, root: Clause)
      requires Tracing(stack, result, visited, root, wanted, {current})
      requires SupportsFound(current, |current.literals|, visited)
      ensures Tracing(stack, result, visited, root, wanted, {})
    {
    }

    /** The supports of the first k literals have been visited. */
    ghost predicate SupportsFound(current: Clause, k: nat, visited: set<Clause>)
      requires k <= |current.literals|
      reads current.literals`supportedBy
    {
      forall j :: 0 <= j < k ==>
        current.literals[j].supportedBy == current || current.literals[j].supportedBy in visited
    }

    lemma NextFound(current: Clause, k: nat, visited: set<Clause>, visited': set<Clause>)
      requires k < |current.literals| && SupportsFound(current, k, visited) && visited <= visited'
      requires current.literals[k].supportedBy == current || current.literals[k].supportedBy in visited'
      ensures SupportsFound(current, k + 1, visited')
    {
    }

    lemma NoneFound(current: Clause, visited: set<Clause>)
      ensures SupportsFound(current, 0, visited)
    {
    }

    /** There is a least way to trace back: what belongs to every trace is one. */
    lemma TraceIsLeast(root: Clause, wanted: Clause -> bool)
      requires Traceable(root, wanted)
      ensures Traced(Trace(root, wanted), root, wanted)
    {
      var trace := Trace(root, wanted);
      var one: set<Clause> :| one <= Elements(clauses) && Traced(one, root, wanted);
      TraceWithin(one, root, wanted);
      forall d, q | (d == root || (d in trace && !wanted(d))) && d in clauses && q in d.literals && q in props
        ensures q.supportedBy == d || q.supportedBy in trace
      {
        forall s | s <= Elements(clauses) && Traced(s, root, wanted)
          ensures q.supportedBy == d || q.supportedBy in s
        {
          TraceWithin(s, root, wanted);
        }
        assert q.supportedBy == d || q.supportedBy in one;
      }
    }

    /** LTMS::get_clause_support */
    method GetClauseSupport(root: Clause, wanted: Clause -> bool) returns (result: seq<Clause>)
      requires Shape() && root in clauses && Traceable(root, wanted) && Stamped() && timeStamp <= MAX_TIME_STAMP
      modifies this`timeStamp, clauses`timeStamp
      ensures Stamped() && timeStamp <= MAX_TIME_STAMP
      ensures Traced(Trace(root, wanted), root, wanted)
      ensures NoDuplicates(result) && forall c :: c in result <==> c in Trace(root, wanted) && wanted(c)
    {
      hide *;
      TraceIsLeast(root, wanted);
      TraceListed(root, wanted);
      NewCohort();
      var stack := [root];
      result := [];
      ghost var visited := {};
      NothingTraced(root, wanted);
      while stack != []
        invariant Cohort(visited) && Tracing(stack, result, visited, root, wanted, {})
        invariant visited <= Trace(root, wanted)
        invariant timeStamp <= MAX_TIME_STAMP
        decreases Trace(root, wanted) - visited, |stack|
      {
        stack, result, visited := TraceClause(stack, wanted, result, visited, root, Trace(root, wanted));
      }
      NothingLeftToTrace(result, visited, root, wanted);
      TraceWithin(visited, root, wanted);
    }

    lemma TraceListed(root: Clause, wanted: Clause -> bool)
      ensures Trace(root, wanted) <= Elements(clauses)
    {
    }

    lemma NothingTraced(root: Clause, wanted: Clause -> bool)
      ensures Tracing([root], [], {}, root, wanted, {})
    {
    }

    lemma NothingLeftToTrace(result: seq<Clause>, visited: set<Clause>, root: Clause, wanted: Clause -> bool)
      requires Cohort(visited) && Tracing([], result, visited, root, wanted, {})
      ensures Traced(visited, root, wanted) && visited <= Elements(clauses) && NoDuplicates(result) && Stamped()
      ensures forall c :: c in result <==> c in visited && wanted(c)
    {
    }

    /** The clauses of the theory that do not stand for an assumption. */
    ghost function Background(wanted: Clause -> bool): set<Disjunction>
      reads this`clauses, clauses`deleted
    {
      set c | c in clauses && !c.deleted && !wanted(c) :: c.lits
    }

    /** Every clause that stands for an assumption asserts one literal. */
    ghost predicate UnitAssumptions(wanted: Clause -> bool)
      reads this`clauses
    {
      forall c :: c in clauses && wanted(c) ==> |c.lits| == 1
    }

    static ghost function Meaning(cs: seq<Clause>): set<Disjunction> {
      set c | c in cs :: c.lits
    }

    /** In a model of the background and of the assumptions found, every value the trace met is the true one. */
    lemma {:induction false} AgreesWithModel(q: Proposition, visited: set<Clause>, root: Clause, wanted: Clause -> bool,
                                             found: set<Disjunction>, m: Model)
      requires Shape() && Values(trues) && Assigned() && WellFounded(trues, Opposites(trues), {})
      requires Traced(visited, root, wanted) && UnitAssumptions(wanted)
      requires forall c :: c in visited && wanted(c) ==> c.lits in found
      requires ModelOf(m, Background(wanted) + found)
      requires q in props && q.tv != Unknown && q.supportedBy in visited && q.id in rank
      ensures q.supportedBy != null && q.slot < |q.supportedBy.lits| && Holds(m, q.supportedBy.lits[q.slot])
      decreases rank[q.id]
    {
      var c := q.supportedBy;
      assert c.lits in Background(wanted) + found;
      var i :| 0 <= i < |c.lits| && Holds(m, c.lits[i]);
      if i != q.slot {
        assert !wanted(c);
        SupporterOfOther(c, q, i);
        var r := c.literals[i];
        assert r.supportedBy in visited;
        AgreesWithModel(r, visited, root, wanted, found, m);
        FalseLiteral(c, r, i);
        assert false;
      }
    }

    /** A literal that helps to force `q` belongs to another proposition, with a clause of its own and a lower rank. */
    lemma SupporterOfOther(c: Clause, q: Proposition, i: nat)
      requires Shape() && Values(trues) && Assigned() && WellFounded(trues, Opposites(trues), {})
      requires q in props && q.tv != Unknown && c == q.supportedBy && i < |c.lits| && i != q.slot
      ensures |c.literals| == |c.lits| && c.lits[i] in Opposites(trues) && c.lits[i].prop in rank && q.id in rank
      ensures var r := c.literals[i];
              && r in props && r.id == c.lits[i].prop && r.tv != Unknown
              && r.supportedBy != c && rank[r.id] < rank[q.id]
    {
      ShapeOf(c);
      KnownLiteral(c, i, trues);
      NotBoth(c, q, c.literals[i]);
    }

    /** One clause does not force two values. */
    lemma NotBoth(c: Clause, q: Proposition, r: Proposition)
      requires WellFounded(trues, Opposites(trues), {}) && q in props && r in props && q.tv != Unknown
      requires r.tv != Unknown
      requires q.supportedBy == c && q.id in rank && r.id in rank && rank[r.id] < rank[q.id]
      ensures r.supportedBy != c
    {
      hide Opposites;
    }

    /** The literal is false and the one its proposition was assigned is its opposite. */
    lemma FalseLiteral(c: Clause, r: Proposition, i: nat)
      requires Shape() && Values(trues) && WellFounded(trues, Opposites(trues), {})
      requires r in props && r.tv != Unknown && i < |c.lits| && c.lits[i] in Opposites(trues) && c.lits[i].prop == r.id
      ensures r.supportedBy != null && r.slot < |r.supportedBy.lits|
      ensures r.supportedBy.lits[r.slot] == c.lits[i].Negation()
    {
      OppositeIn(trues, c.lits[i]);
      var l := r.supportedBy.lits[r.slot];
      assert l in trues && l.prop == r.id;
      TrueOnce(l, c.lits[i].Negation());
    }

    lemma TrueOnce(l: Literal, k: Literal)
      requires Shape() && Values(trues) && l in trues && k in trues && l.prop == k.prop
      ensures l == k
    {
      var p := props[l.prop];
      assert p in props && p.id == l.prop;
      assert l == Literal(p.id, l.positive) && k == Literal(p.id, k.positive);
    }

    /** The clauses that support a value: all of them belong to the theory, and no falsified clause is one. */
    ghost function Supporters(): set<Clause>
      reads this`clauses, this`props, props`tv, props`supportedBy
    {
      set p | p in props && p.tv != Unknown && p.supportedBy in clauses :: p.supportedBy
    }

    lemma SupportersTraced(root: Clause, wanted: Clause -> bool)
      requires Shape() && Values(trues) && Assigned() && WellFounded(trues, Opposites(trues), {}) && Explained(root)
      ensures Traced(Supporters(), root, wanted)
    {
      hide Shape, Values, WellFounded, Opposites;
      forall d, q | d in clauses && q in d.literals && q in props && (d == root || (d in Supporters() && !wanted(d)))
        ensures q.supportedBy in Supporters()
      {
        if d != root {
          var p :| p in props && p.tv != Unknown && p.supportedBy == d;
          SupporterExplained(p);
        }
      }
    }

    lemma SupportersInTheory()
      requires WellFounded(trues, Opposites(trues), {})
      ensures forall c :: c in Supporters() ==> c in clauses && !c.deleted
    {
      hide Forces, Opposites;
    }

    lemma UnsatisfiedFacts(c: Clause, orphans: set<Proposition>)
      requires Coherent(orphans) && Founded() && c in clauses && c.unsatisfied
      ensures !c.deleted && c !in Supporters() && Explained(c)
      ensures forall k :: 0 <= k < |c.lits| ==> c.lits[k] in Opposites(trues)
    {
      FoundedFacts(orphans);
      assert UpToDate(c, c.deleted, c.Status(), trues, Opposites(trues), null);
      hide Shape, Values, Lists, Support, Unknowns, Opposites, WellFounded, Coherent, Caches;
      UnknownsBounds(c.lits, trues, Opposites(trues));
      ShapeOf(c);
      forall q | q in c.literals ensures q in props && q.supportedBy in clauses {
        var k :| 0 <= k < |c.literals| && c.literals[k] == q;
        KnownLiteral(c, k, trues);
        SupporterExplained(q);
      }
      if c in Supporters() {
        var q :| q in props && q.tv != Unknown && q.supportedBy == c;
        ForcedLiteral(q);
      }
    }

    lemma ForcedLiteral(q: Proposition)
      requires WellFounded(trues, Opposites(trues), {}) && q in props && q.tv != Unknown
      ensures q.supportedBy != null && Satisfied(q.supportedBy.lits, trues)
    {
    }

    /** A falsified clause, with the assumptions its values were traced back to, contradicts the background. */
    lemma ConflictSound(root: Clause, visited: set<Clause>, wanted: Clause -> bool, found: set<Disjunction>,
                        orphans: set<Proposition>)
      requires Coherent(orphans) && Founded() && root in clauses && root.unsatisfied
      requires Traced(visited, root, wanted) && UnitAssumptions(wanted)
      requires forall c :: (c in visited || c == root) && wanted(c) ==> c.lits in found
      ensures Unsatisfiable(Background(wanted) + found)
    {
      UnsatisfiedFacts(root, orphans);
      FoundedFacts(orphans);
      forall m: Model ensures !ModelOf(m, Background(wanted) + found) {
        if ModelOf(m, Background(wanted) + found) {
          hide Lists, Caches, Support, Shape, Values, Assigned, WellFounded, Opposites, Traced, Coherent, Founded;
          assert root.lits in Background(wanted) + found;
          var i :| 0 <= i < |root.lits| && Holds(m, root.lits[i]);
          var r := FalsifiedLiteral(root, i, visited, wanted);
          AgreesWithModel(r, visited, root, wanted, found, m);
          FalseLiteral(root, r, i);
        }
      }
    }

    lemma FalsifiedLiteral(root: Clause, i: nat, visited: set<Clause>, wanted: Clause -> bool) returns (r: Proposition)
      requires Shape() && Values(trues) && Assigned() && WellFounded(trues, Opposites(trues), {})
      requires root in clauses && root !in Supporters() && i < |root.lits| && root.lits[i] in Opposites(trues)
      requires Traced(visited, root, wanted)
      ensures r in props && r.tv != Unknown && r.supportedBy in visited && r.id in rank && r.id == root.lits[i].prop
    {
      ShapeOf(root);
      KnownLiteral(root, i, trues);
      r := root.literals[i];
    }

    /** In a state in which every value is forced, a falsified clause can be traced back within the theory. */
    lemma Unsupported(root: Clause, wanted: Clause -> bool, orphans: set<Proposition>)
      requires Coherent(orphans) && Founded() && root in clauses && root.unsatisfied
      ensures !root.deleted && Traceable(root, wanted) && root !in Trace(root, wanted)
      ensures Trace(root, wanted) <= Supporters()
      ensures forall c :: c in Trace(root, wanted) ==> c in clauses && !c.deleted
    {
      hide Shape, Values, Caches, Support, Explained, Traced, Supporters, Opposites, WellFounded, Assigned, Trace;
      FoundedFacts(orphans);
      UnsatisfiedFacts(root, orphans);
      SupportersTraced(root, wanted);
      SupportersInTheory();
      assert Supporters() <= Elements(clauses);
      TraceWithin(Supporters(), root, wanted);
    }

    lemma FirstUnsatisfied(orphans: set<Proposition>)
      requires Usable(orphans) && unsatisfied != []
      ensures unsatisfied[0] in clauses && unsatisfied[0].unsatisfied && Shape() && Stamped() && Coherent(orphans)
    {
      hide Shape, Values, Caches, Support, Opposites, WellFounded, Assigned, Stamped;
    }

    /** As long as every value is forced, last_conflict finds its way back. */
    lemma FoundedTraceable(wanted: Clause -> bool, orphans: set<Proposition>)
      requires Usable(orphans) && Founded() && unsatisfied != []
      ensures Traceable(unsatisfied[0], wanted)
    {
      hide *;
      FirstUnsatisfied(orphans);
      Unsupported(unsatisfied[0], wanted, orphans);
    }

    /** Trace back from a falsified clause to the assumptions that its values rest on. */
    method ExplainClause(root: Clause, wanted: Clause -> bool) returns (conflict: seq<Clause>)
      requires Shape() && root in clauses && Traceable(root, wanted) && Stamped() && timeStamp <= MAX_TIME_STAMP
      modifies this`timeStamp, clauses`timeStamp
      ensures Stamped() && timeStamp <= MAX_TIME_STAMP && Traced(Trace(root, wanted), root, wanted)
      ensures forall c :: c in conflict <==> wanted(c) && (c == root || c in Trace(root, wanted))
      ensures root !in Trace(root, wanted) ==> NoDuplicates(conflict)
    {
      hide Shape, Stamped, Traced, Trace, Traceable;
      conflict := GetClauseSupport(root, wanted);
      if wanted(root) {
        conflict := conflict + [root];
      }
    }

    static lemma MeaningOf(cs: seq<Clause>)
      ensures forall c :: c in cs ==> c.lits in Meaning(cs)
    {
    }

    /** LTMS::last_conflict */
    method LastConflict(wanted: Clause -> bool, ghost orphans: set<Proposition>) returns (conflict: seq<Clause>)
      requires Usable(orphans) && timeStamp <= MAX_TIME_STAMP
      requires unsatisfied != [] ==> Traceable(unsatisfied[0], wanted)
      modifies this`timeStamp, clauses`timeStamp
      ensures Usable(orphans) && timeStamp <= MAX_TIME_STAMP && (old(Founded()) ==> Founded())
      ensures unsatisfied == [] ==> conflict == []
      ensures unsatisfied != [] ==> Traced(Trace(unsatisfied[0], wanted), unsatisfied[0], wanted)
      ensures unsatisfied != [] ==>
        forall c :: c in conflict <==> wanted(c) && (c == unsatisfied[0] || c in Trace(unsatisfied[0], wanted))
      ensures Founded() ==> NoDuplicates(conflict) && forall c :: c in conflict ==> c in clauses && !c.deleted
      ensures Founded() && unsatisfied != [] && UnitAssumptions(wanted) ==>
        Unsatisfiable(Background(wanted) + Meaning(conflict))
    {
      hide *;
      UsableParts(orphans);
      conflict := [];
      Nothing(conflict);
      if unsatisfied != [] {
        FirstUnsatisfied(orphans);
        conflict := ExplainClause(unsatisfied[0], wanted);
        if Founded() { ConflictMeans(unsatisfied[0], wanted, conflict, orphans); }
      }
      UsableParts(orphans);
    }

    static lemma Nothing(cs: seq<Clause>)
      requires cs == []
      ensures NoDuplicates(cs)
    {
    }

    lemma ConflictMeans(root: Clause, wanted: Clause -> bool, conflict: seq<Clause>, orphans: set<Proposition>)
      requires Coherent(orphans) && Founded() && root in clauses && root.unsatisfied
      requires Traced(Trace(root, wanted), root, wanted)
      requires forall c :: c in conflict <==> wanted(c) && (c == root || c in Trace(root, wanted))
      requires root !in Trace(root, wanted) ==> NoDuplicates(conflict)
      ensures NoDuplicates(conflict) && forall c :: c in conflict ==> c in clauses && !c.deleted
      ensures UnitAssumptions(wanted) ==> Unsatisfiable(Background(wanted) + Meaning(conflict))
    {
      hide *;
      Unsupported(root, wanted, orphans);
      MeaningOf(conflict);
      if UnitAssumptions(wanted) { ConflictSound(root, Trace(root, wanted), wanted, Meaning(conflict), orphans); }
    }

    // ---------- how little a conflict blames ----------

    /** Values that are left have the clauses that they had. */
    lemma StillFromLasting(t: set<Literal>, source: map<nat, Clause?>)
      requires Usable({}) && trues <= t && OnlyLasting({}, {}, t, source)
      requires forall k: nat :: k < |props| && props[k].tv != Unknown ==>
        k in source && props[k].supportedBy == source[k]
      ensures FromLasting({}, {})
    {
      hide Lists, Caches, Support, Known, Stamped;
      forall l | l in trues ensures l.prop < |props| && props[l.prop].tv != Unknown {
        assert props[l.prop] in props && props[l.prop].id == l.prop;
        assert l == Literal(l.prop, l.positive);
      }
      hide Shape, Values, Opposites;
    }

    /** Remove leaves no value to a volatile clause that did not come from one. */
    method RemoveSparing(c: Clause)
      requires Usable({}) && c in clauses
      modifies this`unsatisfied, this`undoList, this`trues, fringe, volatileFringe, props`tv, props`supportedBy
      modifies c`deleted
      modifies clauses`numUnassigned, clauses`satisfyingProp, clauses`inFringe, clauses`unsatisfied, clauses`fringeIndex
      modifies clauses`supports
      ensures Usable({}) && c.deleted && (old(FromLasting({}, {})) ==> FromLasting({}, {}))
    {
      ghost var t, source := trues, Supporting();
      hide *;
      LawMeans({}, {});
      Remove(c, {});
      if OnlyLasting({}, {}, t, source) { StillFromLasting(t, source); }
    }

    /** What a clause supports is true and has the clause as its source. */
    lemma SupporterSource(c: Clause) returns (k: nat)
      requires Shape() && Values(trues) && WellFounded(trues, Opposites(trues), {}) && c in Supporters()
      ensures k < |c.lits| && c.lits[k] in trues && c.lits[k].prop in Supporting()
      ensures Supporting()[c.lits[k].prop] == c
    {
      var p :| p in props && p.tv != Unknown && p.supportedBy == c;
      k := p.slot;
      hide Opposites, Clause.Shape;
      assert Forces(c.lits, k, trues, Opposites(trues), rank) && c.lits[k].prop == p.id;
      var i :| 0 <= i < |props| && props[i] == p;
      assert props[i].id == i;
    }

    lemma AllFromLasting()
      requires Shape() && Values(trues) && WellFounded(trues, Opposites(trues), {}) && FromLasting({}, {})
      ensures forall l :: l in trues ==> Derivable(Lasting(), l)
    {
      hide *;
      forall l | l in trues && l !in {} ensures ForcedBy(Lasting(), l, trues, rank) {
        LastingForced(l, {}, {});
      }
      GroundedMeans(Lasting(), {});
      forall l | l in trues ensures Derivable(Lasting(), l) {
        GivenDerivable(Lasting(), trues, rank, {}, l);
      }
    }

    /** As long as volatile clauses came last, a wanted clause that supports a value is not one whose literal the other
        clauses derive, and none supports anything if they refute a clause of the theory. */
    lemma WantedSupporter(c: Clause, wanted: Clause -> bool)
      requires Shape() && Values(trues) && WellFounded(trues, Opposites(trues), {})
      requires c in Supporters() && c.isVolatile && |c.lits| == 1
      requires FromLasting({}, {}) || LastingFirst({})
      ensures LastingFirst({}) && !Derivable(Lasting(), c.lits[0])
    {
      var k := SupporterSource(c);
      NoFacts();
      hide Shape, Values, WellFounded, Supporters, Derivable, RefutedBy, Lasting, Facts, Supporting, Opposites;
    }

    lemma NoFacts()
      ensures Lasting() + Facts({}) == Lasting()
    {
    }

    lemma RootFalse(root: Clause, orphans: set<Proposition>)
      requires Coherent(orphans) && Founded() && root in clauses && root.unsatisfied
      ensures forall k :: 0 <= k < |root.lits| ==> root.lits[k].Negation() in trues && root.lits[k] !in trues
    {
      UnsatisfiedFacts(root, orphans);
      ConsistentValues(orphans);
      hide Coherent, Founded, Opposites;
      forall k | 0 <= k < |root.lits| ensures root.lits[k].Negation() in trues && root.lits[k] !in trues {
        OppositeIn(trues, root.lits[k]);
      }
    }

    /** If the clauses that are not volatile refute a clause of the theory, at most one assumption is blamed, one that
        they refute; and they derive no assumption that is blamed, unless they contradict one another. */
    ghost predicate BlamesLeast(conflict: seq<Clause>)
      reads this`clauses, clauses`deleted
    {
      && (forall c :: c in conflict ==> |c.lits| == 1)
      && ((exists d :: d in Theory() && RefutedBy(Lasting(), d)) ==>
            |conflict| <= 1 && forall c :: c in conflict ==> Derivable(Lasting(), c.lits[0].Negation()))
      && (!PropagationConflict(Lasting()) ==> forall c :: c in conflict ==> !Derivable(Lasting(), c.lits[0]))
    }

    lemma LeastBlame(wanted: Clause -> bool, conflict: seq<Clause>)
      requires Usable({}) && Founded() && unsatisfied != [] && NoDuplicates(conflict)
      requires forall c :: c in conflict ==> wanted(c) && (c == unsatisfied[0] || c in Trace(unsatisfied[0], wanted))
      requires forall c :: c in clauses && wanted(c) ==> c.isVolatile && |c.lits| == 1
      requires FromLasting({}, {}) || LastingFirst({})
      ensures BlamesLeast(conflict)
    {
      var root := unsatisfied[0];
      hide *;
      FirstUnsatisfied({});
      Unsupported(root, wanted, {});
      FoundedFacts({});
      RootFalse(root, {});
      forall c | c in conflict
        ensures c in clauses && |c.lits| == 1 && (c != root ==> LastingFirst({}) && !Derivable(Lasting(), c.lits[0]))
      {
        if c != root { WantedSupporter(c, wanted); }
      }
      if FromLasting({}, {}) { AllFromLasting(); }
      if LastingFirst({}) { FirstMeans(); }
      if forall c :: c in conflict ==> c == root { OneOf(conflict, root); }
      if root in conflict && Derivable(Lasting(), root.lits[0]) && FromLasting({}, {}) {
        OppositesConflict(Lasting(), root.lits[0]);
      }
      BlamesLeastIf(conflict);
    }

    lemma BlamesLeastIf(conflict: seq<Clause>)
      requires forall c :: c in conflict ==> |c.lits| == 1
      requires (exists d :: d in Theory() && RefutedBy(Lasting(), d)) ==>
                 |conflict| <= 1 && forall c :: c in conflict ==> Derivable(Lasting(), c.lits[0].Negation())
      requires !PropagationConflict(Lasting()) ==> forall c :: c in conflict ==> !Derivable(Lasting(), c.lits[0])
      ensures BlamesLeast(conflict)
    {
      hide Theory, RefutedBy, Lasting, Derivable, PropagationConflict;
    }

    lemma FirstMeans()
      requires LastingFirst({})
      ensures forall d :: d in Theory() ==> !RefutedBy(Lasting(), d)
      ensures forall l :: Derivable(Lasting(), l) ==> l in trues
    {
      NoFacts();
      hide Derivable, RefutedBy, Lasting, Facts, Supporting, Theory, Rests;
    }

    static lemma OneOf(cs: seq<Clause>, c: Clause)
      requires NoDuplicates(cs) && forall d :: d in cs ==> d == c
      ensures |cs| <= 1
    {
      NoDuplicatesLength(cs, [c]);
    }

    // ---------- creating propositions and clauses ----------

    static lemma OneMoreProposition(ps: seq<Proposition>, cs: seq<Clause>, p: Proposition)
      requires Shaped(ps, cs) && p.id == |ps| && p.positive == p.negative == []
      ensures Shaped(ps + [p], cs)
    {
      hide Clause.Shape;
    }

    static lemma OneMoreValue(ps: seq<Proposition>, cs: seq<Clause>, p: Proposition, t: set<Literal>)
      requires Valued(ps, t) && p.id == |ps| && p.tv == Unknown
      ensures Valued(ps + [p], t)
    {
    }

    static lemma OneMoreSupport(ps: seq<Proposition>, cs: seq<Clause>, p: Proposition, rank: map<nat, nat>,
                                t: set<Literal>, f: set<Literal>, loose: set<Proposition>)
      requires p.tv == Unknown && p.supportedBy == null && p !in ps && loose <= Elements(ps)
      ensures LinkedIn(ps, cs, loose) ==> LinkedIn(ps + [p], cs, loose)
      ensures WellFoundedIn(ps, cs, rank, t, f, loose) ==> WellFoundedIn(ps + [p], cs, rank, t, f, loose)
    {
      hide Forces;
    }

    method CreateProposition(ghost orphans: set<Proposition>) returns (p: Proposition)
      requires Usable(orphans)
      modifies this`props
      ensures Usable(orphans) && (old(Founded()) ==> Founded())
      ensures fresh(p) && props == old(props) + [p] && p.tv == Unknown && p.positive == p.negative == []
    {
      hide Lists, Caches, Shaped, Valued, LinkedIn, WellFoundedIn, Opposites, Stamped;
      NothingQueued(orphans);
      p := new Proposition(|props|);
      OneMoreProposition(props, clauses, p);
      OneMoreValue(props, clauses, p, trues);
      OneMoreSupport(props, clauses, p, rank, trues, Opposites(trues), orphans);
      OneMoreSupport(props, clauses, p, rank, trues, Opposites(trues), {});
      assert Elements(props) <= Elements(props + [p]);
      props := props + [p];
      NothingQueued(orphans);
    }

    /** How many literals a clause can count: its length is a signed char. */
    const MAX_LITERALS: nat := 127

    lemma DistinctLiterals(c: Clause, positives: seq<Proposition>, negatives: seq<Proposition>)
      requires Shape() && NoDuplicates(positives) && NoDuplicates(negatives)
      requires forall p :: p in positives || p in negatives ==> p in props
      requires c.literals == positives + negatives && c.numPositive == |positives| && |c.lits| == |c.literals|
      requires forall i :: 0 <= i < |c.lits| ==> c.lits[i] == Literal(c.literals[i].id, i < c.numPositive)
      ensures c.Shape()
    {
      hide Shape;
      forall i, j | 0 <= i < j < |c.lits| ensures c.lits[i] != c.lits[j] {
        assert j < |positives| || i >= |positives| ==> c.literals[i] != c.literals[j];
        if c.literals[i].id == c.literals[j].id { SameProposition(c.literals[i], c.literals[j]); }
      }
    }

    /** An occurrence list while the first k literals of the new clause `c` have been entered. */
    static ghost predicate Listed(occurrences: seq<Clause>, l: Literal, c: Clause, k: nat, cs: seq<Clause>)
      requires k <= |c.lits|
    {
      && NoDuplicates(occurrences)
      && (c in occurrences <==> l in c.lits[..k])
      && (forall d :: d in occurrences && d != c ==> d in cs && l in d.lits)
    }

    /** The first k literals of a new clause know about it; otherwise the occurrence lists are as they were. */
    static ghost predicate Entering(c: Clause, k: nat, ps: seq<Proposition>, cs: seq<Clause>)
      requires k <= |c.lits|
      reads ps`positive, ps`negative
    {
      && (forall p, sense :: p in ps ==> Listed(p.Occurrences(sense), Literal(p.id, sense), c, k, cs))
      && (forall d, i :: d in cs && 0 <= i < |d.literals| ==>
            d.literals[i] in ps && d in d.literals[i].Occurrences(i < d.numPositive))
    }

    static lemma ListedNext(occurrences: seq<Clause>, l: Literal, c: Clause, k: nat, cs: seq<Clause>)
      requires k < |c.lits| && Listed(occurrences, l, c, k, cs) && NoDuplicates(c.lits)
      ensures Listed(if l == c.lits[k] then occurrences + [c] else occurrences, l, c, k + 1, cs)
    {
      assert c.lits[..k+1] == c.lits[..k] + [c.lits[k]];
      if l == c.lits[k] {
        assert l !in c.lits[..k];
        NoDuplicatesMore(occurrences, c);
      }
    }

    static lemma EnteringNone(c: Clause, ps: seq<Proposition>, cs: seq<Clause>)
      requires Shaped(ps, cs) && c !in cs
      ensures Entering(c, 0, ps, cs)
    {
    }

    static lemma EnteredAll(c: Clause, ps: seq<Proposition>, cs: seq<Clause>)
      requires c.Shape() && c !in cs && Entering(c, |c.lits|, ps, cs) && NoDuplicates(cs)
      requires (forall p :: p in c.literals ==> p in ps) && (forall d :: d in cs ==> d.Shape())
      requires forall i :: 0 <= i < |ps| ==> ps[i].id == i
      ensures Shaped(ps, cs + [c])
    {
      assert c.lits[..|c.lits|] == c.lits;
      forall i | 0 <= i < |c.literals| ensures c in c.literals[i].Occurrences(i < c.numPositive) {
        assert c.lits[i] in c.lits;
      }
      NoDuplicatesMore(cs, c);
      hide Clause.Shape, NoDuplicates;
    }

    /** Proposition::add_positive or add_negative */
    method Enter(c: Clause, k: nat)
      requires c.Shape() && k < |c.literals| && Entering(c, k, props, clauses)
      requires c.literals[k] in props && forall q :: q in props && q.id == c.literals[k].id ==> q == c.literals[k]
      modifies {c.literals[k]}`positive, {c.literals[k]}`negative
      ensures Entering(c, k + 1, props, clauses)
    {
      var p, sense := c.literals[k], k < c.numPositive;
      assert c.lits[k] == Literal(p.id, sense);
      forall q, s | q in props ensures
        Listed(if q == p && s == sense then q.Occurrences(s) + [c] else q.Occurrences(s),
               Literal(q.id, s), c, k + 1, clauses)
      {
        ListedNext(q.Occurrences(s), Literal(q.id, s), c, k, clauses);
      }
      hide Clause.Shape, Listed;
      if sense { p.positive := p.positive + [c]; } else { p.negative := p.negative + [c]; }
    }

    /** Tell every proposition of a new clause about it. */
    method EnterAll(c: Clause)
      requires Shape() && c.Shape() && c !in clauses && forall p :: p in c.literals ==> p in props
      modifies props`positive, props`negative
      ensures Shaped(props, clauses + [c])
    {
      UniqueIds();
      EnteringNone(c, props, clauses);
      assert forall i :: 0 <= i < |props| ==> props[i].id == i;
      assert (forall d :: d in clauses ==> d.Shape()) && NoDuplicates(clauses) && |c.lits| == |c.literals|;
      hide Shaped, Entering, Clause.Shape, NoDuplicates;
      for k := 0 to |c.literals|
        invariant Entering(c, k, props, clauses)
      {
        assert c.literals[k] in c.literals;
        Enter(c, k);
      }
      EnteredAll(c, props, clauses);
    }

    lemma UniqueIds()
      requires Shape()
      ensures forall p, q :: p in props && q in props && p.id == q.id ==> p == q
    {
      forall p, q | p in props && q in props && p.id == q.id ensures p == q { SameProposition(p, q); }
    }

    static lemma OneMoreClause(ps: seq<Proposition>, cs: seq<Clause>, c: Clause, rank: map<nat, nat>,
                               t: set<Literal>, f: set<Literal>, loose: set<Proposition>)
      requires c.supports < 0
      ensures LinkedIn(ps, cs, loose) ==> LinkedIn(ps, cs + [c], loose)
      ensures WellFoundedIn(ps, cs, rank, t, f, loose) ==> WellFoundedIn(ps, cs + [c], rank, t, f, loose)
    {
      hide Forces;
    }

    /** A clause outside the theory changes nothing but the set of clauses. */
    method Enroll(c: Clause, ghost orphans: set<Proposition>)
      requires Lists() && Caches(trues, Opposites(trues), null) && Support(trues, Opposites(trues), orphans)
      requires undoList == []
      requires Stamped() && c !in clauses && c.deleted && !c.inFringe && !c.unsatisfied && c.supports < 0
      requires c.timeStamp == 0
      modifies this`clauses
      ensures clauses == old(clauses) + [c] && Theory() == old(Theory()) && (old(Founded()) ==> Founded())
      ensures Lists() && Caches(trues, Opposites(trues), null) && Support(trues, Opposites(trues), orphans) && Stamped()
    {
      NothingQueued(orphans);
      OneMoreClause(props, clauses, c, rank, trues, Opposites(trues), orphans);
      OneMoreClause(props, clauses, c, rank, trues, Opposites(trues), {});
      hide Exact, LinkedIn, WellFoundedIn, Opposites, NoDuplicates, Pending, Queued, Fringe.Valid;
      clauses := clauses + [c];
    }

    /** The Clause constructor, on lists without duplicates. */
    method NewClause(positives: seq<Proposition>, negatives: seq<Proposition>, isVolatile: bool, datum: nat)
      returns (c: Clause)
      requires Shape() && NoDuplicates(positives) && NoDuplicates(negatives)
      requires forall p :: p in positives || p in negatives ==> p in props
      ensures fresh(c) && c.Shape() && forall p :: p in c.literals ==> p in props
      ensures c.literals == positives + negatives && c.numPositive == |positives|
      ensures c.isVolatile == isVolatile && c.datum == datum
      ensures c.deleted && !c.inFringe && !c.unsatisfied && c.supports < 0 && c.timeStamp == 0
    {
      c := new Clause(positives, negatives, isVolatile, datum);
      hide *;
      DistinctLiterals(c, positives, negatives);
    }

    /** Enter a new clause into the lists of its propositions and into the set of clauses. */
    method Introduce(c: Clause, ghost orphans: set<Proposition>)
      requires Usable(orphans) && c !in clauses && c.Shape() && forall p :: p in c.literals ==> p in props
      requires c.deleted && !c.inFringe && !c.unsatisfied && c.supports < 0 && c.timeStamp == 0
      modifies props`positive, props`negative, this`clauses
      ensures Usable(orphans) && (old(Founded()) ==> Founded()) && clauses == old(clauses) + [c]
      ensures Theory() == old(Theory())
    {
      hide *;
      UsableParts(orphans);
      Parts(orphans);
      EnterAll(c);
      Enroll(c, orphans);
      ShapeMeans();
      Parts(orphans);
      UsableParts(orphans);
    }

    /** Ptheory::create_clause */
    method CreateClause(positives: seq<Proposition>, negatives: seq<Proposition>, isVolatile: bool, datum: nat,
                        inTheory: bool,
                        ghost orphans: set<Proposition>)
      returns (c: Clause)
      requires Usable(orphans) && forall p :: p in positives || p in negatives ==> p in props
      requires |Distinct(positives)| + |Distinct(negatives)| <= MAX_LITERALS
      modifies props`positive, props`negative, this`clauses, this`unsatisfied, fringe, volatileFringe
      ensures Usable(orphans) && (old(Founded()) ==> Founded()) && fresh(c) && clauses == old(clauses) + [c]
      ensures c.deleted == !inTheory
      ensures c.literals == Distinct(positives) + Distinct(negatives) && c.numPositive == |Distinct(positives)|
      ensures c.Shape() && Theory() == old(Theory()) + if inTheory then {c.lits} else {}
      ensures c.isVolatile == isVolatile && c.datum == datum
    {
      hide *;
      c := BuildClause(positives, negatives, isVolatile, datum, orphans);
      Admit(c, inTheory, orphans);
    }

    /** The clause lists each literal once. */
    method BuildClause(positives: seq<Proposition>, negatives: seq<Proposition>, isVolatile: bool, datum: nat,
                       ghost orphans: set<Proposition>)
      returns (c: Clause)
      requires Usable(orphans) && forall p :: p in positives || p in negatives ==> p in props
      ensures fresh(c) && c.Shape() && forall p :: p in c.literals ==> p in props
      ensures c.literals == Distinct(positives) + Distinct(negatives) && c.numPositive == |Distinct(positives)|
      ensures c.isVolatile == isVolatile && c.datum == datum
      ensures c.deleted && !c.inFringe && !c.unsatisfied && c.supports < 0 && c.timeStamp == 0
    {
      UsableShape(orphans);
      DistinctMembers(positives);
      DistinctMembers(negatives);
      hide *;
      c := NewClause(Distinct(positives), Distinct(negatives), isVolatile, datum);
    }

    method Admit(c: Clause, inTheory: bool, ghost orphans: set<Proposition>)
      requires Usable(orphans) && c !in clauses && c.Shape() && forall p :: p in c.literals ==> p in props
      requires c.deleted && !c.inFringe && !c.unsatisfied && c.supports < 0 && c.timeStamp == 0
      modifies props`positive, props`negative, this`clauses, this`unsatisfied, fringe, volatileFringe
      modifies c`deleted, c`supports, c`satisfyingProp, c`numUnassigned, c`unsatisfied, c`inFringe, c`fringeIndex
      ensures Usable(orphans) && (old(Founded()) ==> Founded()) && clauses == old(clauses) + [c]
      ensures c.deleted == !inTheory
      ensures Theory() == old(Theory()) + if inTheory then {c.lits} else {}
    {
      hide *;
      Introduce(c, orphans);
      if inTheory {
        Add(c, orphans);
      }
    }

    lemma ValidMeans()
      ensures Valid() <==> Usable({})
    {
      hide Usable;
    }

    lemma ShapeMeans()
      ensures Shape() <==> Shaped(props, clauses)
    {
      hide Shaped;
    }

    lemma UsableShape(orphans: set<Proposition>)
      requires Usable(orphans)
      ensures Shape()
    {
    }

    // ---------- bounded propagation ----------

    lemma Member(p: Proposition)
      requires p in props
      ensures p in Elements(props)
    {
    }

    /** One round of LTMS::partial_propagate: unlike propagate it never calls set_supports, so the value it assigns
        joins the `orphans`, whose clauses do not know that they support them. */
    method PartialStep(ghost orphans: set<Proposition>) returns (done: bool, ghost grown: set<Proposition>)
      requires Usable(orphans)
      modifies props`tv, props`supportedBy, props`slot, this`trues, this`rank
      modifies this`unsatisfied, fringe, volatileFringe
      modifies clauses`numUnassigned, clauses`satisfyingProp, clauses`inFringe, clauses`unsatisfied, clauses`fringeIndex
      ensures Usable(grown) && (old(Founded()) ==> Founded())
      ensures done <==> old(NoFringe())
      ensures if done then grown == orphans && trues == old(trues) && unsatisfied == old(unsatisfied) && NoFringe()
              else orphans < grown && |grown| == |orphans| + 1 && old(trues) < trues
      ensures old(unsatisfied) == [] ==> StoppedAtOnce(old(trues))
    {
      hide *;
      UsableParts(orphans);
      Parts(orphans);
      grown := orphans;
      var c := GetFringeClause(trues, Opposites(trues));
      done := c == null;
      if !done {
        grown := PropagateUnlinked(c, orphans);
      } else {
        Parts(grown);
        NotStopped();
      }
      UsableParts(grown);
    }

    /** The clause is not told that it supports the new value. */
    method PropagateUnlinked(c: Clause, ghost orphans: set<Proposition>) returns (ghost grown: set<Proposition>)
      requires Shape() && Lists() && Values(trues) && Caches(trues, Opposites(trues), c)
      requires Support(trues, Opposites(trues), orphans) && Known(orphans) && Unit(c, trues, Opposites(trues))
      requires orphans <= Elements(props)
      modifies props`tv, props`supportedBy, props`slot, this`trues, this`rank
      modifies this`unsatisfied, fringe, volatileFringe
      modifies clauses`numUnassigned, clauses`satisfyingProp, clauses`inFringe, clauses`unsatisfied, clauses`fringeIndex
      ensures Coherent(grown) && Known(grown) && grown <= Elements(props) && (old(Founded()) ==> Founded())
      ensures orphans < grown && |grown| == |orphans| + 1 && old(trues) < trues
      ensures old(unsatisfied) == [] ==> StoppedAtOnce(old(trues))
    {
      hide *;
      var p := PropagateClause(c, orphans);
      grown := orphans + {p};
      Member(p);
    }

    /** LTMS::partial_propagate. Its answer is right, but a value it assigns is an orphan. */
    method PartialPropagate(iterations: nat, ghost orphans: set<Proposition>)
      returns (finished: bool, consistent: bool, ghost grown: set<Proposition>)
      requires Usable(orphans)
      modifies props`tv, props`supportedBy, props`slot, this`trues, this`rank
      modifies this`unsatisfied, fringe, volatileFringe
      modifies clauses`numUnassigned, clauses`satisfyingProp, clauses`inFringe, clauses`unsatisfied, clauses`fringeIndex
      ensures Usable(grown) && orphans <= grown && old(trues) <= trues && (old(Founded()) ==> Founded())
      ensures finished ==> if consistent then Settled() else unsatisfied != []
      ensures finished && consistent ==>
        !PropagationConflict(Theory()) && forall l :: Derivable(Theory(), l) ==> l in trues
      ensures old(Founded()) ==> forall l :: l in trues ==> Derivable(Theory(), l)
      ensures old(Founded()) && finished && !consistent ==> PropagationConflict(Theory())
      ensures |grown| <= |orphans| + iterations && (finished && consistent ==> |grown| < |orphans| + iterations)
      ensures !finished ==> unsatisfied == [] && |grown| == |orphans| + iterations
      ensures grown == orphans <==> old(unsatisfied != [] || iterations == 0 || NoFringe())
      ensures old(unsatisfied) == [] ==> StoppedAtOnce(old(trues))
    {
      hide *;
      UsableParts(orphans);
      NotStopped();
      grown, consistent := orphans, false;
      var iteration := 0;
      while unsatisfied == [] && iteration < iterations
        invariant Usable(grown) && old(trues) <= trues && iteration <= iterations && (old(Founded()) ==> Founded())
        invariant orphans <= grown && |grown| == |orphans| + iteration
        invariant iteration > 0 ==> orphans < grown && !old(NoFringe()) && old(unsatisfied) == []
        invariant iteration == 0 ==>
          grown == orphans && NoFringe() == old(NoFringe()) && unsatisfied == old(unsatisfied)
        invariant old(unsatisfied) == [] ==> StoppedAtOnce(old(trues))
      {
        var done;
        ghost var t := trues;
        done, grown := PartialStep(grown);
        StoppedSince(t, old(trues));
        if done {
          UsableOutcome(grown);
          return true, true, grown;
        }
        iteration := iteration + 1;
      }
      UsableOutcome(grown);
      finished := unsatisfied != [];
    }

    lemma UsableOutcome(orphans: set<Proposition>)
      requires Usable(orphans)
      ensures Settled() <==> unsatisfied == [] && NoFringe()
      ensures Settled() ==> !PropagationConflict(Theory()) && forall l :: Derivable(Theory(), l) ==> l in trues
      ensures Founded() ==> forall l :: l in trues ==> Derivable(Theory(), l)
      ensures Founded() && unsatisfied != [] ==> PropagationConflict(Theory()) && Unsatisfiable(Theory())
    {
      UsableParts(orphans);
      hide *;
      Outcome(orphans);
    }

    ghost function ValuesOf(ps: set<Proposition>): set<Literal>
      reads ps`tv
    {
      set p | p in ps :: Literal(p.id, p.tv == PTrue)
    }

    /** In every state, also after a remove, all values follow from the theory exactly if those of the orphans do. */
    lemma OrphansDecide(orphans: set<Proposition>)
      requires Usable(orphans)
      ensures (forall l :: l in trues ==> Derivable(Theory(), l)) <==>
        forall l :: l in ValuesOf(orphans) ==> Derivable(Theory(), l)
    {
      ForcedExceptOrphans(orphans);
      hide *;
      if forall l :: l in ValuesOf(orphans) ==> Derivable(Theory(), l) {
        forall l | l in trues ensures Derivable(Theory(), l) {
          GivenDerivable(Theory(), trues, rank, ValuesOf(orphans), l);
        }
      }
    }

    lemma ForcedExceptOrphans(orphans: set<Proposition>)
      requires Usable(orphans)
      ensures GroundedExcept(Theory(), trues, rank, ValuesOf(orphans)) && ValuesOf(orphans) <= trues
    {
      NothingQueued(orphans);
      forall l | l in trues && l !in ValuesOf(orphans) ensures ForcedBy(Theory(), l, trues, rank) {
        hide Lists, Caches, Forces, Linked, Opposites, Stamped;
        assert props[l.prop] in props && l == Literal(props[l.prop].id, l.positive);
        TrueForced(l, orphans);
      }
      hide Lists, Caches, Forces, Support, Opposites, Stamped;
    }

    /** One assertion of one proposition, a single round and the assertion is taken back: the value stays, although
        nothing is left to derive it from. */
    static method ForgottenSupport() returns (ltms: Ltms, p: Proposition, c: Clause)
      ensures fresh(ltms) && ltms.props == [p] && ltms.clauses == [c] && c.deleted && ltms.Theory() == {}
      ensures p.tv != Unknown && !Derivable(ltms.Theory(), Literal(p.id, p.tv == PTrue)) && !ltms.Founded()
    {
      hide *;
      ltms := new Ltms();
      ltms.ValidParts();
      p := ltms.CreateProposition({});
      ltms.DistinctOne(p);
      c := ltms.CreateClause([p], [], false, 0, true, {});
      ltms.AssignAndRemove(p, c);
    }

    method AssignAndRemove(p: Proposition, c: Clause)
      requires Usable({}) && Founded() && props == [p] && clauses == [c] && c.literals == [p] && c.numPositive == 1
      requires !c.deleted && p.tv == Unknown
      modifies props`tv, props`supportedBy, props`slot, this`trues, this`rank
      modifies this`unsatisfied, this`undoList, fringe, volatileFringe, c`deleted
      modifies clauses`numUnassigned, clauses`satisfyingProp, clauses`inFringe, clauses`unsatisfied, clauses`fringeIndex
      modifies clauses`supports
      ensures c.deleted && Theory() == {} && p.tv != Unknown && !Founded()
      ensures !Derivable(Theory(), Literal(p.id, p.tv == PTrue))
    {
      hide *;
      LoneAssertion(p, c);
      var _, _, orphans := PartialPropagate(1, {});
      LoneOrphan(p, c, orphans);
      Remove(c, orphans);
      NoTheory(c);
    }

    lemma DistinctOne(p: Proposition)
      ensures Distinct([p]) == [p] && Distinct<Proposition>([]) == []
      ensures |Distinct([p])| + |Distinct<Proposition>([])| <= MAX_LITERALS
    {
      assert [p][..0] == [];
    }

    lemma LoneAssertion(p: Proposition, c: Clause)
      requires Usable({}) && Founded() && props == [p] && clauses == [c] && c.literals == [p] && c.numPositive == 1
      requires !c.deleted && p.tv == Unknown
      ensures unsatisfied == [] && !NoFringe()
    {
      hide Linked, WellFounded, Support, Stamped;
      assert c in clauses && p in props && c.literals[0] == p;
      KnownLiteral(c, 0, trues);
      UnknownsOne(c.lits, trues, Opposites(trues), 0);
      assert UpToDate(c, c.deleted, c.Status(), trues, Opposites(trues), null);
      assert !Satisfied(c.lits, trues);
      SomeElement(unsatisfied);
    }

    static lemma SomeElement<T>(s: seq<T>)
      ensures s == [] || exists x :: x in s
    {
      if s != [] { assert s[0] in s; }
    }

    /** The only value is that of an orphan, so it rests on nothing; but its clause is the one there is. */
    lemma LoneOrphan(p: Proposition, c: Clause, orphans: set<Proposition>)
      requires props == [p] && clauses == [c] && Usable(orphans) && Founded() && orphans != {}
      ensures p.tv != Unknown && !RestsOn(p, c, orphans) && !Undisturbed(c, orphans)
    {
      hide Coherent, Opposites, RestsOn, Forces, Stamped;
      var q :| q in orphans;
      assert q == p;
      if RestsOn(p, c, orphans) { RestsBecause(p, c, orphans); }
    }

    lemma NoTheory(c: Clause)
      requires clauses == [c] && c.deleted
      ensures Theory() == {} && forall l :: !Derivable(Theory(), l)
    {
      forall l, n: nat ensures !DerivedIn(Theory(), l, n) {
      }
    }

    // ---------- truth maintenance ----------

    /** Whatever was added, removed and propagated before, the values depend on the theory alone. */
    lemma HistoryIndependent(other: Ltms)
      requires Valid() && Settled() && other.Valid() && other.Settled() && Theory() == other.Theory()
      ensures trues == other.trues
    {
      hide *;
      ValidOutcome();
      other.ValidOutcome();
    }

    lemma ValidOutcome()
      requires Valid()
      ensures Settled() ==> !PropagationConflict(Theory()) && forall l :: l in trues <==> Derivable(Theory(), l)
    {
      hide *;
      ValidParts();
      UsableOutcome({});
    }

    /** Adding a clause, drawing all conclusions and retracting it again leaves exactly the old conclusions. */
    method AddAndRetract(c: Clause) returns (consistent: bool)
      requires Valid() && Settled() && c in clauses && c.deleted
      modifies props`tv, props`supportedBy, props`slot, this`trues, this`rank
      modifies this`unsatisfied, this`undoList, fringe, volatileFringe
      modifies c`deleted, c`supports, c`satisfyingProp, c`numUnassigned, c`unsatisfied, c`inFringe, c`fringeIndex
      modifies clauses`numUnassigned, clauses`satisfyingProp, clauses`inFringe, clauses`unsatisfied, clauses`fringeIndex
      modifies clauses`supports
      ensures Valid() && consistent && trues == old(trues) && Theory() == old(Theory())
    {
      hide *;
      ValidOutcome();
      ValidParts();
      AddThenRemove(c);
      consistent := Propagate({}, trues);
      ValidMeans();
      if consistent { ValidOutcome(); }
    }

    method AddThenRemove(c: Clause)
      requires Usable({}) && Founded() && c in clauses && c.deleted
      modifies props`tv, props`supportedBy, props`slot, this`trues, this`rank
      modifies this`unsatisfied, this`undoList, fringe, volatileFringe
      modifies c`deleted, c`supports, c`satisfyingProp, c`numUnassigned, c`unsatisfied, c`inFringe, c`fringeIndex
      modifies clauses`numUnassigned, clauses`satisfyingProp, clauses`inFringe, clauses`unsatisfied, clauses`fringeIndex
      modifies clauses`supports
      ensures Usable({}) && Founded() && Theory() == old(Theory())
    {
      hide *;
      Add(c, {});
      var _ := Propagate({}, trues);
      Remove(c, {});
      ValidMeans();
      ValidParts();
    }
  }
}
