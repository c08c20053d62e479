/** The walk from an assignment to the assumptions that support it, through justifications that are fetched once and
    kept. */
module Justifications {
  import opened Options
  import opened Sequences

  type Prop = nat

  /** An assignment object: its proposition and, once it has been asked for, its justification: the antecedents,
      each an object of its own. */
  datatype AttributeAssignment = Unasked(prop: Prop) | Justified(prop: Prop, justification: seq<AttributeAssignment>)

  /** What the engine answers: the positive and then the negative antecedents, or nothing for an unknown proposition. */
  datatype Engine = Engine(antecedents: Prop -> Option<seq<Prop>>, ghost rank: Prop -> nat) {

    /** Justifications are acyclic: an antecedent has a lower rank. */
    ghost predicate Acyclic() {
      forall p, c :: c in Below(p) ==> rank(c) < rank(p)
    }

    function Below(p: Prop): seq<Prop> {
      if antecedents(p).Some? then antecedents(p).value else []
    }

    /** What has been kept is what the engine still answers. */
    ghost predicate Stable(a: AttributeAssignment)
      decreases a
    {
      a.Justified? ==>
        && antecedents(a.prop) == Some(Props(a.justification))
        && forall k :: 0 <= k < |a.justification| ==> Stable(a.justification[k])
    }

    // ---------- all ways down ----------

    /** Every way from an assignment down to one without antecedents. */
    ghost function Routes(p: Prop): seq<seq<Prop>>
      requires Acyclic()
      decreases rank(p), |Below(p)| + 1
    {
      if Below(p) == [] then [[p]] else Branches(p, Below(p))
    }

    /** The ways that go on with one of these antecedents. */
    ghost function Branches(p: Prop, cs: seq<Prop>): seq<seq<Prop>>
      requires Acyclic() && |cs| <= |Below(p)| && forall c :: c in cs ==> c in Below(p)
      decreases rank(p), |cs|
    {
      if cs == [] then [] else Branches(p, cs[..|cs|-1]) + Prefixed(p, Routes(cs[|cs|-1]))
    }

    /** A way down: each is an antecedent of the one before, and the last has none. */
    ghost predicate Way(r: seq<Prop>) {
      && r != [] && Below(r[|r|-1]) == []
      && forall i :: 0 <= i < |r| - 1 ==> r[i + 1] in Below(r[i])
    }

    lemma {:induction false} RoutesAreWays(p: Prop, r: seq<Prop>)
      requires Acyclic()
      ensures r in Routes(p) <==> Way(r) && r[0] == p
      decreases rank(p), |Below(p)| + 1
    {
      if Below(p) == [] {
        if Way(r) && r[0] == p {
          WayEnds(r);
        }
      } else {
        BranchesAreWays(p, Below(p), r);
        if Way(r) && r[0] == p {
          assert |r| > 1;
          assert r[1] in Below(r[0]);
        }
      }
    }

    lemma {:induction false} BranchesAreWays(p: Prop, cs: seq<Prop>, r: seq<Prop>)
      requires Acyclic() && |cs| <= |Below(p)| && forall c :: c in cs ==> c in Below(p)
      ensures r in Branches(p, cs) <==> |r| > 1 && r[0] == p && r[1] in cs && Way(r[1..])
      decreases rank(p), |cs|
    {
      if cs != [] {
        var n := |cs| - 1;
        BranchesAreWays(p, cs[..n], r);
        PrefixedMembers(p, Routes(cs[n]), r);
        if |r| > 0 { RoutesAreWays(cs[n], r[1..]); }
        assert cs == cs[..n] + [cs[n]];
      }
    }

    lemma WayEnds(r: seq<Prop>)
      requires Way(r) && Below(r[0]) == []
      ensures r == [r[0]]
    {
      GoesOn(r);
    }

    lemma GoesOn(r: seq<Prop>)
      requires Way(r)
      ensures |r| > 1 ==> Below(r[0]) != []
    {
      if |r| > 1 {
        assert r[0 + 1] in Below(r[0]);
      }
    }

    /** The end of every way, as often as there are ways to it */
    ghost function Leaves(p: Prop): seq<Prop>
      requires Acyclic()
    {
      Ends(Routes(p))
    }

    /** The antecedent lists name nobody twice. */
    ghost predicate Simple() {
      forall p :: NoDuplicates(Below(p))
    }

    /** Then no way is listed twice. */
    lemma {:induction false} RoutesDistinct(p: Prop)
      requires Acyclic() && Simple()
      ensures NoDuplicates(Routes(p))
      decreases rank(p), |Below(p)| + 1
    {
      if Below(p) != [] {
        BranchesDistinct(p, Below(p));
      }
    }

    lemma {:induction false} BranchesDistinct(p: Prop, cs: seq<Prop>)
      requires Acyclic() && Simple() && |cs| <= |Below(p)| && NoDuplicates(cs) && forall c :: c in cs ==> c in Below(p)
      ensures NoDuplicates(Branches(p, cs))
      decreases rank(p), |cs|
    {
      if cs != [] {
        var n := |cs| - 1;
        var before, last := Branches(p, cs[..n]), Prefixed(p, Routes(cs[n]));
        BranchesDistinct(p, cs[..n]);
        RoutesDistinct(cs[n]);
        forall i, j | 0 <= i < |before| && 0 <= j < |last| ensures before[i] != last[j] {
          BranchesAreWays(p, cs[..n], before[i]);
          PrefixedMembers(p, Routes(cs[n]), last[j]);
          RoutesAreWays(cs[n], last[j][1..]);
          assert before[i] in before && last[j] in last;
        }
        forall i, j | 0 <= i < j < |last| ensures last[i] != last[j] {
          assert last[i][1..] == Routes(cs[n])[i] && last[j][1..] == Routes(cs[n])[j];
        }
      }
    }

    // ---------- the walk ----------

    /** getJustification: an object answers from what it has kept, if anything. */
    method GetJustification(a: AttributeAssignment) returns (b: AttributeAssignment)
      requires Stable(a)
      ensures b.prop == a.prop && Stable(b) && (b.Justified? <==> antecedents(a.prop).Some?)
      ensures b.Justified? ==> Props(b.justification) == antecedents(a.prop).value
    {
      if a.Justified? {
        return a;
      }
      var answer := antecedents(a.prop);
      if answer.None? {
        return a;
      }
      var antecedentObjects := [];
      for i := 0 to |answer.value|
        invariant |antecedentObjects| == i
        invariant forall k :: 0 <= k < i ==> antecedentObjects[k] == Unasked(answer.value[k])
      {
        antecedentObjects := antecedentObjects + [Unasked(answer.value[i])];
      }
      b := Justified(a.prop, antecedentObjects);
      assert Props(antecedentObjects) == answer.value;
    }

    /** childLeafAttributeAssignments1: add the leaves below an assignment to the result, or the assignment itself.
        The object that comes back keeps every justification that was fetched on the way. */
    method AddLeaves(a: AttributeAssignment, result: seq<Prop>) returns (b: AttributeAssignment, r: seq<Prop>)
      requires Acyclic() && Stable(a)
      ensures b.prop == a.prop && Stable(b)
      ensures r == result + Leaves(a.prop)
      decreases rank(a.prop), |Below(a.prop)| + 1
    {
      b := GetJustification(a);
      if b.Unasked? || |b.justification| == 0 {
        r := result + [a.prop];
        LeafAlone(a.prop);
      } else {
        var children;
        children, r := AddLeavesBelow(a.prop, b.justification, result);
        b := Justified(a.prop, children);
      }
    }

    lemma LeafAlone(p: Prop)
      requires Acyclic() && Below(p) == []
      ensures Leaves(p) == [p]
    {
    }

    method AddLeavesBelow(p: Prop, children: seq<AttributeAssignment>, result: seq<Prop>)
      returns (kept: seq<AttributeAssignment>, r: seq<Prop>)
      requires Acyclic() && Props(children) == Below(p) && forall k :: 0 <= k < |children| ==> Stable(children[k])
      ensures Props(kept) == Below(p) && forall k :: 0 <= k < |kept| ==> Stable(kept[k])
      ensures r == result + Ends(Branches(p, Below(p)))
      decreases rank(p), |Below(p)|
    {
      kept, r := [], result;
      FirstBranch(p, children);
      hide *;
      KeptNone(p);
      for i := 0 to |children|
        invariant Kept(kept, p, i) && r == result + Ends(Branches(p, Below(p)[..i]))
      {
        NextBranch(p, i);
        var child;
        child, r := AddLeaves(children[i], r);
        KeptMore(kept, p, child);
        kept := kept + [child];
      }
      assert Below(p)[..|children|] == Below(p);
      KeptAll(kept, p);
    }

    /** The objects kept for the first antecedents */
    ghost predicate Kept(kept: seq<AttributeAssignment>, p: Prop, i: nat) {
      && |kept| == i <= |Below(p)|
      && forall k :: 0 <= k < i ==> Stable(kept[k]) && kept[k].prop == Below(p)[k]
    }

    lemma KeptNone(p: Prop)
      ensures Kept([], p, 0)
    {
    }

    lemma KeptMore(kept: seq<AttributeAssignment>, p: Prop, child: AttributeAssignment)
      requires Kept(kept, p, |kept|) && |kept| < |Below(p)| && Stable(child) && child.prop == Below(p)[|kept|]
      ensures Kept(kept + [child], p, |kept| + 1)
    {
      hide Stable, Below;
    }

    lemma KeptAll(kept: seq<AttributeAssignment>, p: Prop)
      requires Kept(kept, p, |Below(p)|)
      ensures Props(kept) == Below(p) && forall k :: 0 <= k < |kept| ==> Stable(kept[k])
    {
      hide Stable, Below;
      SameProps(kept, Below(p));
    }

    lemma FirstBranch(p: Prop, children: seq<AttributeAssignment>)
      requires Acyclic() && Props(children) == Below(p)
      ensures Ends(Branches(p, Below(p)[..0])) == []
      ensures |children| == |Below(p)| && forall k :: 0 <= k < |children| ==> children[k].prop == Below(p)[k]
    {
      assert forall k :: 0 <= k < |children| ==> Props(children)[k] == children[k].prop;
      hide Below, Props, Acyclic;
    }

    static lemma SameProps(s: seq<AttributeAssignment>, ps: seq<Prop>)
      requires |s| == |ps| && forall k :: 0 <= k < |s| ==> s[k].prop == ps[k]
      ensures Props(s) == ps
    {
    }

    lemma NextBranch(p: Prop, i: nat)
      requires Acyclic() && i < |Below(p)|
      ensures Ends(Branches(p, Below(p)[..i+1])) == Ends(Branches(p, Below(p)[..i])) + Leaves(Below(p)[i])
      ensures rank(Below(p)[i]) < rank(p)
    {
      var cs := Below(p)[..i+1];
      assert cs[..i] == Below(p)[..i] && cs[i] == Below(p)[i];
      EndsBoth(Branches(p, cs[..i]), Prefixed(p, Routes(cs[i])));
      RoutesNotEmpty(cs[i]);
      EndsPrefixed(p, Routes(cs[i]));
    }

    lemma RoutesNotEmpty(p: Prop)
      requires Acyclic()
      ensures forall r :: r in Routes(p) ==> r != []
    {
      forall r | r in Routes(p) ensures r != [] {
        RoutesAreWays(p, r);
      }
    }

    /** childLeafAttributeAssignments: the leaves strictly below, whatever has been kept from earlier questions */
    method ChildLeafAttributeAssignments(a: AttributeAssignment) returns (b: AttributeAssignment, result: seq<Prop>)
      requires Acyclic() && Stable(a)
      ensures b.prop == a.prop && Stable(b)
      ensures result == if Below(a.prop) == [] then [] else Leaves(a.prop)
    {
      b := GetJustification(a);
      if b.Justified? {
        var children;
        children, result := AddLeavesBelow(a.prop, b.justification, []);
        b := Justified(a.prop, children);
        assert Ends([]) == [];
      } else {
        result := [];
      }
    }

    /** What is found is what can be reached and has no antecedents. */
    lemma LeavesReachable(p: Prop, q: Prop)
      requires Acyclic()
      ensures q in Leaves(p) <==> exists r :: Way(r) && r[0] == p && r[|r|-1] == q
    {
      RoutesNotEmpty(p);
      if q in Leaves(p) {
        var i :| 0 <= i < |Routes(p)| && Leaves(p)[i] == q;
        RoutesAreWays(p, Routes(p)[i]);
        assert Routes(p)[i] in Routes(p);
      }
      if r :| Way(r) && r[0] == p && r[|r|-1] == q {
        RoutesAreWays(p, r);
        var i :| 0 <= i < |Routes(p)| && Routes(p)[i] == r;
        assert Leaves(p)[i] == q;
      }
    }
  }

  /** The last element of each, where there is one */
  ghost function Ends(rs: seq<seq<Prop>>): seq<Prop> {
    seq(|rs|, i requires 0 <= i < |rs| => if rs[i] == [] then 0 else rs[i][|rs[i]|-1])
  }

  lemma EndsBoth(rs: seq<seq<Prop>>, ss: seq<seq<Prop>>)
    ensures Ends(rs + ss) == Ends(rs) + Ends(ss)
  {
  }

  lemma EndsPrefixed(p: Prop, rs: seq<seq<Prop>>)
    requires forall r :: r in rs ==> r != []
    ensures Ends(Prefixed(p, rs)) == Ends(rs)
  {
    forall i | 0 <= i < |rs| ensures Ends(Prefixed(p, rs))[i] == Ends(rs)[i] {
      assert rs[i] in rs;
    }
  }

  function Props(s: seq<AttributeAssignment>): seq<Prop> {
    seq(|s|, i requires 0 <= i < |s| => s[i].prop)
  }

  ghost function Prefixed(p: Prop, rs: seq<seq<Prop>>): seq<seq<Prop>> {
    seq(|rs|, i requires 0 <= i < |rs| => [p] + rs[i])
  }

  lemma PrefixedMembers(p: Prop, rs: seq<seq<Prop>>, r: seq<Prop>)
    ensures r in Prefixed(p, rs) <==> |r| > 0 && r[0] == p && r[1..] in rs
  {
    if r in Prefixed(p, rs) {
      var i :| 0 <= i < |rs| && Prefixed(p, rs)[i] == r;
      assert r[1..] == rs[i];
    }
    if |r| > 0 && r[0] == p && r[1..] in rs {
      var i :| 0 <= i < |rs| && rs[i] == r[1..];
      assert Prefixed(p, rs)[i] == r;
    }
  }
}
